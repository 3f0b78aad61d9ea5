/** Zero-padded octal numbers: printing them with "%0*o" and parsing ustar octal fields. */
module Octal {
  import opened Sectors
  import opened Options

  const ULONG_MAX: nat := 0xFFFF_FFFF
  const ZERO: byte := 48

  function Pow8(n: nat): (r: nat)
    ensures r >= 1
  {
    if n == 0 then 1 else 8 * Pow8(n - 1)
  }

  function Digit(d: nat): byte
    requires d < 8
  {
    ZERO + d as byte
  }

  /** The `w` low octal digits of `v`, most significant first. */
  function Digits(v: nat, w: nat): (s: seq<byte>)
    ensures |s| == w
  {
    if w == 0 then [] else Digits(v / 8, w - 1) + [Digit(v % 8)]
  }

  function ZeroDigits(n: nat): (s: seq<byte>)
    ensures |s| == n && forall i :: 0 <= i < n ==> s[i] == ZERO
  {
    seq(n, i => ZERO)
  }

  function Reversed(s: seq<byte>): (r: seq<byte>)
    ensures |r| == |s|
  {
    if s == [] then [] else [s[|s| - 1]] + Reversed(s[..|s| - 1])
  }

  lemma {:induction false} DigitsOfZero(w: nat)
    ensures Digits(0, w) == ZeroDigits(w)
  {
    if w > 0 { DigitsOfZero(w - 1); }
  }

  // ---------------------------------------------------------------- printing

  /** Digits are accumulated least significant first, as many as the value has. */
  method Accumulate(v: nat, ghost width: nat) returns (buf: seq<byte>)
    requires v < Pow8(width)
    ensures |buf| <= width && Digits(v, width) == ZeroDigits(width - |buf|) + Reversed(buf) && (v > 0 ==> buf != [])
  {
    var value: nat := v;
    buf := [];
    while value > 0
      invariant |buf| <= width && value < Pow8(width - |buf|) && (v > 0 && value == 0 ==> buf != [])
      invariant Digits(v, width) == Digits(value, width - |buf|) + Reversed(buf)
    {
      ReversedAppend(buf, Digit(value % 8));
      assert Digits(value, width - |buf|) == Digits(value / 8, width - |buf| - 1) + [Digit(value % 8)];
      buf := buf + [Digit(value % 8)];
      value := value / 8;
    }
    DigitsOfZero(width - |buf|);
  }

  method Emit(buf: seq<byte>) returns (out: seq<byte>)
    ensures out == Reversed(buf)
  {
    out := [];
    var n: nat := |buf|;
    assert buf[..n] == buf;
    while n > 0
      invariant n <= |buf| && Reversed(buf) == out + Reversed(buf[..n])
    {
      assert buf[..n][..n - 1] == buf[..n - 1];
      n := n - 1;
      out := out + [buf[n]];
    }
  }

  /** format_integer for an unsigned octal conversion with the zero flag and a field width. */
  method FormatOctal(v: nat, width: nat) returns (out: seq<byte>)
    requires width > 0 && v < Pow8(width)
    ensures out == Digits(v, width)
  {
    var buf := Accumulate(v, width);
    if |buf| < 1 {
      assert ZeroDigits(width) == ZeroDigits(width - 1) + [ZERO];
      buf := buf + [ZERO];
    }
    var digits := Emit(buf);
    out := ZeroDigits(width - |buf|) + digits;
  }

  lemma ReversedAppend(s: seq<byte>, x: byte)
    ensures Reversed(s + [x]) == [x] + Reversed(s)
  {
  }

  // ---------------------------------------------------------------- parsing

  predicate IsDigit(c: byte) { ZERO <= c <= 55 }

  predicate AllDigits(s: seq<byte>) { forall i :: 0 <= i < |s| ==> IsDigit(s[i]) }

  /** The number that octal digits stand for. */
  function Value(s: seq<byte>): nat
    requires AllDigits(s)
  {
    if s == [] then 0 else Value(s[..|s| - 1]) * 8 + (s[|s| - 1] - ZERO) as nat
  }

  /** The field holds `n` digits, at least one, then a space or a null byte, and the digits stand for `v`. */
  ghost predicate Field(s: seq<byte>, n: nat, v: nat) {
    0 < n < |s| && AllDigits(s[..n]) && (s[n] == 32 || s[n] == 0) && Value(s[..n]) == v <= ULONG_MAX
  }

  /** How many digits the field starts with. */
  function Span(s: seq<byte>): (n: nat)
    ensures n <= |s| && AllDigits(s[..n]) && (n < |s| ==> !IsDigit(s[n]))
  {
    if s == [] || !IsDigit(s[0]) then 0 else 1 + Span(s[1..])
  }

  function ParseField(s: seq<byte>): Option<nat> {
    var n := Span(s);
    if 0 < n < |s| && (s[n] == 32 || s[n] == 0) && Value(s[..n]) <= ULONG_MAX then Some(Value(s[..n])) else None
  }

  /** Only the leading digits can be the number. */
  lemma SpanUnique(s: seq<byte>, n: nat)
    requires n < |s| && AllDigits(s[..n]) && !IsDigit(s[n])
    ensures n == Span(s)
  {
    assert forall i :: 0 <= i < n ==> s[..n][i] == s[i];
    assert forall i :: 0 <= i < Span(s) ==> s[..Span(s)][i] == s[i];
  }

  /** What a field is accepted for, and as which number. */
  lemma ParseExact(s: seq<byte>, v: nat)
    ensures ParseField(s) == Some(v) <==> exists n :: Field(s, n, v)
  {
    if ParseField(s) == Some(v) { assert Field(s, Span(s), v); }
    if n :| Field(s, n, v) { SpanUnique(s, n); }
  }

  lemma {:induction false} ValueGrows(s: seq<byte>, a: nat, b: nat)
    requires a <= b <= |s| && AllDigits(s[..b])
    ensures AllDigits(s[..a]) && Value(s[..a]) <= Value(s[..b])
    decreases b
  {
    assert forall i :: 0 <= i < a ==> s[..a][i] == s[..b][i];
    if a < b {
      assert s[..b][..b - 1] == s[..b - 1];
      ValueGrows(s, a, b - 1);
    }
  }

  lemma ValueNext(s: seq<byte>, n: nat)
    requires n < |s| && AllDigits(s[..n]) && IsDigit(s[n])
    ensures AllDigits(s[..n + 1]) && Value(s[..n + 1]) == Value(s[..n]) * 8 + (s[n] - ZERO) as nat
  {
    assert s[..n + 1][..n] == s[..n];
  }

  /** A prefix of digits is never longer than the leading digits. */
  lemma SpanAtLeast(s: seq<byte>, n: nat)
    requires n <= |s| && AllDigits(s[..n])
    ensures n <= Span(s)
  {
    assert forall i :: 0 <= i < n ==> s[..n][i] == s[i];
  }

  lemma TooBig(s: seq<byte>, n: nat)
    requires n <= |s| && AllDigits(s[..n]) && Value(s[..n]) > ULONG_MAX
    ensures ParseField(s) == None
  {
    SpanAtLeast(s, n);
    ValueGrows(s, n, Span(s));
  }

  /** parse_octal_field. */
  method ParseOctalField(s: seq<byte>) returns (ok: bool, value: nat)
    ensures ok <==> exists n, v :: Field(s, n, v)
    ensures ok ==> exists n :: Field(s, n, value)
    ensures ok == ParseField(s).Some? && (ok ==> value == ParseField(s).value)
  {
    ok, value := Scan(s);
    ghost var p := ParseField(s);
    if p.Some? { ParseExact(s, p.value); }
    if n, v :| Field(s, n, v) { ParseExact(s, v); }
  }

  method Scan(s: seq<byte>) returns (ok: bool, value: nat)
    ensures ok == ParseField(s).Some? && (ok ==> value == ParseField(s).value)
  {
    value := 0;
    var ofs := 0;
    while ofs < |s|
      invariant ofs <= |s| && AllDigits(s[..ofs]) && value == Value(s[..ofs]) <= ULONG_MAX
    {
      var c := s[ofs];
      if IsDigit(c) {
        ValueNext(s, ofs);
        if value > ULONG_MAX / 8 {
          TooBig(s, ofs + 1);
          return false, value;
        }
        value := (c - ZERO) as nat + value * 8;
      } else {
        SpanUnique(s, ofs);
        if c == 32 || c == 0 { return ofs > 0, value; } else { return false, value; }
      }
      ofs := ofs + 1;
    }
    SpanAtLeast(s, |s|);
    return false, value;
  }

  /** The digits of a number stand for the number. */
  lemma {:induction false} DigitsValue(v: nat, w: nat)
    requires v < Pow8(w)
    ensures AllDigits(Digits(v, w)) && Value(Digits(v, w)) == v
    decreases w
  {
    if w > 0 {
      DigitsValue(v / 8, w - 1);
      var s := Digits(v, w);
      assert s[..w - 1] == Digits(v / 8, w - 1);
    }
  }

  /** Parsing undoes printing, for every value that fits the field and an unsigned long. */
  lemma RoundTrip(v: nat, w: nat)
    requires w > 0 && v < Pow8(w) && v <= ULONG_MAX
    ensures ParseField(Digits(v, w) + [0]) == Some(v)
  {
    var s := Digits(v, w) + [0];
    DigitsValue(v, w);
    assert s[..w] == Digits(v, w);
    assert Field(s, w, v);
    ParseExact(s, v);
  }
}
