/** ustar archive headers: composing one for a file or directory and parsing it back. */
module Ustar {
  import opened Sectors
  import opened Octal
  import opened Options

  const HEADER_SIZE: nat := 512
  const INT_MAX: int := 0x7FFF_FFFF

  const SLASH: byte := 47
  const DOT: byte := 46
  const SPACE: byte := 32
  const REGULAR: byte := 48
  const DIRECTORY: byte := 53

  /** A C string: no byte is zero. */
  type Name = s: seq<byte> | forall i :: 0 <= i < |s| ==> s[i] != 0

  // ---------------------------------------------------------------- names

  /** The length of an antisocial prefix: "/", "./" or "../". */
  function Antisocial(s: seq<byte>): nat {
    if |s| >= 1 && s[0] == SLASH then 1
    else if |s| >= 2 && s[0] == DOT && s[1] == SLASH then 2
    else if |s| >= 3 && s[0] == DOT && s[1] == DOT && s[2] == SLASH then 3
    else 0
  }

  function Suffix(s: Name): (r: Name)
    ensures Antisocial(r) == 0
  {
    if Antisocial(s) == 0 then s else Suffix(s[Antisocial(s)..])
  }

  function Strip(s: Name): Name {
    var r := Suffix(s);
    if r == [] || r == [DOT, DOT] then [DOT] else r
  }

  /** Stripping twice is stripping once, and what is left never starts at the root or above. */
  lemma StripIdempotent(s: Name)
    ensures Strip(Strip(s)) == Strip(s) && Strip(s) != [] && Antisocial(Strip(s)) == 0 && Strip(s) != [DOT, DOT]
  {
  }

  /** Begins with "/", "./" or "../". */
  predicate Escapes(s: seq<byte>) { [47] <= s || [46, 47] <= s || [46, 46, 47] <= s }

  /** A stripped name stays below the current directory, and a name that does so already is left alone. */
  lemma StripHarmless(s: Name)
    ensures !Escapes(Strip(s)) && Strip(s) != [46, 46]
    ensures Strip(s) == s <==> !Escapes(s) && s != [] && s != [46, 46]
  {
    var r := Strip(s);
    EscapesIs(r);
    EscapesIs(s);
    StripIdempotent(s);
  }

  lemma EscapesIs(s: seq<byte>)
    ensures Escapes(s) <==> Antisocial(s) != 0
  {
  }

  /** Position of the first '/', as strchr finds it. */
  method FindSlash(s: seq<byte>) returns (i: nat)
    requires exists k :: 0 <= k < |s| && s[k] == SLASH
    ensures i < |s| && s[i] == SLASH && forall k :: 0 <= k < i ==> s[k] != SLASH
  {
    i := 0;
    while s[i] != SLASH
      invariant i < |s| && forall k :: 0 <= k < i ==> s[k] != SLASH
      decreases |s| - i
    {
      assert exists k :: i < k < |s| && s[k] == SLASH;
      i := i + 1;
    }
  }

  /** strip_antisocial_prefixes. */
  method StripPrefixes(name: Name) returns (r: Name)
    ensures r == Strip(name)
  {
    r := name;
    while Antisocial(r) != 0
      invariant Suffix(r) == Suffix(name)
      decreases |r|
    {
      var i := FindSlash(r);
      assert i + 1 == Antisocial(r);
      r := r[i + 1..];
    }
    if r == [] || r == [DOT, DOT] { r := [DOT]; }
  }

  // ---------------------------------------------------------------- checksum

  predicate InChecksum(i: int) { 148 <= i < 156 }

  /** The sum of the first `n` bytes, with the checksum field read as spaces. */
  function SumTo(h: seq<byte>, n: nat): (r: nat)
    requires n <= |h|
    ensures r <= 255 * n
  {
    if n == 0 then 0 else SumTo(h, n - 1) + (if InChecksum(n - 1) then SPACE as nat else h[n - 1] as nat)
  }

  lemma {:induction false} SumIgnoresField(g: seq<byte>, h: seq<byte>, n: nat)
    requires n <= |g| == |h| && forall i :: 0 <= i < |g| && !InChecksum(i) ==> g[i] == h[i]
    ensures SumTo(g, n) == SumTo(h, n)
  {
    if n > 0 { SumIgnoresField(g, h, n - 1); }
  }

  /** calculate_chksum. */
  method Checksum(h: seq<byte>) returns (sum: nat)
    requires |h| == HEADER_SIZE
    ensures sum == SumTo(h, HEADER_SIZE)
  {
    sum := 0;
    for i := 0 to HEADER_SIZE
      invariant sum == SumTo(h, i)
    {
      sum := sum + (if InChecksum(i) then SPACE as nat else h[i] as nat);
    }
  }

  // ---------------------------------------------------------------- layout

  const ROOT: seq<byte> := [114, 111, 111, 116]
  const MAGIC: seq<byte> := [117, 115, 116, 97, 114, 0]

  function SizeWord(size: int): nat { size % 0x1_0000_0000 }

  datatype Kind = File | Dir

  function Flag(kind: Kind): byte { if kind == File then REGULAR else DIRECTORY }

  function Mode(kind: Kind): nat { if kind == File then 420 else 493 }

  const MTIME: nat := 1136102400

  /** Byte `i` of a field of `|b|` bytes at `ofs`, zero elsewhere. */
  function At(b: seq<byte>, ofs: nat, i: nat): byte { if ofs <= i < ofs + |b| then b[i - ofs] else 0 }

  /** Byte `i` of a header, with an empty checksum field. */
  function FieldByte(name: Name, kind: Kind, size: int, i: nat): byte {
    if i < 100 then At(name, 0, i)
    else if i < 108 then At(Digits(Mode(kind), 7), 100, i)
    else if i < 116 then At(ZeroDigits(7), 108, i)
    else if i < 124 then At(ZeroDigits(7), 116, i)
    else if i < 136 then At(Digits(SizeWord(size), 11), 124, i)
    else if i < 148 then At(Digits(MTIME, 11), 136, i)
    else if i < 156 then 0
    else if i == 156 then Flag(kind)
    else if i < 257 then 0
    else if i < 263 then At(MAGIC, 257, i)
    else if i < 265 then ZERO
    else if i < 297 then At(ROOT, 265, i)
    else if i < 329 then At(ROOT, 297, i)
    else 0
  }

  function Template(name: Name, kind: Kind, size: int): (h: seq<byte>)
    ensures |h| == HEADER_SIZE && forall i :: 0 <= i < HEADER_SIZE ==> h[i] == FieldByte(name, kind, size, i)
  {
    seq(HEADER_SIZE, i requires 0 <= i < HEADER_SIZE => FieldByte(name, kind, size, i))
  }

  function ChecksumField(h: seq<byte>): (f: seq<byte>)
    requires |h| == HEADER_SIZE
    ensures |f| == 8
  {
    Digits(SumTo(h, HEADER_SIZE), 7) + [0]
  }

  /** A complete header. */
  function Composed(name: Name, kind: Kind, size: int): (h: seq<byte>)
    ensures |h| == HEADER_SIZE
  {
    var t := Template(name, kind, size);
    Splice(t, 148, ChecksumField(t))
  }

  // ---------------------------------------------------------------- composing

  method Put(header: array<byte>, ofs: nat, b: seq<byte>)
    requires ofs + |b| <= header.Length
    modifies header
    ensures header[..] == Splice(old(header[..]), ofs, b)
  {
    for i := 0 to |b|
      invariant forall j :: 0 <= j < header.Length ==> header[j] == if ofs <= j < ofs + i then b[j - ofs] else old(header[j])
    {
      header[ofs + i] := b[i];
    }
  }

  method Clear(header: array<byte>)
    modifies header
    ensures forall i :: 0 <= i < header.Length ==> header[i] == 0
  {
    for i := 0 to header.Length
      invariant forall j :: 0 <= j < i ==> header[j] == 0
    {
      header[i] := 0;
    }
  }

  /** Everything up to the size field. */
  method FillFirst(header: array<byte>, name: Name, kind: Kind)
    requires header.Length == HEADER_SIZE && |name| <= 99
    modifies header
    ensures forall i :: 0 <= i < HEADER_SIZE ==> header[i] == if i < 124 then FieldByte(name, kind, 0, i) else 0
  {
    Clear(header);
    Put(header, 0, name);
    Pow8s();
    var mode := FormatOctal(Mode(kind), 7);
    Put(header, 100, mode);
    Put(header, 108, ZeroDigits(7));
    Put(header, 116, ZeroDigits(7));
    ghost var h := header[..];
    forall i | 0 <= i < HEADER_SIZE ensures header[i] == if i < 124 then FieldByte(name, kind, 0, i) else 0 {
      assert header[i] == h[i];
    }
  }

  lemma Pow8s()
    ensures Pow8(7) == 2097152 && Pow8(11) == 8589934592
  {
  }

  /** The size and time fields. */
  method FillNumbers(header: array<byte>, size: int)
    requires header.Length == HEADER_SIZE && forall i :: 124 <= i < HEADER_SIZE ==> header[i] == 0
    modifies header
    ensures forall i :: 0 <= i < 124 ==> header[i] == old(header[i])
    ensures forall i :: 124 <= i < HEADER_SIZE ==> header[i] == if i < 148 then FieldByte([], File, size, i) else 0
  {
    Pow8s();
    var digits := FormatOctal(SizeWord(size), 11);
    Put(header, 124, digits);
    ghost var h1 := header[..];
    digits := FormatOctal(MTIME, 11);
    Put(header, 136, digits);
    ghost var h2 := header[..];
    forall i | 0 <= i < HEADER_SIZE ensures header[i] == h2[i] && (i < 136 ==> h2[i] == h1[i]) {}
  }

  /** Type, magic, version and owners. */
  method FillRest(header: array<byte>, kind: Kind)
    requires header.Length == HEADER_SIZE && forall i :: 148 <= i < HEADER_SIZE ==> header[i] == 0
    modifies header
    ensures forall i :: 0 <= i < 148 ==> header[i] == old(header[i])
    ensures forall i :: 148 <= i < HEADER_SIZE ==> header[i] == FieldByte([], kind, 0, i)
  {
    header[156] := Flag(kind);
    Put(header, 257, MAGIC);
    header[263], header[264] := ZERO, ZERO;
    Put(header, 297, ROOT);
    Put(header, 265, ROOT);
    ghost var h := header[..];
    forall i | 0 <= i < HEADER_SIZE ensures header[i] == h[i] {}
  }

  /** ustar_make_header: the header, or a refusal of a name over 99 bytes. */
  method MakeHeader(name: Name, kind: Kind, size: int, header: array<byte>) returns (ok: bool)
    requires header.Length == HEADER_SIZE
    modifies header
    ensures ok == (|Strip(name)| <= 99)
    ensures ok ==> header[..] == Composed(Strip(name), kind, size)
    ensures !ok ==> header[..] == old(header[..])
  {
    var stripped := StripPrefixes(name);
    if |stripped| > 99 { return false; }
    FillFirst(header, stripped, kind);
    FillNumbers(header, size);
    FillRest(header, kind);
    var t := header[..];
    assert t == Template(stripped, kind, size);
    var sum := Checksum(t);
    Pow8s();
    var digits := FormatOctal(sum, 7);
    Put(header, 148, digits + [0]);
    return true;
  }

  // ---------------------------------------------------------------- parsing

  datatype Parsed =
    | EndOfArchive
    | NotUstar | BadVersion | BadChecksumField | ChecksumMismatch | NameTooLong | BadType | BadSize | TooLarge
    | Entry(name: Name, kind: Kind, size: nat)

  predicate AllZero(h: seq<byte>) { forall i :: 0 <= i < |h| ==> h[i] == 0 }

  /** The string at the front of a field. */
  function CString(s: seq<byte>): (r: Name)
    ensures |r| <= |s| && r == s[..|r|] && (|r| < |s| ==> s[|r|] == 0)
  {
    if s == [] || s[0] == 0 then [] else [s[0]] + CString(s[1..])
  }

  /** ustar_parse_header. */
  function Parse(h: seq<byte>): Parsed
    requires |h| == HEADER_SIZE
  {
    if AllZero(h) then EndOfArchive
    else if h[257..263] != MAGIC then NotUstar
    else if h[263] != 48 || h[264] != 48 then BadVersion
    else if ParseField(h[148..156]).None? then BadChecksumField
    else if ParseField(h[148..156]).value != SumTo(h, HEADER_SIZE) then ChecksumMismatch
    else if h[99] != 0 || h[345] != 0 then NameTooLong
    else if h[156] != REGULAR && h[156] != DIRECTORY then BadType
    else if h[156] == DIRECTORY then Entry(Strip(CString(h[..100])), Dir, 0)
    else if ParseField(h[124..136]).None? then BadSize
    else if ParseField(h[124..136]).value > INT_MAX then TooLarge
    else Entry(Strip(CString(h[..100])), File, ParseField(h[124..136]).value)
  }

  method IsAllZeros(h: seq<byte>) returns (b: bool)
    ensures b == AllZero(h)
  {
    for i := 0 to |h|
      invariant forall j :: 0 <= j < i ==> h[j] == 0
    {
      if h[i] != 0 { return false; }
    }
    return true;
  }

  method ReadString(s: seq<byte>) returns (r: Name)
    ensures r == CString(s)
  {
    r := [];
    while |r| < |s| && s[|r|] != 0
      invariant |r| <= |s| && r == s[..|r|]
    {
      r := r + [s[|r|]];
    }
    CStringOf(r, s);
  }

  method ParseHeader(h: seq<byte>) returns (p: Parsed)
    requires |h| == HEADER_SIZE
    ensures p == Parse(h) && (p.Entry? ==> Says(h, p.name, p.kind, p.size))
  {
    p := RunTests(h);
    if p.Entry? { EntryIsSaid(h); }
  }

  method RunTests(h: seq<byte>) returns (p: Parsed)
    requires |h| == HEADER_SIZE
    ensures p == Parse(h)
  {
    var zero := IsAllZeros(h);
    if zero { return EndOfArchive; }
    if h[257..263] != MAGIC { return NotUstar; }
    if h[263] != 48 || h[264] != 48 { return BadVersion; }
    var ok, chksum := ParseOctalField(h[148..156]);
    if !ok { return BadChecksumField; }
    var sum := Checksum(h);
    if chksum != sum { return ChecksumMismatch; }
    if h[99] != 0 || h[345] != 0 { return NameTooLong; }
    if h[156] != REGULAR && h[156] != DIRECTORY { return BadType; }
    var size := 0;
    if h[156] == REGULAR {
      ok, size := ParseOctalField(h[124..136]);
      if !ok { return BadSize; }
      if size > INT_MAX { return TooLarge; }
    }
    var name := ReadString(h[..100]);
    name := StripPrefixes(name);
    return Entry(name, if h[156] == REGULAR then File else Dir, size);
  }

  // ---------------------------------------------------------------- what is accepted

  predicate NameAt(h: seq<byte>, k: nat, name: Name) {
    k + |name| < 100 <= |h| && name == h[k..k + |name|] && h[k + |name|] == 0
  }

  /** A piece of the name field, up to its null byte. */
  ghost predicate NameIn(h: seq<byte>, name: Name) { exists k: nat :: NameAt(h, k, name) }

  /** The header says `name`, `kind` and `size`, and carries the right checksum. */
  ghost predicate Says(h: seq<byte>, name: Name, kind: Kind, size: nat)
    requires |h| == HEADER_SIZE
  {
    && (exists n :: Field(h[148..156], n, SumTo(h, HEADER_SIZE)))
    && name != [] && Antisocial(name) == 0 && name != [DOT, DOT] && (name == [DOT] || NameIn(h, name))
    && h[156] == Flag(kind)
    && size <= INT_MAX && (if kind == Dir then size == 0 else exists n :: Field(h[124..136], n, size))
  }

  lemma {:induction false} SuffixIsLast(s: Name) returns (k: nat)
    ensures k <= |s| && Suffix(s) == s[k..]
    decreases |s|
  {
    k := 0;
    var a := Antisocial(s);
    if a != 0 {
      k := SuffixIsLast(s[a..]);
      k := k + a;
    }
  }

  lemma PieceOf(h: seq<byte>, m: nat, n: nat, k: nat)
    requires k <= n <= m <= |h|
    ensures h[..m][..n][k..] == h[k..n]
  {
  }

  lemma StrippedName(h: seq<byte>)
    requires |h| == HEADER_SIZE && h[99] == 0
    ensures var name := Strip(CString(h[..100])); name == [DOT] || NameIn(h, name)
  {
    var s := CString(h[..100]);
    assert |s| < 100;
    var k := SuffixIsLast(s);
    PieceOf(h, 100, |s|, k);
    assert NameAt(h, k, Suffix(s));
  }

  /** Every entry the parser returns has a right checksum, a harmless name from the name field, and the type and
      size of the header. */
  lemma EntryIsSaid(h: seq<byte>)
    requires |h| == HEADER_SIZE && Parse(h).Entry?
    ensures Says(h, Parse(h).name, Parse(h).kind, Parse(h).size)
  {
    StrippedName(h);
    StripIdempotent(CString(h[..100]));
    ParseExact(h[148..156], SumTo(h, HEADER_SIZE));
    ParseExact(h[124..136], Parse(h).size);
  }

  ghost predicate FitsInt(s: seq<byte>) { exists n: nat, v: nat :: Field(s, n, v) && v <= INT_MAX }

  /** The bytes of an entry: the magic word and version "00", a right checksum, a name that ends within its field and no
      prefix, a type that is known, and for a file a size that fits an int. */
  ghost predicate Acceptable(h: seq<byte>)
    requires |h| == HEADER_SIZE
  {
    && h[257..265] == [117, 115, 116, 97, 114, 0, 48, 48]
    && (exists n: nat :: Field(h[148..156], n, SumTo(h, HEADER_SIZE)))
    && h[99] == 0 && h[345] == 0
    && (h[156] == 53 || (h[156] == 48 && FitsInt(h[124..136])))
  }

  lemma FitsExact(s: seq<byte>)
    ensures FitsInt(s) <==> ParseField(s).Some? && ParseField(s).value <= INT_MAX
  {
    var p := ParseField(s);
    if p.Some? { ParseExact(s, p.value); }
    if n: nat, v: nat :| Field(s, n, v) && v <= INT_MAX { ParseExact(s, v); }
  }

  lemma MagicExact(h: seq<byte>)
    requires |h| == HEADER_SIZE
    ensures h[257..265] == [117, 115, 116, 97, 114, 0, 48, 48] <==> h[257..263] == MAGIC && h[263] == 48 && h[264] == 48
    ensures h[257..263] == MAGIC ==> !AllZero(h)
  {
    var w := h[257..265];
    assert w == h[257..263] + [h[263], h[264]];
    assert w[..6] == h[257..263] && w[6] == h[263] && w[7] == h[264];
    assert [117, 115, 116, 97, 114, 0, 48, 48] == MAGIC + [48, 48];
    assert h[257] == h[257..263][0];
    if w == MAGIC + [48, 48] { assert w[..6] == MAGIC; }
  }

  /** Exactly these headers are accepted. */
  lemma AcceptExact(h: seq<byte>)
    requires |h| == HEADER_SIZE
    ensures Parse(h).Entry? <==> Acceptable(h)
  {
    MagicExact(h);
    ParseExact(h[148..156], SumTo(h, HEADER_SIZE));
    FitsExact(h[124..136]);
  }

  lemma {:induction false} SumChanges(h: seq<byte>, i: nat, x: byte, n: nat)
    requires i < |h| && n <= |h| && !InChecksum(i)
    ensures SumTo(h[i := x], n) == SumTo(h, n) + if i < n then x as int - h[i] as int else 0
  {
    if n > 0 { SumChanges(h, i, x, n - 1); }
  }

  /** Damage to any one byte outside the checksum field is noticed. */
  lemma DamageNoticed(h: seq<byte>, i: nat, x: byte)
    requires |h| == HEADER_SIZE && Parse(h).Entry? && i < HEADER_SIZE && !InChecksum(i) && x != h[i]
    ensures !Parse(h[i := x]).Entry? && Parse(h[i := x]) != EndOfArchive
  {
    var g := h[i := x];
    SumChanges(h, i, x, HEADER_SIZE);
    assert g[148..156] == h[148..156];
    assert h[257] == h[257..263][0] && h[258] == h[257..263][1];
    assert g[257] != 0 || g[258] != 0;
  }

  // ---------------------------------------------------------------- round trip

  lemma ComposedFields(name: Name, kind: Kind, size: int)
    requires |name| <= 99
    ensures var h := Composed(name, kind, size);
      && h[257..263] == MAGIC && h[263] == 48 && h[264] == 48 && h[99] == 0 && h[345] == 0 && h[156] == Flag(kind)
      && h[124..136] == Digits(SizeWord(size), 11) + [0] && h[148..156] == Digits(SumTo(h, HEADER_SIZE), 7) + [0]
  {
    var t, h := Template(name, kind, size), Composed(name, kind, size);
    SumIgnoresField(t, h, HEADER_SIZE);
    forall i | 0 <= i < HEADER_SIZE && !InChecksum(i) ensures h[i] == FieldByte(name, kind, size, i) {}
    assert h[156] == FieldByte(name, kind, size, 156);
  }

  lemma {:induction false} CStringOf(name: Name, s: seq<byte>)
    requires |name| <= |s| && s[..|name|] == name && (|name| < |s| ==> s[|name|] == 0)
    ensures CString(s) == name
  {
  }

  lemma ComposedName(name: Name, kind: Kind, size: int)
    requires |name| <= 99
    ensures CString(Composed(name, kind, size)[..100]) == name
  {
    var h := Composed(name, kind, size);
    forall i | 0 <= i < 100 ensures h[i] == At(name, 0, i) { assert h[i] == FieldByte(name, kind, size, i); }
    CStringOf(name, h[..100]);
  }

  lemma ComposedByte(name: Name, kind: Kind, size: int, i: nat)
    requires i < HEADER_SIZE && !InChecksum(i)
    ensures Composed(name, kind, size)[i] == FieldByte(name, kind, size, i)
  {
  }

  lemma ComposedNumbers(name: Name, kind: Kind, size: int)
    ensures var h := Composed(name, kind, size);
      h[100..108] == Digits(Mode(kind), 7) + [0] && h[108..116] == ZeroDigits(7) + [0] && h[116..124] == ZeroDigits(7) + [0]
      && h[136..148] == Digits(MTIME, 11) + [0]
  {
    var h := Composed(name, kind, size);
    forall i | 100 <= i < 148 ensures h[i] == FieldByte(name, kind, size, i) { ComposedByte(name, kind, size, i); }
  }

  lemma ComposedNames(name: Name, kind: Kind, size: int)
    ensures var h := Composed(name, kind, size); h[265..270] == [114, 111, 111, 116, 0] && h[297..302] == [114, 111, 111, 116, 0]
  {
    var h := Composed(name, kind, size);
    forall i | 265 <= i < 329 ensures h[i] == FieldByte(name, kind, size, i) { ComposedByte(name, kind, size, i); }
  }

  /** The other fields, as a reader of the archive finds them: permissions 0644 or 0755, user and group 0, the fixed time
      and owner "root". */
  lemma ComposedOwner(name: Name, kind: Kind, size: int)
    ensures var h := Composed(name, kind, size);
      && ParseField(h[100..108]) == Some(if kind == File then 6 * 64 + 4 * 8 + 4 else 7 * 64 + 5 * 8 + 5)
      && ParseField(h[108..116]) == Some(0) && ParseField(h[116..124]) == Some(0) && ParseField(h[136..148]) == Some(1136102400)
      && h[265..270] == [114, 111, 111, 116, 0] && h[297..302] == [114, 111, 111, 116, 0]
  {
    Pow8s();
    DigitsOfZero(7);
    Octal.RoundTrip(Mode(kind), 7);
    Octal.RoundTrip(0, 7);
    Octal.RoundTrip(MTIME, 11);
    ComposedNumbers(name, kind, size);
    ComposedNames(name, kind, size);
  }

  /** What a header that passes every test parses to. */
  lemma ParseAccepts(h: seq<byte>, name: Name, kind: Kind, v: nat)
    requires |h| == HEADER_SIZE && !AllZero(h) && h[257..263] == MAGIC && h[263] == 48 && h[264] == 48 && h[99] == 0 && h[345] == 0
    requires ParseField(h[148..156]) == Some(SumTo(h, HEADER_SIZE)) && h[156] == Flag(kind)
    requires ParseField(h[124..136]) == Some(v) && Strip(CString(h[..100])) == name
    ensures Parse(h) == if kind == Dir then Entry(name, Dir, 0) else if v <= INT_MAX then Entry(name, File, v) else TooLarge
  {
  }

  lemma NumbersParse(v: nat, sum: nat)
    requires v < 0x1_0000_0000 && sum <= 255 * HEADER_SIZE
    ensures ParseField(Digits(v, 11) + [0]) == Some(v) && ParseField(Digits(sum, 7) + [0]) == Some(sum)
  {
    Pow8s();
    Octal.RoundTrip(v, 11);
    Octal.RoundTrip(sum, 7);
  }

  /** A composed header passes every test. */
  lemma ComposedParses(name: Name, kind: Kind, size: int)
    requires |name| <= 99 && Strip(name) == name
    ensures Parse(Composed(name, kind, size)) ==
      if kind == Dir then Entry(name, Dir, 0) else if SizeWord(size) <= INT_MAX then Entry(name, File, SizeWord(size)) else TooLarge
  {
    var h := Composed(name, kind, size);
    ComposedFields(name, kind, size);
    ComposedName(name, kind, size);
    NumbersParse(SizeWord(size), SumTo(h, HEADER_SIZE));
    assert h[257] == h[257..263][0];
    ParseAccepts(h, name, kind, SizeWord(size));
  }

  /** For every name that is short enough once stripped, parsing a composed header gives back the stripped name,
      the type and the size, which is zero for a directory; a negative size of a regular file, and only that, is
      rejected. */
  lemma HeaderRoundTrip(name: Name, kind: Kind, size: int)
    requires |Strip(name)| <= 99 && -INT_MAX - 1 <= size <= INT_MAX
    ensures Parse(Composed(Strip(name), kind, size)) ==
      if kind == Dir then Entry(Strip(name), Dir, 0) else if size >= 0 then Entry(Strip(name), File, size) else TooLarge
  {
    StripIdempotent(name);
    SizeWordIs(size);
    ComposedParses(Strip(name), kind, size);
  }

  lemma SizeWordIs(size: int)
    requires -INT_MAX - 1 <= size <= INT_MAX
    ensures SizeWord(size) == if size >= 0 then size else size + 0x1_0000_0000
  {
  }

  /** What the parser accepts, it would write: composing an accepted entry again gives a header for the same entry. */
  lemma EntryComposes(h: seq<byte>)
    requires |h| == HEADER_SIZE && Parse(h).Entry?
    ensures var e := Parse(h); |e.name| <= 99 && Parse(Composed(e.name, e.kind, e.size)) == e
  {
    var e := Parse(h);
    EntryIsSaid(h);
    StripIdempotent(CString(h[..100]));
    HeaderRoundTrip(e.name, e.kind, e.size);
  }
}
