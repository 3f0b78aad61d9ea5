/** 64-bit division built from a 64-by-32-bit divide instruction. */
module Division {

  const B: nat := 0x1_0000_0000
  const W: nat := 0x1_0000_0000_0000_0000

  predicate U32(x: int) { 0 <= x < B }
  predicate U64(x: int) { 0 <= x < W }
  predicate I64(x: int) { -(W / 2) <= x < W / 2 }

  function ToU64(x: int): (r: int)
    ensures U64(r) && (U64(x) ==> r == x)
  {
    x % W
  }

  /** Two's complement reading of the low 64 (32) bits. */
  function ToI64(x: int): (r: int)
    ensures I64(r) && (I64(x) ==> r == x)
  {
    var u := x % W;
    if u < W / 2 then u else u - W
  }

  function ToI32(x: int): int {
    var u := x % B;
    if u < B / 2 then u else u - B
  }

  function Pow2(n: nat): (r: nat)
    ensures r >= 1
  {
    if n == 0 then 1 else 2 * Pow2(n - 1)
  }

  lemma {:induction false} Pow2Add(a: nat, b: nat)
    ensures Pow2(a + b) == Pow2(a) * Pow2(b)
    decreases a
  {
    if a > 0 { Pow2Add(a - 1, b); }
  }

  /** `x` shifted left by `n`, as repeated doubling. */
  function Shl(x: nat, n: nat): nat { if n == 0 then x else 2 * Shl(x, n - 1) }

  lemma {:induction false} ShlAdd(x: nat, a: nat, b: nat)
    ensures Shl(x, a + b) == Shl(Shl(x, a), b)
    decreases b
  {
    if b > 0 { ShlAdd(x, a, b - 1); }
  }

  lemma {:induction false} ShlMul(x: nat, n: nat)
    ensures Shl(x, n) == x * Pow2(n)
    decreases n
  {
    if n > 0 { ShlMul(x, n - 1); }
  }

  lemma Shl2(x: nat)
    ensures Shl(x, 2) == 4 * x
  {
    assert Shl(x, 1) == 2 * x;
  }

  lemma Shl4(x: nat)
    ensures Shl(x, 4) == 16 * x
  {
    assert Shl(x, 1) == 2 * x;
    assert Shl(x, 3) == 8 * x;
  }

  lemma Shl8(x: nat)
    ensures Shl(x, 8) == 256 * x
  {
    ShlAdd(x, 4, 4);
    Shl4(x);
    Shl4(16 * x);
  }

  lemma Shl16(x: nat)
    ensures Shl(x, 16) == 65536 * x
  {
    ShlAdd(x, 8, 8);
    Shl8(x);
    Shl8(256 * x);
  }

  /** The quotient, defined by repeated subtraction. */
  function Quot(n: nat, d: nat): nat
    requires d > 0
  {
    if n < d then 0 else 1 + Quot(n - d, d)
  }

  function Rem(n: nat, d: nat): nat
    requires d > 0
  {
    if n < d then n else Rem(n - d, d)
  }

  predicate IsQuot(n: nat, d: nat, q: nat) { q * d <= n < (q + 1) * d }

  lemma {:induction false} QuotBounds(n: nat, d: nat)
    requires d > 0
    ensures IsQuot(n, d, Quot(n, d)) && n == Quot(n, d) * d + Rem(n, d) && Rem(n, d) < d
    decreases n
  {
    if n >= d { QuotBounds(n - d, d); }
  }

  lemma QuotIs(n: nat, d: nat, q: nat)
    requires d > 0 && IsQuot(n, d, q)
    ensures Quot(n, d) == q
  {
    QuotBounds(n, d);
    Cancel(q, Quot(n, d) + 1, d);
    Cancel(Quot(n, d), q + 1, d);
  }

  lemma {:induction false} QuotOf(q: nat, d: nat, r: nat)
    requires r < d
    ensures Quot(q * d + r, d) == q && Rem(q * d + r, d) == r
    decreases q
  {
    if q > 0 {
      QuotOf(q - 1, d, r);
      assert q * d + r - d == (q - 1) * d + r;
    }
  }

  /** It is the floor of the exact quotient. */
  lemma QuotIsFloor(n: nat, d: nat)
    requires d > 0
    ensures Quot(n, d) == n / d && Rem(n, d) == n % d
  {
    QuotBounds(n, d);
    QuotIs(n, d, n / d);
  }

  /** The divl instruction; it traps unless the quotient fits in 32 bits. */
  function DivL(n: nat, d: nat): nat
    requires U64(n) && U32(d) && d > 0 && U32(Quot(n, d))
  {
    Quot(n, d)
  }

  /** One test of nlz: if `x` is at most `limit`, replace it by `y`, which is `x` shifted by `k`. */
  method ShiftIfBelow(ghost x0: nat, n: nat, x: nat, k: nat, y: nat, limit: nat) returns (n': nat, x': nat)
    requires x == Shl(x0, n) && Shl(x, k) == y && (x <= limit ==> y < B)
    ensures x' == Shl(x0, n') && (if x <= limit then n' == n + k && x' == y else n' == n && x' == x)
  {
    n', x' := n, x;
    if x <= limit {
      ShlAdd(x0, n, k);
      n', x' := n + k, y % B;
    }
  }

  /** nlz: the number of leading zero bits of a 32-bit word. */
  method Nlz(x0: nat) returns (n: nat)
    requires U32(x0) && x0 > 0
    ensures n <= 31 && B / 2 <= x0 * Pow2(n) < B
  {
    var x := x0;
    n := 0;
    Shl16(x);
    n, x := ShiftIfBelow(x0, n, x, 16, 65536 * x, 0x0000_FFFF);
    Shl8(x);
    n, x := ShiftIfBelow(x0, n, x, 8, 256 * x, 0x00FF_FFFF);
    Shl4(x);
    n, x := ShiftIfBelow(x0, n, x, 4, 16 * x, 0x0FFF_FFFF);
    Shl2(x);
    n, x := ShiftIfBelow(x0, n, x, 2, 4 * x, 0x3FFF_FFFF);
    if x <= 0x7FFF_FFFF { n := n + 1; }
    ShlMul(x0, n);
  }

  // ---------------------------------------------------------------- small nonlinear steps

  lemma MulLe(a: int, b: int, c: int)
    requires a <= b && c >= 0
    ensures a * c <= b * c
  {
  }

  /** Cancelling a positive factor. */
  lemma Cancel(a: int, b: int, c: int)
    requires c > 0 && a * c < b * c
    ensures a < b
  {
  }

  lemma Assoc(a: int, b: int, c: int)
    ensures a * b * c == a * (b * c) && a * b * c == a * c * b
  {
  }

  /** Dividing by `v` and then by `k` is dividing by `v` * `k`, stated by multiplication. */
  lemma NestedQuotient(u: nat, v: nat, k: nat, a: nat, q: nat)
    requires v > 0 && k > 0 && a * v <= u < (a + 1) * v && q * k <= a < (q + 1) * k
    ensures q * (v * k) <= u < (q + 1) * (v * k)
  {
    MulLe(q * k, a, v);
    Assoc(q, k, v);
    Assoc(q, v, k);
    MulLe(a + 1, (q + 1) * k, v);
    Assoc(q + 1, k, v);
    Assoc(q + 1, v, k);
  }

  /** The divisor `v` = `d` * `m` / `B` taken back up by `k` is about half of `d`. */
  lemma HalfBelow(d: nat, m: nat, k: nat, v: nat)
    requires k > 0 && m * k == B / 2 && v * B <= d * m
    ensures 2 * (v * k) <= d
  {
  }

  lemma HalfAbove(d: nat, m: nat, k: nat, v: nat)
    requires k > 0 && m * k == B / 2 && d * m < (v + 1) * B
    ensures d < 2 * (v * k) + 2 * k
  {
  }

  lemma MulLess(a: int, b: int, c: int)
    requires a < b && c > 0
    ensures a * c < b * c
  {
  }

  lemma EnoughSlack(n: nat, d: nat, k: nat, q: nat)
    requires n < W && k > 0 && d >= k * B && q * d <= n && (k > 1 || d > B)
    ensures (q + 2) * (2 * k - 1) <= d
  {
  }

  /** The estimate `q` = n / 2 / `p` is at least the quotient `t`. */
  lemma NotBelow(n: nat, d: nat, p: nat, t: nat, q: nat)
    requires p > 0 && 2 * p <= d && t * d <= n && n / 2 < (q + 1) * p
    ensures t <= q
  {
    MulLe(2 * p, d, t);
    assert t * (2 * p) == 2 * (t * p);
    Cancel(t, q + 1, p);
  }

  lemma NotFarAbove(n: nat, d: nat, c: nat, p: nat, t: nat, q: nat)
    requires p > 0 && d <= 2 * p + c && (t + 2) * c <= d && n < (t + 1) * d && q * p <= n / 2
    ensures q <= t + 1
  {
    MulLe(d - c, 2 * p, t + 2);
    assert (t + 2) * (d - c) == (t + 1) * d + d - (t + 2) * c;
    assert (t + 2) * (2 * p) == 2 * ((t + 2) * p);
    Cancel(q, t + 2, p);
  }

  /** The estimate is the true quotient or one more. */
  lemma Estimate(n: nat, d: nat, k: nat, p: nat, t: nat, q: nat)
    requires n < W && k > 0 && d >= k * B && p > 0
    requires 2 * p <= d < 2 * p + 2 * k && (k == 1 && d == B ==> 2 * p == d)
    requires t * d <= n < (t + 1) * d && q * p <= n / 2 < (q + 1) * p
    ensures q == t || q == t + 1
  {
    NotBelow(n, d, p, t, q);
    if k == 1 && d == B {
      NotFarAbove(n, d, 0, p, t, q);
    } else {
      EnoughSlack(n, d, k, t);
      NotFarAbove(n, d, 2 * k - 1, p, t, q);
    }
  }

  // ---------------------------------------------------------------- the routines

  lemma Scaled(d1: nat, m: nat, k: nat)
    requires m > 0 && m * k == B / 2 && B / 2 <= d1 * m < B
    ensures k <= d1 < 2 * k
  {
  }

  /** What the leading-zero count says about the high half of the divisor. */
  lemma HighHalf(d1: nat, s: nat)
    requires s <= 31 && B / 2 <= d1 * Pow2(s) < B
    ensures Pow2(s) * Pow2(31 - s) == B / 2 && Pow2(31 - s) <= d1 < 2 * Pow2(31 - s)
  {
    Pow2Add(s, 31 - s);
    Pow31();
    Scaled(d1, Pow2(s), Pow2(31 - s));
  }

  lemma Pow31()
    ensures Pow2(31) == B / 2
  {
    ShlMul(1, 16);
    Shl16(1);
    Pow2Add(15, 16);
    assert Pow2(16) == 2 * Pow2(15);
  }

  /** Shifting the divisor up loses nothing, and the top half of the result is a 32-bit word above 2^31. */
  lemma ShiftedDivisor(d: nat, m: nat, k: nat)
    requires U64(d) && m > 0 && k > 0 && m * k == B / 2 && k <= d / B < 2 * k
    ensures d * m < W && B / 2 <= d * m / B < B && k * B <= d
  {
    var d1 := d / B;
    MulLe(d1 + 1, 2 * k, B);
    MulLess(d, 2 * k * B, m);
    Assoc(2 * k, B, m);
    Assoc(2 * k, m, B);
    assert 2 * k * m == B;
    assert d * m < W;
    MulLe(k, d1, B);
    MulLe(k * B, d, m);
    Assoc(k, B, m);
    Assoc(k, m, B);
  }

  /** The quotient by a 32-bit divisor, from two divides; `a` = n1 / d, `r` = n1 % d and `y` is the second quotient. */
  lemma SmallQuotient(n1: nat, n0: nat, d: nat, a: nat, r: nat, y: nat)
    requires n0 < B && 0 < d && n1 == a * d + r && r < d && y * d <= B * r + n0 < (y + 1) * d
    ensures y < B && (y + B * a) * d <= B * n1 + n0 < (y + B * a + 1) * d
  {
  }

  method SmallUdiv(n: nat, d: nat) returns (q: nat)
    requires U64(n) && 0 < d < B
    ensures q == Quot(n, d)
  {
    var n1, n0 := n / B, n % B;
    var r, a := Rem(n1, d), Quot(n1, d);
    QuotBounds(n1, d);
    var x := B * r + n0;
    QuotBounds(x, d);
    SmallQuotient(n1, n0, d, a, r, Quot(x, d));
    q := DivL(x, d) + B * a;
    QuotIs(n, d, q);
  }

  /** No trap, and the correction of the estimate `e` gives the quotient `t` without wrap-around. */
  lemma LargeQuotient(n: nat, d: nat, m: nat, k: nat, v: nat, a: nat, e: nat, t: nat)
    requires U64(n) && B <= d <= n && m > 0 && k > 0 && m * k == B / 2 && k * B <= d
    requires v * B <= d * m < (v + 1) * B && v > 0
    requires IsQuot(n / 2, v, a) && IsQuot(a, k, e) && IsQuot(n, d, t)
    ensures e >= 1 && 0 <= (e - 1) * d <= n
    ensures t == if n - (e - 1) * d < d then e - 1 else e
  {
    HalfBelow(d, m, k, v);
    HalfAbove(d, m, k, v);
    NestedQuotient(n / 2, v, k, a, e);
    if k == 1 && d == B { ExactHalf(m, v); }
    Estimate(n, d, k, v * k, t, e);
    Correct(n, d, t, e);
  }

  lemma ExactHalf(m: nat, v: nat)
    requires m == B / 2 && v * B <= B * m < (v + 1) * B
    ensures 2 * v == B
  {
  }

  lemma Correct(n: nat, d: nat, t: nat, e: nat)
    requires 0 < d <= n && t * d <= n < (t + 1) * d && (e == t || e == t + 1)
    ensures t >= 1 && 0 <= (e - 1) * d <= n && (n - (e - 1) * d < d <==> e == t + 1)
  {
  }

  lemma NoTrap(u: nat, v: nat, a: nat)
    requires u < W / 2 && v >= B / 2 && a * v <= u
    ensures a < B
  {
  }

  /** The shift count and the 32-bit divisor that approximate `d`. */
  method Normalize(d: nat) returns (s: nat, v: nat)
    requires U64(d) && B <= d
    ensures s <= 31 && Pow2(s) * Pow2(31 - s) == B / 2 && Pow2(31 - s) * B <= d
    ensures B / 2 <= v < B && v * B <= d * Pow2(s) < (v + 1) * B
  {
    s := Nlz(d / B);
    HighHalf(d / B, s);
    ShiftedDivisor(d, Pow2(s), Pow2(31 - s));
    v := ToU64(d * Pow2(s)) / B;
  }

  /** The last line of udiv64: take one off the estimate if that is still enough. */
  method Corrected(n: nat, d: nat, e: nat) returns (q: nat)
    requires U64(n) && e >= 1 && 0 <= (e - 1) * d <= n
    ensures q == if n - (e - 1) * d < d then e - 1 else e
  {
    var p := (e - 1) * d;
    if ToU64(n - ToU64(p)) < d { q := e - 1; } else { q := e; }
  }

  method LargeUdiv(n: nat, d: nat) returns (q: nat)
    requires U64(n) && B <= d <= n
    ensures q == Quot(n, d)
  {
    var s, v := Normalize(d);
    QuotBounds(n / 2, v);
    NoTrap(n / 2, v, Quot(n / 2, v));
    var a := DivL(n / 2, v);
    var e := Quot(a, Pow2(31 - s));
    QuotBounds(a, Pow2(31 - s));
    QuotBounds(n, d);
    LargeQuotient(n, d, Pow2(s), Pow2(31 - s), v, a, e, Quot(n, d));
    q := Corrected(n, d, e);
  }

  /** udiv64: the floor of the quotient, for every dividend and every non-zero divisor. */
  method Udiv64(n: nat, d: nat) returns (q: nat)
    requires U64(n) && U64(d) && d > 0
    ensures q == Quot(n, d)
  {
    if d / B == 0 {
      q := SmallUdiv(n, d);
    } else if n < d {
      q := 0;
    } else {
      q := LargeUdiv(n, d);
    }
  }

  lemma RemIs(n: nat, d: nat)
    requires d > 0
    ensures n - d * Quot(n, d) == Rem(n, d) && 0 <= d * Quot(n, d) <= n
  {
  }

  lemma Commute(a: int, b: int)
    ensures a * b == b * a
  {
  }

  /** umod64: its 32-bit result is the low half of the remainder. */
  method Umod64(n: nat, d: nat) returns (r: nat)
    requires U64(n) && U64(d) && d > 0
    ensures r == Rem(n, d) % B
  {
    var q := Udiv64(n, d);
    RemIs(n, d);
    r := ToU64(n - ToU64(d * q)) % B;
  }

  /** umod64 is right for every dividend exactly when the divisor is at most 2^32. */
  lemma UmodExact(d: nat)
    requires U64(d) && d > 0
    ensures (forall n: nat | U64(n) :: Rem(n, d) % B == Rem(n, d)) <==> d <= B
  {
    if d <= B {
      forall n: nat | U64(n) ensures Rem(n, d) % B == Rem(n, d) { QuotBounds(n, d); }
    } else {
      assert U64(B) && Rem(B, d) == B;
    }
  }

  function Abs(x: int): nat { if x >= 0 then x else -x }

  /** Division that rounds toward zero, as C defines it. */
  function TruncQuot(n: int, d: int): int
    requires d != 0
  {
    if (n < 0) == (d < 0) then Quot(Abs(n), Abs(d)) else 0 - Quot(Abs(n), Abs(d))
  }

  function TruncRem(n: int, d: int): int
    requires d != 0
  {
    if n < 0 then 0 - Rem(Abs(n), Abs(d)) else Rem(Abs(n), Abs(d))
  }

  lemma SignedProduct(q: int, d: int)
    ensures (-q) * d == -(q * d) && q * (-d) == -(q * d) && (-q) * (-d) == q * d
  {
  }

  lemma TruncSplits(n: int, d: int)
    requires d != 0
    ensures n == TruncQuot(n, d) * d + TruncRem(n, d) && Abs(TruncRem(n, d)) < Abs(d)
  {
    QuotBounds(Abs(n), Abs(d));
    SignedProduct(Quot(Abs(n), Abs(d)), d);
  }

  /** The magnitude of a quotient of two 64-bit numbers. */
  lemma QuotFits(n: int, d: int)
    requires I64(n) && I64(d) && d != 0
    ensures Quot(Abs(n), Abs(d)) <= Abs(n)
    ensures Quot(Abs(n), Abs(d)) == W / 2 ==> n == -(W / 2) && (d == 1 || d == -1)
  {
    var a, b := Abs(n), Abs(d);
    QuotBounds(a, b);
    var q := Quot(a, b);
    MulLe(1, b, q);
    if b >= 2 { MulLe(2, b, q); }
  }

  /** The magnitude as an unsigned word: negation wraps once for a negative number. */
  method Magnitude(x: int) returns (a: nat)
    requires I64(x)
    ensures a == Abs(x) && U64(a)
  {
    a := if x >= 0 then x else ToU64(-ToU64(x));
  }

  function SignedBack(negative: bool, a: nat): int
    requires U64(a)
  {
    if negative then ToI64(-ToI64(a)) else ToI64(a)
  }

  lemma SignedBackIs(negative: bool, a: nat)
    requires a <= W / 2
    ensures SignedBack(negative, a) == if negative then 0 - a else if a == W / 2 then -(W / 2) else a
  {
  }

  /** sdiv64: rounds toward zero, except for the one pair whose quotient is not a 64-bit number. */
  method Sdiv64(n: int, d: int) returns (q: int)
    requires I64(n) && I64(d) && d != 0
    ensures q == if n == -(W / 2) && d == -1 then -(W / 2) else TruncQuot(n, d)
  {
    var na := Magnitude(n);
    var da := Magnitude(d);
    var qa := Udiv64(na, da);
    QuotFits(n, d);
    OneQuotient(n);
    SignedBackIs((n < 0) != (d < 0), qa);
    q := SignedBack((n < 0) != (d < 0), qa);
  }

  lemma OneQuotient(n: int)
    ensures Quot(Abs(n), 1) == Abs(n)
  {
    QuotIs(Abs(n), 1, Abs(n));
  }

  lemma SdivExact(n: int, d: int)
    requires I64(n) && I64(d) && d != 0
    ensures I64(TruncQuot(n, d)) <==> !(n == -(W / 2) && d == -1)
  {
    QuotFits(n, d);
    OneQuotient(n);
  }

  /** smod64: its 32-bit result is the low half of the remainder, for every pair. */
  method Smod64(n: int, d: int) returns (r: int)
    requires I64(n) && I64(d) && d != 0
    ensures r == ToI32(TruncRem(n, d))
  {
    var q := Sdiv64(n, d);
    if n == -(W / 2) && d == -1 {
      NoRemainder(n);
    } else {
      ProductFits(n, d);
    }
    r := ToI32(ToI64(n - ToI64(d * q)));
  }

  lemma NoRemainder(n: int)
    ensures TruncRem(n, -1) == 0
  {
    QuotBounds(Abs(n), 1);
  }

  lemma ProductFits(n: int, d: int)
    requires I64(n) && d != 0
    ensures I64(d * TruncQuot(n, d)) && I64(TruncRem(n, d)) && n - d * TruncQuot(n, d) == TruncRem(n, d)
  {
    TruncSplits(n, d);
    Commute(d, TruncQuot(n, d));
    RemIs(Abs(n), Abs(d));
  }

  /** smod64 is right for every dividend exactly when the divisor's magnitude is at most 2^31. */
  lemma SmodExact(d: int)
    requires I64(d) && d != 0
    ensures (forall n: int | I64(n) :: ToI32(TruncRem(n, d)) == TruncRem(n, d)) <==> Abs(d) <= B / 2
  {
    if Abs(d) <= B / 2 {
      forall n: int | I64(n) ensures ToI32(TruncRem(n, d)) == TruncRem(n, d) { TruncSplits(n, d); }
    } else {
      assert I64(B / 2) && TruncRem(B / 2, d) == B / 2;
    }
  }
}
