/** How many sectors a file of a given number of blocks takes, and what an interrupted growth has taken. */
module Space {
  import opened IndexTree

  function Cap(n: nat): nat { if n < MAX_BLOCKS then n else MAX_BLOCKS }

  /** Data and index sectors of a file of `n` blocks. */
  function SectorsFor(n: nat): nat {
    n + (if n > DIRECT then 1 else 0) + (if n > SINGLE_END then 1 else 0) + IndCount(n)
  }

  lemma SectorsForGrow(a: nat, b: nat)
    requires a <= b
    ensures SectorsFor(a) + (b - a) <= SectorsFor(b)
  {
    assert IndCount(a) <= IndCount(b);
  }

  ghost function Size(t: Tree): nat {
    |t.blocks| + |t.inds| + (if t.d.indirect != 0 then 1 else 0) + if t.d.doubly != 0 then 1 else 0
  }

  ghost function Members(xs: seq<nat>): set<nat> { set x | x in xs }

  lemma {:induction false} DistinctSize(xs: seq<nat>)
    requires Distinct(xs)
    ensures |Members(xs)| == |xs|
  {
    if xs != [] {
      var n := |xs| - 1;
      DistinctSize(xs[..n]);
      assert xs == xs[..n] + [xs[n]];
      assert Members(xs) == Members(xs[..n]) + {xs[n]};
      forall i | 0 <= i < n ensures xs[..n][i] != xs[n] {}
      assert xs[n] !in Members(xs[..n]);
    }
  }

  lemma UnionSize(a: set<nat>, b: set<nat>)
    requires a !! b
    ensures |a + b| == |a| + |b|
  {
  }

  lemma DiffSize(a: set<nat>, b: set<nat>)
    requires a <= b
    ensures |b - a| == |b| - |a|
  {
    UnionSize(a, b - a);
    assert a + (b - a) == b;
  }

  lemma {:induction false} SubSize(a: set<nat>, b: set<nat>)
    requires a <= b
    ensures |a| <= |b|
  {
    DiffSize(a, b);
  }

  /** The sectors of the four kinds are apart. */
  lemma OwnedKinds(t: Tree)
    requires Separate(t)
    ensures var a, b, c, d := Members(t.blocks), Members(t.inds), {t.d.indirect} - {0}, {t.d.doubly} - {0};
      a !! b && a + b !! c && a + b + c !! d && Owned(t) == a + b + c + d
  {
  }

  lemma OwnedSize(t: Tree)
    requires Separate(t)
    ensures |Owned(t)| == Size(t)
  {
    var a, b, c, d := Members(t.blocks), Members(t.inds), {t.d.indirect} - {0}, {t.d.doubly} - {0};
    OwnedKinds(t);
    DistinctSize(t.blocks);
    DistinctSize(t.inds);
    UnionSize(a, b);
    UnionSize(a + b, c);
    UnionSize(a + b + c, d);
  }

  lemma RepSize(t: Tree)
    requires Rep(t)
    ensures Size(t) == SectorsFor(|t.blocks|)
  {
  }

  /** Growth to `want` blocks has stopped short of one more block. */
  ghost predicate Stuck(t: Tree, want: nat) {
    Partial(t) && |t.blocks| < Cap(want) && Size(t) < SectorsFor(|t.blocks| + 1)
  }

  lemma StuckRep(t: Tree, want: nat)
    requires Rep(t) && |t.blocks| < Cap(want)
    ensures Stuck(t, want)
  {
    RepSize(t);
    SectorsForGrow(|t.blocks|, |t.blocks| + 1);
  }

  lemma StuckSingle(t: Tree, buf: seq<nat>, want: nat)
    requires MidSingle(t, buf) && |t.blocks| < Cap(want) && |t.blocks| < SINGLE_END
    ensures Stuck(t, want)
  {
  }

  lemma StuckDoubly(t: Tree, dbl: seq<nat>, want: nat)
    requires MidDoubly(t, dbl) && |t.blocks| < Cap(want)
    ensures Stuck(t, want)
  {
    assert IndCount(|t.blocks|) <= IndCount(|t.blocks| + 1);
  }

  lemma StuckLeaf(t: Tree, dbl: seq<nat>, k: nat, ind: seq<nat>, want: nat)
    requires MidLeaf(t, dbl, k, ind) && |t.blocks| < Cap(want) && |t.blocks| < SINGLE_END + PTRS * (k + 1)
    ensures Stuck(t, want)
  {
    assert IndCount(|t.blocks| + 1) == k + 1;
  }

  /** What a growth has taken, in sectors. */
  lemma GrowthSize(t0: Tree, t: Tree)
    requires Rep(t0) && Grown(t0, t) && Separate(t)
    ensures |t.used - t0.used| == Size(t) - SectorsFor(|t0.blocks|)
  {
    OwnedSize(t0);
    OwnedSize(t);
    RepSize(t0);
    DiffSize(Owned(t0), Owned(t));
  }

  // ---------------------------------------------------------------- free sectors

  /** The free sectors are enough for a file of `have` blocks to grow to `want`, as far as the index reaches. */
  ghost predicate Enough(free: set<nat>, writable: bool, have: nat, want: nat) {
    var need := SectorsFor(Cap(want)) - SectorsFor(have);
    need <= 0 || (writable && need <= |free|)
  }

  /** A growth that succeeded had enough. */
  lemma GrewEnough(t0: Tree, t: Tree, free: set<nat>, writable: bool, want: nat)
    requires Rep(t0) && Rep(t) && Grown(t0, t) && |t.blocks| == Cap(want)
    requires t.used - t0.used <= free && (!writable ==> t.used == t0.used)
    ensures Enough(free, writable, |t0.blocks|, want)
  {
    GrowthSize(t0, t);
    RepSize(t);
    SubSize(t.used - t0.used, free);
  }

  /** A growth that got stuck with no sector left had not. */
  lemma StuckShort(t0: Tree, t: Tree, free: set<nat>, writable: bool, want: nat)
    requires Rep(t0) && Grown(t0, t) && Stuck(t, want) && (writable ==> free <= t.used - t0.used)
    ensures !Enough(free, writable, |t0.blocks|, want)
  {
    GrowthSize(t0, t);
    SectorsForGrow(|t.blocks| + 1, Cap(want));
    if writable { SubSize(free, t.used - t0.used); }
  }
}
