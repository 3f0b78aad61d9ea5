/** What inode_deallocate releases when it is given any inode, not only a complete one: it follows the words it finds
    in the index sectors. A creation that fails past the direct blocks calls it before those sectors are written. */
module Cleanup {
  import opened Options
  import opened FreeMap
  import opened IndexTree
  import opened FileBytes

  /** The words of a sector, by a reading `words` of its bytes. */
  function WordsAt(store: Store, x: nat, words: Block -> seq<nat>): seq<nat> { if x in store then words(store[x]) else [] }

  /** The reading gives back the pointers of an index sector that has been written. */
  ghost predicate Reads(words: Block -> seq<nat>) { forall ptrs :: words(Pointers(ptrs)) == ptrs }

  function NonZero(ws: seq<nat>): seq<nat> {
    if ws == [] then []
    else
      var n := |ws| - 1;
      if ws[n] != 0 then NonZero(ws[..n]) + [ws[n]] else NonZero(ws[..n])
  }

  /** The second-level sectors named by `dbl` and what they name. */
  function LeafReleases(store: Store, dbl: seq<nat>, words: Block -> seq<nat>): seq<nat> {
    if dbl == [] then []
    else
      var n := |dbl| - 1;
      LeafReleases(store, dbl[..n], words) + if dbl[n] != 0 then NonZero(WordsAt(store, dbl[n], words)) + [dbl[n]] else []
  }

  function SingleReleases(store: Store, x: nat, words: Block -> seq<nat>): seq<nat> {
    if x == 0 then [] else NonZero(WordsAt(store, x, words)) + [x]
  }

  function DoublyReleases(store: Store, x: nat, words: Block -> seq<nat>): seq<nat> {
    if x == 0 then [] else LeafReleases(store, WordsAt(store, x, words), words) + [x]
  }

  /** Every sector released, in order. */
  function Released(store: Store, d: InodeDisk, words: Block -> seq<nat>): seq<nat> {
    NonZero(d.direct) + SingleReleases(store, d.indirect, words) + DoublyReleases(store, d.doubly, words)
  }

  /** Releasing sectors one by one; each must be allocated at that moment, or an assertion fails. */
  function ReleaseRun(used: set<nat>, xs: seq<nat>): Option<set<nat>> {
    if xs == [] then Some(used)
    else
      var n := |xs| - 1;
      match ReleaseRun(used, xs[..n])
      case None => None
      case Some(u) => if xs[n] in u then Some(u - {xs[n]}) else None
  }

  ghost function Elements(xs: seq<nat>): set<nat> { set x | x in xs }

  lemma ElementsNext(xs: seq<nat>)
    requires xs != []
    ensures Elements(xs) == Elements(xs[..|xs| - 1]) + {xs[|xs| - 1]}
    ensures Distinct(xs) <==> Distinct(xs[..|xs| - 1]) && xs[|xs| - 1] !in Elements(xs[..|xs| - 1])
  {
    var n := |xs| - 1;
    assert xs == xs[..n] + [xs[n]];
    if Distinct(xs[..n]) && xs[n] !in Elements(xs[..n]) {
      forall i, j | 0 <= i < j < |xs| ensures xs[i] != xs[j] {
        assert xs[i] == xs[..n][i] && xs[i] in Elements(xs[..n]);
        if j < n { assert xs[j] == xs[..n][j]; }
      }
    }
    if Distinct(xs) {
      assert forall i :: 0 <= i < n ==> xs[..n][i] == xs[i];
    }
  }

  /** All goes well exactly when the sectors are allocated and no two are the same, and then exactly they are free. */
  lemma {:induction false} RunExact(used: set<nat>, xs: seq<nat>)
    ensures ReleaseRun(used, xs).Some? <==> Distinct(xs) && Elements(xs) <= used
    ensures ReleaseRun(used, xs).Some? ==> ReleaseRun(used, xs).value == used - Elements(xs)
  {
    if xs != [] {
      RunExact(used, xs[..|xs| - 1]);
      ElementsNext(xs);
    }
  }

  lemma RunNext(used: set<nat>, xs: seq<nat>, x: nat)
    ensures ReleaseRun(used, xs + [x]) ==
      match ReleaseRun(used, xs)
      case None => None
      case Some(u) => if x in u then Some(u - {x}) else None
  {
    assert (xs + [x])[..|xs|] == xs;
  }

  /** An assertion that has failed stays failed. */
  lemma {:induction false} RunFails(used: set<nat>, xs: seq<nat>, ys: seq<nat>)
    requires ReleaseRun(used, xs) == None
    ensures ReleaseRun(used, xs + ys) == None
  {
    if ys == [] {
      assert xs + ys == xs;
    } else {
      var n := |ys| - 1;
      RunFails(used, xs, ys[..n]);
      assert xs + ys == xs + ys[..n] + [ys[n]];
      RunNext(used, xs + ys[..n], ys[n]);
    }
  }

  /** A cleanup gives back exactly what the creation has taken, if and only if the words it follows name each of those
      sectors once and nothing else. */
  lemma CleanupExact(used: set<nat>, taken: set<nat>, xs: seq<nat>)
    requires used !! taken
    ensures ReleaseRun(used + taken, xs) == Some(used) <==> Names(xs, taken)
  {
    RunExact(used + taken, xs);
  }

  // ---------------------------------------------------------------- in pieces

  lemma WordsNext(ws: seq<nat>, i: nat, xs: seq<nat>)
    requires i < |ws|
    ensures xs + NonZero(ws[..i + 1]) == if ws[i] != 0 then xs + NonZero(ws[..i]) + [ws[i]] else xs + NonZero(ws[..i])
  {
    assert ws[..i + 1][..i] == ws[..i];
  }

  lemma WordsFail(ws: seq<nat>, i: nat, used: set<nat>, xs: seq<nat>)
    requires i <= |ws| && ReleaseRun(used, xs + NonZero(ws[..i])) == None
    ensures ReleaseRun(used, xs + NonZero(ws)) == None
  {
    NonZeroSplit(ws, i);
    RunFails(used, xs + NonZero(ws[..i]), NonZero(ws[i..]));
    assert xs + NonZero(ws[..i]) + NonZero(ws[i..]) == xs + NonZero(ws);
  }

  lemma {:induction false} NonZeroSplit(ws: seq<nat>, i: nat)
    requires i <= |ws|
    ensures NonZero(ws) == NonZero(ws[..i]) + NonZero(ws[i..])
    decreases |ws|
  {
    if i == |ws| {
      assert ws[..i] == ws;
    } else {
      var n := |ws| - 1;
      NonZeroSplit(ws[..n], i);
      assert ws[..n][..i] == ws[..i] && ws[..n][i..] == ws[i..][..n - i];
    }
  }

  lemma LeafReleasesPrefix(store: Store, dbl: seq<nat>, k: nat, words: Block -> seq<nat>)
    requires k < |dbl|
    ensures LeafReleases(store, dbl[..k + 1], words) == LeafReleases(store, dbl[..k], words) + SingleReleases(store, dbl[k], words)
  {
    assert dbl[..k + 1][..k] == dbl[..k];
  }

  /** The prefix of the table comes first. */
  lemma {:induction false} LeafReleasesRest(store: Store, dbl: seq<nat>, k: nat, words: Block -> seq<nat>) returns (ys: seq<nat>)
    requires k <= |dbl|
    ensures LeafReleases(store, dbl, words) == LeafReleases(store, dbl[..k], words) + ys
    decreases |dbl|
  {
    if k == |dbl| {
      ys := [];
      assert dbl[..k] == dbl;
    } else {
      var n := |dbl| - 1;
      ys := LeafReleasesRest(store, dbl[..n], k, words);
      assert dbl[..n][..k] == dbl[..k] && dbl[..n + 1] == dbl;
      LeafReleasesPrefix(store, dbl, n, words);
      ys := ys + SingleReleases(store, dbl[n], words);
    }
  }

  lemma LeavesNext(store: Store, dbl: seq<nat>, k: nat, words: Block -> seq<nat>, xs: seq<nat>)
    requires k < |dbl|
    ensures xs + LeafReleases(store, dbl[..k + 1], words) == xs + LeafReleases(store, dbl[..k], words) + SingleReleases(store, dbl[k], words)
  {
    LeafReleasesPrefix(store, dbl, k, words);
  }

  lemma LeavesFail(store: Store, dbl: seq<nat>, k: nat, words: Block -> seq<nat>, used: set<nat>, xs: seq<nat>)
    requires k <= |dbl| && ReleaseRun(used, xs + LeafReleases(store, dbl[..k], words)) == None
    ensures ReleaseRun(used, xs + LeafReleases(store, dbl, words)) == None
  {
    var ys := LeafReleasesRest(store, dbl, k, words);
    RunFails(used, xs + LeafReleases(store, dbl[..k], words), ys);
    assert xs + LeafReleases(store, dbl[..k], words) + ys == xs + LeafReleases(store, dbl, words);
  }

  lemma LevelsFail(used: set<nat>, xs: seq<nat>, ys: seq<nat>, zs: seq<nat>)
    ensures ReleaseRun(used, xs) == None ==> ReleaseRun(used, xs + ys) == None
    ensures ReleaseRun(used, xs + ys) == None ==> ReleaseRun(used, xs + ys + zs) == None
  {
    if ReleaseRun(used, xs) == None { RunFails(used, xs, ys); }
    if ReleaseRun(used, xs + ys) == None { RunFails(used, xs + ys, zs); }
  }

  /** A file that grew from nothing has taken what it owns. */
  lemma TakenApart(t0: Tree, t: Tree)
    requires Separate(t0) && Owned(t0) == {} && Grown(t0, t)
    ensures t0.used !! Owned(t) && t.used == t0.used + Owned(t)
  {
    assert t.used - t0.used == Owned(t);
  }

  // ---------------------------------------------------------------- a complete file

  /** `xs` names each sector of `a` once, and nothing else. */
  ghost predicate Names(xs: seq<nat>, a: set<nat>) { Distinct(xs) && Elements(xs) == a }

  lemma NamesAppend(xs: seq<nat>, a: set<nat>, ys: seq<nat>, b: set<nat>)
    requires Names(xs, a) && Names(ys, b) && a !! b
    ensures Names(xs + ys, a + b)
  {
    var zs := xs + ys;
    forall i, j | 0 <= i < j < |zs| ensures zs[i] != zs[j] {
      if i < |xs| <= j { assert zs[i] in Elements(xs) && zs[j] in Elements(ys); }
    }
    forall x ensures x in Elements(zs) <==> x in a + b { assert x in zs <==> x in xs || x in ys; }
  }

  lemma NamesOne(x: nat)
    ensures Names([x], {x})
  {
  }

  lemma {:induction false} WindowNamed(t: Tree, base: nat, n: nat)
    requires Separate(t)
    ensures Names(NonZero(Window(t.blocks, base, n)), Between(t.blocks, base, base + n))
  {
    if n > 0 {
      var w, i := Window(t.blocks, base, n), base + n - 1;
      WindowNamed(t, base, n - 1);
      assert w[..n - 1] == Window(t.blocks, base, n - 1);
      NotZero(t, i);
      BetweenNext(t.blocks, base, i);
      if i < |t.blocks| {
        assert t.blocks[i] !in Between(t.blocks, base, i);
        NamesOne(w[n - 1]);
        NamesAppend(NonZero(w[..n - 1]), Between(t.blocks, base, i), [w[n - 1]], {w[n - 1]});
      }
    }
  }

  /** One second-level sector. */
  lemma LeafNamed(t: Tree, k: nat, words: Block -> seq<nat>)
    requires Rep(t) && Reads(words) && k < |t.inds| && k < PTRS
    ensures t.inds[k] != 0
    ensures Names(NonZero(WordsAt(t.store, t.inds[k], words)) + [t.inds[k]],
                  Between(t.blocks, SINGLE_END + PTRS * k, SINGLE_END + PTRS * (k + 1)) + {t.inds[k]})
  {
    var lo := SINGLE_END + PTRS * k;
    LeafApart(t, k);
    WindowNamed(t, lo, PTRS);
    NamesOne(t.inds[k]);
    NamesAppend(NonZero(Window(t.blocks, lo, PTRS)), Between(t.blocks, lo, lo + PTRS), [t.inds[k]], {t.inds[k]});
  }

  /** What the second-level sectors before `k` cover is apart from sector `k`. */
  lemma LeafStep(t: Tree, k: nat)
    requires Rep(t) && k < |t.inds| && k < PTRS
    ensures var lo := SINGLE_END + PTRS * k;
      var here := Between(t.blocks, lo, lo + PTRS) + {t.inds[k]};
      LeafSectors(t, k) !! here && LeafSectors(t, k) + here == LeafSectors(t, k + 1)
  {
    var lo := SINGLE_END + PTRS * k;
    LeafApart(t, k);
    assert Between(t.inds, 0, k) <= Between(t.inds, 0, PTRS);
    assert Between(t.blocks, SINGLE_END, lo) <= Between(t.blocks, SINGLE_END, MAX_BLOCKS);
  }

  /** Past the last second-level sector there is nothing. */
  lemma LeafPast(t: Tree, k: nat)
    requires Rep(t) && |t.inds| <= k < PTRS
    ensures LeafSectors(t, k + 1) == LeafSectors(t, k)
  {
    LeafApart(t, k);
  }

  ghost function LeafSectors(t: Tree, k: nat): set<nat> {
    Between(t.blocks, SINGLE_END, SINGLE_END + PTRS * k) + Between(t.inds, 0, k)
  }

  lemma {:induction false} LeavesNamed(t: Tree, k: nat, words: Block -> seq<nat>)
    requires Rep(t) && Reads(words) && k <= PTRS
    ensures Names(LeafReleases(t.store, Window(t.inds, 0, k), words), LeafSectors(t, k))
  {
    if k > 0 {
      LeavesNamed(t, k - 1, words);
      LeavesNamedNext(t, k - 1, words);
    }
  }

  lemma LeavesNamedNext(t: Tree, k: nat, words: Block -> seq<nat>)
    requires Rep(t) && Reads(words) && k < PTRS && Names(LeafReleases(t.store, Window(t.inds, 0, k), words), LeafSectors(t, k))
    ensures Names(LeafReleases(t.store, Window(t.inds, 0, k + 1), words), LeafSectors(t, k + 1))
  {
    var w, x := Window(t.inds, 0, k), if k < |t.inds| then t.inds[k] else 0;
    assert Window(t.inds, 0, k + 1) == w + [x];
    LeafReleasesNext(t.store, w, x, words);
    if k < |t.inds| { LeavesNamedMore(t, k, LeafReleases(t.store, w, words), words); } else { LeafPast(t, k); }
  }

  lemma LeafReleasesNext(store: Store, dbl: seq<nat>, x: nat, words: Block -> seq<nat>)
    ensures LeafReleases(store, dbl + [x], words)
         == LeafReleases(store, dbl, words) + if x != 0 then NonZero(WordsAt(store, x, words)) + [x] else []
  {
    assert (dbl + [x])[..|dbl|] == dbl;
  }

  lemma LeavesNamedMore(t: Tree, k: nat, xs: seq<nat>, words: Block -> seq<nat>)
    requires Rep(t) && Reads(words) && k < |t.inds| && k < PTRS
    requires Names(xs, LeafSectors(t, k))
    ensures t.inds[k] != 0
    ensures Names(xs + (NonZero(WordsAt(t.store, t.inds[k], words)) + [t.inds[k]]), LeafSectors(t, k + 1))
  {
    var lo := SINGLE_END + PTRS * k;
    LeafNamed(t, k, words);
    LeafStep(t, k);
    NamesAppend(xs, LeafSectors(t, k),
                NonZero(WordsAt(t.store, t.inds[k], words)) + [t.inds[k]], Between(t.blocks, lo, lo + PTRS) + {t.inds[k]});
  }

  lemma SingleNamed(t: Tree, words: Block -> seq<nat>)
    requires Rep(t) && Reads(words)
    ensures Names(SingleReleases(t.store, t.d.indirect, words), Between(t.blocks, DIRECT, SINGLE_END) + ({t.d.indirect} - {0}))
  {
    OwnedParts(t);
    if t.d.indirect != 0 {
      WindowNamed(t, DIRECT, PTRS);
      NamesOne(t.d.indirect);
      NamesAppend(NonZero(Window(t.blocks, DIRECT, PTRS)), Between(t.blocks, DIRECT, SINGLE_END), [t.d.indirect], {t.d.indirect});
    }
  }

  lemma DoublyNamed(t: Tree, words: Block -> seq<nat>)
    requires Rep(t) && Reads(words)
    ensures Names(DoublyReleases(t.store, t.d.doubly, words),
                  Between(t.blocks, SINGLE_END, MAX_BLOCKS) + Between(t.inds, 0, PTRS) + ({t.d.doubly} - {0}))
  {
    OwnedParts(t);
    if t.d.doubly != 0 {
      LeavesNamed(t, PTRS, words);
      NamesOne(t.d.doubly);
      NamesAppend(LeafReleases(t.store, Window(t.inds, 0, PTRS), words), Between(t.blocks, SINGLE_END, MAX_BLOCKS) + Between(t.inds, 0, PTRS),
                  [t.d.doubly], {t.d.doubly});
    }
  }

  /** For a complete file the words name every sector it owns once, and nothing else. */
  lemma CompleteReleases(t: Tree, words: Block -> seq<nat>)
    requires Rep(t) && Reads(words)
    ensures Names(Released(t.store, t.d, words), Owned(t))
  {
    WindowNamed(t, 0, DIRECT);
    SingleNamed(t, words);
    DoublyNamed(t, words);
    OwnedLevels(t);
    NamesThree(NonZero(t.d.direct), Between(t.blocks, 0, DIRECT),
               SingleReleases(t.store, t.d.indirect, words), Between(t.blocks, DIRECT, SINGLE_END) + ({t.d.indirect} - {0}),
               DoublyReleases(t.store, t.d.doubly, words),
               Between(t.blocks, SINGLE_END, MAX_BLOCKS) + Between(t.inds, 0, PTRS) + ({t.d.doubly} - {0}));
  }

  lemma NamesThree(xs: seq<nat>, a: set<nat>, ys: seq<nat>, b: set<nat>, zs: seq<nat>, c: set<nat>)
    requires Names(xs, a) && Names(ys, b) && Names(zs, c) && a !! b && a !! c && b !! c
    ensures Names(xs + ys + zs, a + b + c)
  {
    NamesAppend(xs, a, ys, b);
    NamesAppend(xs + ys, a + b, zs, c);
  }

  /** The sectors of the three levels, each with its index sectors, are apart and are all the file owns. */
  lemma OwnedLevels(t: Tree)
    requires Rep(t)
    ensures var a, b, c := Between(t.blocks, 0, DIRECT), Between(t.blocks, DIRECT, SINGLE_END) + ({t.d.indirect} - {0}),
        Between(t.blocks, SINGLE_END, MAX_BLOCKS) + Between(t.inds, 0, PTRS) + ({t.d.doubly} - {0});
      a !! b && a !! c && b !! c && a + b + c == Owned(t)
  {
    OwnedParts(t);
  }

  /** A failure before any index sector is taken: the direct pointers are all there is. */
  lemma DirectReleases(t: Tree, words: Block -> seq<nat>)
    requires Partial(t) && t.d.indirect == 0
    ensures Names(Released(t.store, t.d, words), Owned(t))
  {
    WindowNamed(t, 0, DIRECT);
    AllBetween(t.blocks, DIRECT);
    assert Released(t.store, t.d, words) == NonZero(t.d.direct);
  }

  // ---------------------------------------------------------------- stale index sectors

  lemma {:induction false} NonZeroAll(ws: seq<nat>)
    requires forall i :: 0 <= i < |ws| ==> ws[i] == 0
    ensures NonZero(ws) == []
  {
    if ws != [] { NonZeroAll(ws[..|ws| - 1]); }
  }

  lemma {:induction false} NonZeroHas(ws: seq<nat>, w: nat)
    requires w in ws && w != 0
    ensures w in NonZero(ws)
  {
    var n := |ws| - 1;
    if ws[n] != w {
      assert ws == ws[..n] + [ws[n]];
      NonZeroHas(ws[..n], w);
    }
  }

  /** An index sector that reads as zeros: the direct blocks and the index sector come back, and every block past the
      direct ones stays allocated for good. */
  lemma ZeroIndexLeaks(t: Tree, words: Block -> seq<nat>)
    requires Partial(t) && t.d.indirect != 0 && t.d.doubly == 0 && t.inds == []
    requires forall i :: 0 <= i < |WordsAt(t.store, t.d.indirect, words)| ==> WordsAt(t.store, t.d.indirect, words)[i] == 0
    ensures ReleaseRun(t.used, Released(t.store, t.d, words)) == Some(t.used - Between(t.blocks, 0, DIRECT) - {t.d.indirect})
  {
    var a := Between(t.blocks, 0, DIRECT);
    ZeroIndexReleases(t, words);
    WindowNamed(t, 0, DIRECT);
    NamesOne(t.d.indirect);
    NamesAppend(NonZero(t.d.direct), a, [t.d.indirect], {t.d.indirect});
    RunNames(t.used, Released(t.store, t.d, words), a + {t.d.indirect});
    assert t.used - (a + {t.d.indirect}) == t.used - a - {t.d.indirect};
  }

  lemma ZeroIndexReleases(t: Tree, words: Block -> seq<nat>)
    requires t.d.indirect != 0 && t.d.doubly == 0
    requires forall i :: 0 <= i < |WordsAt(t.store, t.d.indirect, words)| ==> WordsAt(t.store, t.d.indirect, words)[i] == 0
    ensures Released(t.store, t.d, words) == NonZero(t.d.direct) + [t.d.indirect]
  {
    NonZeroAll(WordsAt(t.store, t.d.indirect, words));
  }

  lemma RunNames(used: set<nat>, xs: seq<nat>, a: set<nat>)
    requires Names(xs, a) && a <= used
    ensures ReleaseRun(used, xs) == Some(used - a)
  {
    RunExact(used, xs);
  }

  /** A stale pointer to a sector that was allocated before, to another file say: either an assertion fails, or the
      sector is free afterwards. */
  lemma StalePointerFrees(used: set<nat>, taken: set<nat>, store: Store, d: InodeDisk, words: Block -> seq<nat>, w: nat)
    requires used !! taken && w in used && w != 0 && d.indirect != 0 && w in WordsAt(store, d.indirect, words)
    ensures var r := ReleaseRun(used + taken, Released(store, d, words)); r == None || w !in r.value
  {
    var xs := Released(store, d, words);
    NonZeroHas(WordsAt(store, d.indirect, words), w);
    assert w in SingleReleases(store, d.indirect, words);
    assert w in Elements(xs);
    RunExact(used + taken, xs);
  }
}
