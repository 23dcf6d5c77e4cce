/** What the buddy allocator promises its callers, over single calls and over whole runs. */
module BuddyTheorems {
  import opened Dyadic
  import opened Machine
  import opened Buddy
  import opened BuddyProofs

  // ----- allocation and release, exactly -----

  predicate Between(f: nat, begin: nat, limit: nat) {
    begin <= f < limit
  }

  function Interval(begin: nat, limit: nat): set<nat> {
    set f: nat | begin <= f < limit && Between(f, begin, limit)
  }

  lemma {:induction false} IntervalSize(begin: nat, limit: nat)
    requires begin <= limit
    ensures |Interval(begin, limit)| == limit - begin
    decreases limit
  {
    if begin < limit {
      IntervalSize(begin, limit - 1);
      assert Interval(begin, limit) == Interval(begin, limit - 1) + {limit - 1};
    } else {
      assert Interval(begin, limit) == {};
    }
  }

  lemma RangeSize(b: nat, k: nat)
    ensures |Range(b, k)| == Pow2(k)
  {
    IntervalSize(b, b + Pow2(k));
    assert Range(b, k) == Interval(b, b + Pow2(k));
  }

  /** A block of order at least `order` is free. */
  ghost predicate CanServe(m: map<nat, Block>, order: nat) {
    exists b :: b in m && !m[b].taken && m[b].order >= order
  }

  lemma ServeList(st: State, n: nat, order: nat)
    requires Inv(st, n) && order <= MAX_ORDER
    ensures CanServe(st.blocks, order) <==> st.lists[FirstOrder(st.lists, order)] != []
  {
    var k := FirstOrder(st.lists, order);
    if st.lists[k] != [] {
      assert ListOf(st.lists[k], st.blocks, k);
      assert st.lists[k][0] in st.lists[k];
    }
    if b :| b in st.blocks && !st.blocks[b].taken && st.blocks[b].order >= order {
      var j := st.blocks[b].order;
      assert ListOf(st.lists[j], st.blocks, j);
      assert b in st.lists[j];
    }
  }

  /** The block that allocation cuts: the front of the smallest sufficient non-empty list. */
  ghost predicate Source(st: State, order: nat, f: nat, k: nat) {
    && order <= k && f in st.blocks && st.blocks[f] == Block(k, false)
    && forall b :: b in st.blocks && !st.blocks[b].taken && st.blocks[b].order >= order ==> st.blocks[b].order >= k
  }

  /** `f` is an aligned run of free frames of `st`, and `st'` differs by handing out exactly it. */
  ghost predicate HandsOut(st: State, st': State, n: nat, f: nat, order: nat) {
    && Aligned(f, order) && f + Pow2(order) <= n && f !in Used(st.blocks)
    && Range(f, order) <= FreeFrames(st.blocks)
    && FreeFrames(st'.blocks) == FreeFrames(st.blocks) - Range(f, order)
    && Used(st'.blocks) == Used(st.blocks)[f := order]
  }

  /** `alloc_frames` fails exactly when no free block is large enough, and then changes nothing;
      otherwise it hands out an aligned, wholly free run cut from the smallest sufficient block. */
  lemma AllocExact(st: State, n: nat, order: nat)
    requires Inv(st, n) && order <= MAX_ORDER
    ensures Alloc(st, order).1.Some? <==> CanServe(st.blocks, order)
    ensures Alloc(st, order).1.None? ==> Alloc(st, order).0 == st
    ensures Alloc(st, order).1.Some? ==>
      var st', f := Alloc(st, order).0, Alloc(st, order).1.value;
      && HandsOut(st, st', n, f, order)
      && (exists k :: Source(st, order, f, k))
      && |FreeFrames(st'.blocks)| == |FreeFrames(st.blocks)| - Pow2(order)
  {
    ServeList(st, n, order);
    var k := FirstOrder(st.lists, order);
    if st.lists[k] != [] {
      var f := st.lists[k][0];
      var st' := Alloc(st, order).0;
      AllocSource(st, n, order, k);
      AllocHandsOut(st, n, order, k);
      hide Inv, FreeFrames, Range, Source, CanServe, DivideDown;
      RangeSize(f, order);
      assert FreeFrames(st.blocks) == FreeFrames(st'.blocks) + Range(f, order);
    }
  }

  lemma AllocHandsOut(st: State, n: nat, order: nat, k: nat)
    requires Inv(st, n) && order <= MAX_ORDER && k == FirstOrder(st.lists, order) && st.lists[k] != []
    ensures HandsOut(st, Alloc(st, order).0, n, st.lists[k][0], order)
  {
    var d := DivideDown(st, k, order);
    var f := d.lists[order][0];
    var st' := Alloc(st, order).0;
    DivideDownInv(st, n, k, order);
    assert ListOf(d.lists[order], d.blocks, order);
    assert f in d.lists[order];
    assert st'.blocks == d.blocks[f := Block(order, true)];
    MarkTiling(d.blocks, d.managed, n, f, true, st'.blocks);
    assert f !in Used(d.blocks);
  }

  lemma AllocSource(st: State, n: nat, order: nat, k: nat)
    requires Inv(st, n) && order <= MAX_ORDER && k == FirstOrder(st.lists, order) && st.lists[k] != []
    ensures Alloc(st, order).1 == Some(st.lists[k][0]) && Source(st, order, st.lists[k][0], k)
  {
    assert ListOf(st.lists[k], st.blocks, k);
    assert st.lists[k][0] in st.lists[k];
    forall b | b in st.blocks && !st.blocks[b].taken && st.blocks[b].order >= order
      ensures st.blocks[b].order >= k
    {
      var j := st.blocks[b].order;
      assert ListOf(st.lists[j], st.blocks, j);
      assert b in st.lists[j];
    }
  }

  /** `free_frame` returns exactly the frames of the block, whatever it merges with. */
  lemma FreeExact(st: State, n: nat, f: nat)
    requires Inv(st, n) && f in st.blocks && st.blocks[f].taken
    ensures var st', k := Free(st, f), st.blocks[f].order;
      && Range(f, k) !! FreeFrames(st.blocks)
      && FreeFrames(st'.blocks) == FreeFrames(st.blocks) + Range(f, k)
      && Used(st'.blocks) == Used(st.blocks) - {f}
      && |FreeFrames(st'.blocks)| == |FreeFrames(st.blocks)| + Pow2(k)
  {
    var k := st.blocks[f].order;
    var u := st.(blocks := st.blocks - {f});
    TakenBackFloats(st, n, f);
    MarkTiling(st.blocks, st.managed, n, f, false, st.blocks[f := Block(k, false)]);
    MergeInv(u, n, f, k);
    assert Used(u.blocks) == Used(st.blocks) - {f};
    RangeSize(f, k);
  }

  // ----- freeing undoes allocating -----

  lemma CutAndRejoined(st: State, k: nat, f: nat, b: nat)
    requires 0 < k < |st.lists| && st.lists[k] != [] && f == st.lists[k][0]
    requires f in st.blocks && b == Past(f, k - 1) && b !in st.blocks
    ensures b in Popped(Divide(st, k), k - 1).lists[k - 1]
    ensures WithoutBuddy(Popped(Divide(st, k), k - 1), b, k - 1) == Popped(st, k)
  {
    var p := Popped(Divide(st, k), k - 1);
    assert p.lists[k - 1] == [b] + st.lists[k - 1];
    assert Remove(p.lists[k - 1], b) == st.lists[k - 1];
    assert p.blocks - {b} == Popped(st, k).blocks;
    assert p.lists[k - 1 := st.lists[k - 1]] == Popped(st, k).lists;
  }

  lemma MergeUndoesOneCut(st: State, n: nat, k: nat)
    requires Inv(st, n) && 0 < k <= MAX_ORDER && st.lists[k] != []
    ensures Merge(Popped(Divide(st, k), k - 1), st.lists[k][0], k - 1) == Merge(Popped(st, k), st.lists[k][0], k)
  {
    var f := st.lists[k][0];
    assert ListOf(st.lists[k], st.blocks, k);
    assert f in st.lists[k];
    HalvesAligned(f, k - 1);
    CutAndRejoined(st, k, f, Past(f, k - 1));
  }

  /** Freeing the block that was cut out joins all the pieces again, up to the block that was cut. */
  lemma {:induction false} MergeUndoesDivide(st: State, n: nat, k: nat, order: nat)
    requires Inv(st, n) && order <= k <= MAX_ORDER && st.lists[k] != []
    ensures Merge(Popped(DivideDown(st, k, order), order), st.lists[k][0], order)
         == Merge(Popped(st, k), st.lists[k][0], k)
    decreases k
  {
    if k > order {
      DivideInv(st, n, k);
      MergeUndoesDivide(Divide(st, k), n, k - 1, order);
      MergeUndoesOneCut(st, n, k);
    }
  }

  /** Merging from order `k` on leaves the smaller lists alone. */
  lemma {:induction false} MergeKeepsSmaller(st: State, f: nat, k: nat, j: nat)
    requires |st.lists| == MAX_ORDER + 1 && j < k <= MAX_ORDER
    ensures |Merge(st, f, k).lists| == MAX_ORDER + 1 && Merge(st, f, k).lists[j] == st.lists[j]
    decreases MAX_ORDER - k
  {
    var b := BuddyOf(f, k);
    if k < MAX_ORDER && b in st.lists[k] {
      MergeKeepsSmaller(WithoutBuddy(st, b, k), if b < f then b else f, k + 1, j);
    }
  }

  /** Pushing the front block of list `k` back through the merging loop. */
  lemma PopMergeRestores(st: State, n: nat, k: nat)
    requires Inv(st, n) && k <= MAX_ORDER && st.lists[k] != []
    ensures var f := st.lists[k][0];
      Merge(Popped(st, k), f, k) == st <==> k == MAX_ORDER || BuddyOf(f, k) !in st.lists[k]
  {
    if k < MAX_ORDER && BuddyOf(st.lists[k][0], k) in st.lists[k] {
      PopMergeJoins(st, n, k);
    } else {
      PopMergeReturns(st, n, k);
    }
  }

  /** With a free buddy, the block is joined and gone from its list. */
  lemma PopMergeJoins(st: State, n: nat, k: nat)
    requires Inv(st, n) && k < MAX_ORDER && st.lists[k] != [] && BuddyOf(st.lists[k][0], k) in st.lists[k]
    ensures Merge(Popped(st, k), st.lists[k][0], k) != st
  {
    var f, q := st.lists[k][0], Popped(st, k);
    var b := BuddyOf(f, k);
    assert ListOf(st.lists[k], st.blocks, k);
    assert f in st.lists[k];
    BuddyPair(f, k);
    assert st.lists[k] == [f] + q.lists[k];
    var lo, k1 := if b < f then b else f, k + 1;
    hide Inv, Aligned, BuddyOf, Listed;
    MergeKeepsSmaller(WithoutBuddy(q, b, k), lo, k1, k);
    RemoveFrom(q.lists[k], b);
    assert f !in Merge(q, f, k).lists[k];
  }

  /** Without one, it goes back where it was. */
  lemma PopMergeReturns(st: State, n: nat, k: nat)
    requires Inv(st, n) && k <= MAX_ORDER && st.lists[k] != []
    requires k == MAX_ORDER || BuddyOf(st.lists[k][0], k) !in st.lists[k]
    ensures Merge(Popped(st, k), st.lists[k][0], k) == st
  {
    var f, q := st.lists[k][0], Popped(st, k);
    assert ListOf(st.lists[k], st.blocks, k);
    assert f in st.lists[k];
    assert st.lists[k] == [f] + q.lists[k];
    assert Merge(q, f, k).lists == st.lists;
    assert Merge(q, f, k).blocks == st.blocks;
  }

  /** Allocating and freeing again restores every list, its order included, if and only if the
      block that was cut is of the largest order or had no free buddy. */
  lemma AllocFreeRestores(st: State, n: nat, order: nat)
    requires Inv(st, n) && order <= MAX_ORDER && CanServe(st.blocks, order)
    ensures var st', f, k := Alloc(st, order).0, Alloc(st, order).1, FirstOrder(st.lists, order);
      && f.Some? && f.value in st'.blocks && st'.blocks[f.value] == Block(order, true)
      && (Free(st', f.value) == st <==> k == MAX_ORDER || BuddyOf(f.value, k) !in st.lists[k])
  {
    ServeList(st, n, order);
    var k := FirstOrder(st.lists, order);
    var f := st.lists[k][0];
    var st' := Alloc(st, order).0;
    assert st'.(blocks := st'.blocks - {f}) == Popped(DivideDown(st, k, order), order);
    MergeUndoesDivide(st, n, k, order);
    PopMergeRestores(st, n, k);
  }

  /** Freeing a block without a free buddy and allocating at its order gives that block back, and the whole
      state: the lists are last in, first out. */
  lemma FreeAllocRestores(st: State, n: nat, f: nat)
    requires Inv(st, n) && f in st.blocks && st.blocks[f].taken
    requires st.blocks[f].order == MAX_ORDER || BuddyOf(f, st.blocks[f].order) !in st.lists[st.blocks[f].order]
    ensures Alloc(Free(st, f), st.blocks[f].order) == (st, Some(f))
  {
    var k := st.blocks[f].order;
    FrontReturns(st, f, k);
  }

  lemma FrontReturns(st: State, f: nat, k: nat)
    requires |st.lists| == MAX_ORDER + 1 && k <= MAX_ORDER && f in st.blocks && st.blocks[f] == Block(k, true)
    requires k == MAX_ORDER || BuddyOf(f, k) !in st.lists[k]
    ensures Alloc(Free(st, f), k) == (st, Some(f))
  {
    hide BuddyOf;
    var r := Free(st, f);
    var l := [f] + st.lists[k];
    assert r == State(st.lists[k := l], (st.blocks - {f})[f := Block(k, false)], st.managed);
    assert l[1..] == st.lists[k];
    var p := Popped(r, k);
    assert p.lists == st.lists;
    assert p.blocks[f := Block(k, true)] == st.blocks;
  }

  // ----- free pairs are never added -----

  /** Two free blocks of order `k` that could be one block. */
  ghost predicate FreePair(st: State, b: nat, k: nat) {
    k < MAX_ORDER && k < |st.lists| && b in st.lists[k] && BuddyOf(b, k) in st.lists[k]
  }

  ghost predicate NoNewPairs(st: State, st': State) {
    forall b, k :: FreePair(st', b, k) ==> FreePair(st, b, k)
  }

  lemma {:induction false} DividePairs(st: State, n: nat, k: nat, order: nat)
    requires Inv(st, n) && order <= k <= MAX_ORDER && st.lists[k] != []
    ensures NoNewPairs(Popped(st, k), Popped(DivideDown(st, k, order), order))
    decreases k
  {
    if k > order {
      var f := st.lists[k][0];
      var d := Divide(st, k);
      DivideInv(st, n, k);
      var i := k - 1;
      DividePairs(d, n, i, order);
      DivideStepPairs(st, n, k, i);
    }
  }

  lemma DivideStepPairs(st: State, n: nat, k: nat, i: nat)
    requires Inv(st, n) && i + 1 == k <= MAX_ORDER && st.lists[k] != []
    ensures NoNewPairs(Popped(st, k), Popped(Divide(st, k), i))
  {
    var f := st.lists[k][0];
    var b := Past(f, i);
    var q, p := Popped(st, k), Popped(Divide(st, k), i);
    assert ListOf(st.lists[k], st.blocks, k) && ListOf(st.lists[i], st.blocks, i);
    assert f in st.lists[k] && f in st.blocks;
    HalvesAligned(f, i);
    assert p.lists[i] == [b] + q.lists[i];
    assert forall j :: 0 <= j <= MAX_ORDER && j != i ==> p.lists[j] == q.lists[j];
    forall c | FreePair(p, c, i) ensures FreePair(q, c, i) {
      if c != b {
        assert c in st.blocks;
        BuddyPair(c, i);
      }
    }
  }

  lemma AllocNoNewPairs(st: State, n: nat, order: nat)
    requires Inv(st, n) && order <= MAX_ORDER
    ensures NoNewPairs(st, Alloc(st, order).0)
  {
    var k := FirstOrder(st.lists, order);
    if st.lists[k] != [] {
      DividePairs(st, n, k, order);
      var st' := Alloc(st, order).0;
      forall b, j | FreePair(st', b, j) ensures FreePair(st, b, j) {
        assert FreePair(Popped(DivideDown(st, k, order), order), b, j);
        assert FreePair(Popped(st, k), b, j);
      }
    }
  }

  ghost predicate SamePairs(st: State, st': State) {
    forall b, k :: FreePair(st', b, k) <==> FreePair(st, b, k)
  }

  /** Taking the buddy of a floating block off its list breaks no pair: its own buddy is on no list. */
  lemma WithoutBuddyPairs(st: State, n: nat, f: nat, k: nat, b: nat)
    requires Floating(st, n, f, k) && k < MAX_ORDER && b == BuddyOf(f, k) && b in st.lists[k]
    ensures SamePairs(st, WithoutBuddy(st, b, k))
  {
    assert ListOf(st.lists[k], st.blocks, k);
    assert f in st.blocks[f := Block(k, false)];
    RemoveFrom(st.lists[k], b);
    BuddyPair(f, k);
    assert f !in st.lists[k];
    forall c | c in st.lists[k] && BuddyOf(c, k) == b ensures c == f {
      assert c in st.blocks[f := Block(k, false)];
      BuddyPair(c, k);
    }
  }

  /** A floating block without a free buddy forms no pair. */
  lemma LandedPairs(st: State, n: nat, f: nat, k: nat)
    requires Floating(st, n, f, k) && k <= MAX_ORDER && (k == MAX_ORDER || BuddyOf(f, k) !in st.lists[k])
    ensures SamePairs(st, Merge(st, f, k))
  {
    assert ListOf(st.lists[k], st.blocks, k);
    assert f in st.blocks[f := Block(k, false)];
    BuddyPair(f, k);
    forall c | c in st.lists[k] && BuddyOf(c, k) == f ensures c == BuddyOf(f, k) {
      assert c in st.blocks[f := Block(k, false)];
      BuddyPair(c, k);
    }
  }

  lemma {:induction false} MergeKeepsPairs(st: State, n: nat, f: nat, k: nat)
    requires Floating(st, n, f, k) && k <= MAX_ORDER
    ensures SamePairs(st, Merge(st, f, k))
    decreases MAX_ORDER - k
  {
    var b := BuddyOf(f, k);
    if k < MAX_ORDER && b in st.lists[k] {
      var st', lo, k' := WithoutBuddy(st, b, k), Lower(f, b), k + 1;
      MergeStep(st, n, f, k, b, st', lo, k');
      WithoutBuddyPairs(st, n, f, k, b);
      MergeKeepsPairs(st', n, lo, k');
    } else {
      LandedPairs(st, n, f, k);
    }
  }

  /** A free adds no pair of free buddies and merges none that was there. */
  lemma FreeKeepsPairs(st: State, n: nat, f: nat)
    requires Inv(st, n) && f in st.blocks && st.blocks[f].taken
    ensures SamePairs(st, Free(st, f))
  {
    var k := st.blocks[f].order;
    var u := st.(blocks := st.blocks - {f});
    TakenBackFloats(st, n, f);
    MergeKeepsPairs(u, n, f, k);
    assert SamePairs(st, u);
  }
}
