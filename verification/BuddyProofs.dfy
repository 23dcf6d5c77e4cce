/** Every operation of the buddy allocator keeps the invariant, and what each does to the frames. */
module BuddyProofs {
  import opened Dyadic
  import opened Machine
  import opened Buddy

  // ----- moves on the block map -----

  /** A block that shares a frame with another block is that block. */
  lemma SameBlock(m: map<nat, Block>, managed: set<nat>, n: nat, b: nat, c: nat, f: nat)
    requires Tiling(m, managed, n) && b in m && c in m
    requires Within(f, b, m[b].order) && Within(f, c, m[c].order)
    ensures b == c
  {
  }

  /** `m'` is `m` with one free block replaced by its halves. */
  ghost predicate IsSplit(m: map<nat, Block>, m': map<nat, Block>, f: nat, k: nat) {
    && f in m && m[f] == Block(k + 1, false) && Past(f, k) !in m
    && m' == m[f := Block(k, false)][Past(f, k) := Block(k, false)]
  }

  /** A split covers the same frames, with blocks of the same kind. */
  lemma SplitCovers(m: map<nat, Block>, m': map<nat, Block>, f: nat, k: nat)
    requires IsSplit(m, m', f, k)
    ensures forall g :: Covered(m, g) <==> Covered(m', g)
    ensures FreeFrames(m') == FreeFrames(m) && Used(m') == Used(m)
  {
    var b := Past(f, k);
    forall g, c | c in m && Within(g, c, m[c].order)
      ensures Covered(m', g) && (!m[c].taken ==> g in FreeFrames(m'))
    {
      var c' := if c != f then c else if Within(g, f, k) then f else b;
      assert Within(g, c', m'[c'].order);
    }
    forall g, c | c in m' && Within(g, c, m'[c].order)
      ensures Covered(m, g) && (!m'[c].taken ==> g in FreeFrames(m))
    {
      var c' := if c == b then f else c;
      assert Within(g, c', m[c'].order);
    }
  }

  lemma SplitShape(m: map<nat, Block>, n: nat, f: nat, k: nat, m': map<nat, Block>)
    requires Shape(m, n) && IsSplit(m, m', f, k)
    ensures Shape(m', n)
  {
    var b := Past(f, k);
    HalvesAligned(f, k);
    assert Pow2(k + 1) == Pow2(k) + Pow2(k);
    forall c | c in m'
      ensures m'[c].order <= MAX_ORDER && Aligned(c, m'[c].order) && c + Pow2(m'[c].order) <= n
    {
      if c != f && c != b { assert c in m && m'[c] == m[c]; }
    }
    forall c, d | c in m' && d in m' && c < d
      ensures c + Pow2(m'[c].order) <= d
    {
      if c != f && c != b {
        assert c in m && m'[c] == m[c] && c + Pow2(m[c].order) <= if d == b then f else d;
      } else if d != b {
        assert d in m && f < d;
      }
    }
  }

  lemma SplitTiling(m: map<nat, Block>, managed: set<nat>, n: nat, f: nat, k: nat, m': map<nat, Block>)
    requires Tiling(m, managed, n) && f in m && m[f] == Block(k + 1, false)
    requires m' == m[f := Block(k, false)][Past(f, k) := Block(k, false)]
    ensures IsSplit(m, m', f, k) && Tiling(m', managed, n)
  {
    assert Past(f, k) !in m;
    SplitShape(m, n, f, k, m');
    SplitCovers(m, m', f, k);
  }

  lemma JoinShape(m: map<nat, Block>, n: nat, f: nat, k: nat, m': map<nat, Block>)
    requires Shape(m', n) && k < MAX_ORDER && Aligned(f, k + 1) && IsSplit(m, m', f, k)
    ensures Shape(m, n)
  {
    var b := Past(f, k);
    assert Pow2(k + 1) == Pow2(k) + Pow2(k);
    assert b in m' && m'[b].order == k;
    forall c | c in m
      ensures m[c].order <= MAX_ORDER && Aligned(c, m[c].order) && c + Pow2(m[c].order) <= n
    {
      if c != f { assert c in m' && m'[c] == m[c]; }
    }
    forall c, d | c in m && d in m && c < d
      ensures c + Pow2(m[c].order) <= d
    {
      assert c in m' && d in m' && c != b && d != b;
      if c == f { assert b < d || d < b; } else { assert m'[c] == m[c]; }
    }
  }

  /** The inverse move. */
  lemma JoinTiling(m: map<nat, Block>, managed: set<nat>, n: nat, f: nat, k: nat, m': map<nat, Block>)
    requires Tiling(m', managed, n) && k < MAX_ORDER && Aligned(f, k + 1)
    requires IsSplit(m, m', f, k)
    ensures Tiling(m, managed, n)
  {
    JoinShape(m, n, f, k, m');
    SplitCovers(m, m', f, k);
  }

  /** Handing a block out or taking it back moves exactly its frames. */
  lemma MarkTiling(m: map<nat, Block>, managed: set<nat>, n: nat, f: nat, taken: bool, m': map<nat, Block>)
    requires Tiling(m, managed, n) && f in m && m[f].taken != taken
    requires m' == m[f := Block(m[f].order, taken)]
    ensures Tiling(m', managed, n)
    ensures taken ==> Range(f, m[f].order) <= FreeFrames(m) && FreeFrames(m') == FreeFrames(m) - Range(f, m[f].order)
    ensures !taken ==> Range(f, m[f].order) !! FreeFrames(m) && FreeFrames(m') == FreeFrames(m) + Range(f, m[f].order)
    ensures Used(m') == if taken then Used(m)[f := m[f].order] else Used(m) - {f}
  {
    hide Shape, Covered, FreeFrames, Range;
    MarkShape(m, n, f, m');
    MarkCovers(m, f, m');
    MarkFrames(m, managed, n, f, taken, m');
  }

  lemma MarkShape(m: map<nat, Block>, n: nat, f: nat, m': map<nat, Block>)
    requires Shape(m, n) && m'.Keys == m.Keys && forall c :: c in m ==> m'[c].order == m[c].order
    ensures Shape(m', n)
  {
  }

  lemma MarkCovers(m: map<nat, Block>, f: nat, m': map<nat, Block>)
    requires f in m && m'.Keys == m.Keys && forall c :: c in m ==> m'[c].order == m[c].order
    ensures forall g :: Covered(m, g) <==> Covered(m', g)
  {
    forall g, c | c in m && Within(g, c, m[c].order) ensures Covered(m', g) {
      assert Within(g, c, m'[c].order);
    }
    forall g, c | c in m' && Within(g, c, m'[c].order) ensures Covered(m, g) {
      assert Within(g, c, m[c].order);
    }
  }

  lemma MarkFrames(m: map<nat, Block>, managed: set<nat>, n: nat, f: nat, taken: bool, m': map<nat, Block>)
    requires Tiling(m, managed, n) && f in m && m[f].taken != taken
    requires m' == m[f := Block(m[f].order, taken)]
    ensures taken ==> Range(f, m[f].order) <= FreeFrames(m) && FreeFrames(m') == FreeFrames(m) - Range(f, m[f].order)
    ensures !taken ==> Range(f, m[f].order) !! FreeFrames(m) && FreeFrames(m') == FreeFrames(m) + Range(f, m[f].order)
  {
    var r := Range(f, m[f].order);
    forall g ensures g in r ==> (g in FreeFrames(m) <==> taken) && (g in FreeFrames(m') <==> !taken) {
      if g in r {
        assert Within(g, f, m[f].order) && Within(g, f, m'[f].order);
        if c :| c in m && !m[c].taken && Within(g, c, m[c].order) { SameBlock(m, managed, n, f, c, g); }
        if c :| c in m' && !m'[c].taken && Within(g, c, m'[c].order) {
          assert Within(g, c, m[c].order);
          SameBlock(m, managed, n, f, c, g);
        }
      }
    }
    forall g ensures g !in r ==> (g in FreeFrames(m) <==> g in FreeFrames(m')) {
      if g !in r {
        if c :| c in m && !m[c].taken && Within(g, c, m[c].order) { assert c != f && Within(g, c, m'[c].order); }
        if c :| c in m' && !m'[c].taken && Within(g, c, m'[c].order) { assert c != f && Within(g, c, m[c].order); }
      }
    }
  }

  // ----- lists -----

  /** Removing the element at index `i` of a list without repetition. */
  lemma {:induction false} RemoveAt(l: seq<nat>, i: nat)
    requires NoDup(l) && i < |l|
    ensures Remove(l, l[i]) == l[..i] + l[i + 1..]
  {
    if i > 0 {
      assert l[0] != l[i];
      assert l[1..][i - 1] == l[i];
      RemoveAt(l[1..], i - 1);
      assert l[..i] + l[i + 1..] == [l[0]] + (l[1..][..i - 1] + l[1..][i..]);
    }
  }

  lemma RemoveFrom(l: seq<nat>, x: nat)
    requires NoDup(l) && x in l
    ensures NoDup(Remove(l, x))
    ensures forall y :: y in Remove(l, x) <==> y in l && y != x
  {
    var i :| 0 <= i < |l| && l[i] == x;
    RemoveAt(l, i);
    var r := l[..i] + l[i + 1..];
    forall y ensures y in r <==> y in l && y != x {
      if y in l && y != x {
        var j :| 0 <= j < |l| && l[j] == y;
        assert r[if j < i then j else j - 1] == y;
      }
    }
  }

  lemma ListedPush(lists: seq<seq<nat>>, m: map<nat, Block>, k: nat, x: nat)
    requires Listed(lists, m) && k <= MAX_ORDER && x !in m
    ensures Listed(lists[k := [x] + lists[k]], m[x := Block(k, false)])
  {
    var lists' := lists[k := [x] + lists[k]];
    forall j | 0 <= j <= MAX_ORDER
      ensures ListOf(lists'[j], m[x := Block(k, false)], j)
    {
      assert ListOf(lists[j], m, j);
    }
  }

  lemma ListedRemove(lists: seq<seq<nat>>, m: map<nat, Block>, k: nat, x: nat)
    requires Listed(lists, m) && k <= MAX_ORDER && x in lists[k]
    ensures Listed(lists[k := Remove(lists[k], x)], m - {x})
  {
    assert ListOf(lists[k], m, k);
    RemoveFrom(lists[k], x);
    var lists' := lists[k := Remove(lists[k], x)];
    forall j | 0 <= j <= MAX_ORDER
      ensures ListOf(lists'[j], m - {x}, j)
    {
      assert ListOf(lists[j], m, j);
    }
  }

  lemma ListedPop(lists: seq<seq<nat>>, m: map<nat, Block>, k: nat)
    requires Listed(lists, m) && k <= MAX_ORDER && lists[k] != []
    ensures Listed(lists[k := lists[k][1..]], m - {lists[k][0]})
  {
    ListedRemove(lists, m, k, lists[k][0]);
    assert Remove(lists[k], lists[k][0]) == lists[k][1..];
  }

  // ----- the operations keep the invariant -----

  lemma DivideListed(st: State, k: nat)
    requires Listed(st.lists, st.blocks) && 0 < k <= MAX_ORDER && st.lists[k] != []
    requires Past(st.lists[k][0], k - 1) !in st.blocks
    ensures Listed(Divide(st, k).lists, Divide(st, k).blocks)
  {
    var f := st.lists[k][0];
    var b := Past(f, k - 1);
    assert f in st.lists[k];
    var l1, m1 := st.lists[k := st.lists[k][1..]], st.blocks - {f};
    ListedPop(st.lists, st.blocks, k);
    var l2, m2 := l1[k - 1 := [b] + l1[k - 1]], m1[b := Block(k - 1, false)];
    ListedPush(l1, m1, k - 1, b);
    ListedPush(l2, m2, k - 1, f);
    assert Divide(st, k).blocks == m2[f := Block(k - 1, false)];
    assert [f, b] + st.lists[k - 1] == [f] + l2[k - 1];
    assert Divide(st, k).lists == l2[k - 1 := [f] + l2[k - 1]];
  }

  /** What the front block of list `k` and its upper half look like before it is cut. */
  lemma DivideSplits(st: State, n: nat, k: nat, f: nat, b: nat)
    requires Inv(st, n) && 0 < k <= MAX_ORDER && st.lists[k] != []
    requires f == st.lists[k][0] && b == Past(f, k - 1)
    ensures f in st.blocks && st.blocks[f] == Block(k, false) && b !in st.blocks && f < b < n
    ensures IsSplit(st.blocks, Divide(st, k).blocks, f, k - 1)
    ensures Tiling(Divide(st, k).blocks, st.managed, n)
  {
    assert ListOf(st.lists[k], st.blocks, k);
    assert f in st.lists[k];
    var j: nat := k - 1;
    assert st.blocks[f] == Block(j + 1, false);
    SplitTiling(st.blocks, st.managed, n, f, j, Divide(st, k).blocks);
  }

  lemma DivideInv(st: State, n: nat, k: nat)
    requires Inv(st, n) && 0 < k <= MAX_ORDER && st.lists[k] != []
    ensures Inv(Divide(st, k), n)
    ensures FreeFrames(Divide(st, k).blocks) == FreeFrames(st.blocks)
    ensures Used(Divide(st, k).blocks) == Used(st.blocks)
  {
    var f := st.lists[k][0];
    DivideSplits(st, n, k, f, Past(f, k - 1));
    SplitCovers(st.blocks, Divide(st, k).blocks, f, k - 1);
    DivideListed(st, k);
  }

  lemma {:induction false} DivideDownInv(st: State, n: nat, k: nat, order: nat)
    requires Inv(st, n) && order <= k <= MAX_ORDER && st.lists[k] != []
    ensures Inv(DivideDown(st, k, order), n)
    ensures FreeFrames(DivideDown(st, k, order).blocks) == FreeFrames(st.blocks)
    ensures Used(DivideDown(st, k, order).blocks) == Used(st.blocks)
    decreases k
  {
    if k > order {
      DivideInv(st, n, k);
      DivideDownInv(Divide(st, k), n, k - 1, order);
    }
  }

  /** Taking the front block off its list leaves it floating. */
  lemma PoppedFloating(st: State, n: nat, k: nat)
    requires Inv(st, n) && k <= MAX_ORDER && st.lists[k] != []
    ensures Floating(Popped(st, k), n, st.lists[k][0], k)
    ensures Popped(st, k).blocks[st.lists[k][0] := Block(k, false)] == st.blocks
  {
    var f := st.lists[k][0];
    var p := Popped(st, k);
    assert f in st.lists[k];
    ListedPop(st.lists, st.blocks, k);
    assert p.blocks[f := Block(k, false)] == st.blocks;
  }

  lemma AllocInv(st: State, n: nat, order: nat)
    requires Inv(st, n) && order <= MAX_ORDER
    ensures Inv(Alloc(st, order).0, n) && Alloc(st, order).0.managed == st.managed
  {
    var k := FirstOrder(st.lists, order);
    if st.lists[k] != [] {
      var d := DivideDown(st, k, order);
      DivideDownInv(st, n, k, order);
      PoppedFloating(d, n, order);
      var f := d.lists[order][0];
      assert f in d.lists[order];
      var a := Alloc(st, order).0;
      assert a.blocks == d.blocks[f := Block(order, true)];
      MarkTiling(d.blocks, d.managed, n, f, true, a.blocks);
      assert Listed(a.lists, a.blocks);
    }
  }

  function Lower(f: nat, b: nat): nat {
    if b < f then b else f
  }

  /** One turn of the merging loop: the buddy leaves its list and the pair floats as one block. */
  lemma MergeStep(st: State, n: nat, f: nat, k: nat, b: nat, st': State, lo: nat, k': nat)
    requires Floating(st, n, f, k) && k < MAX_ORDER && k' == k + 1 && lo == Lower(f, b)
    requires b == BuddyOf(f, k) && b in st.lists[k] && st' == WithoutBuddy(st, b, k)
    ensures Floating(st', n, lo, k')
    ensures FreeFrames(st'.blocks[lo := Block(k', false)]) == FreeFrames(st.blocks[f := Block(k, false)])
    ensures Used(st'.blocks) == Used(st.blocks)
    ensures Merge(st, f, k) == Merge(st', lo, k')
  {
    var m0 := st.blocks[f := Block(k, false)];
    var m1 := st'.blocks[lo := Block(k', false)];
    assert f in m0;
    assert ListOf(st.lists[k], st.blocks, k);
    BuddyPair(f, k);
    ListedRemove(st.lists, st.blocks, k, b);
    assert IsSplit(m1, m0, lo, k);
    JoinTiling(m1, st.managed, n, lo, k, m0);
    SplitCovers(m1, m0, lo, k);
  }

  lemma {:induction false} MergeInv(st: State, n: nat, f: nat, k: nat)
    requires Floating(st, n, f, k)
    ensures k <= MAX_ORDER && Inv(Merge(st, f, k), n) && Merge(st, f, k).managed == st.managed
    ensures FreeFrames(Merge(st, f, k).blocks) == FreeFrames(st.blocks[f := Block(k, false)])
    ensures Used(Merge(st, f, k).blocks) == Used(st.blocks)
    decreases MAX_ORDER - k
  {
    var b := BuddyOf(f, k);
    assert f in st.blocks[f := Block(k, false)];
    if k < MAX_ORDER && b in st.lists[k] {
      var st', lo, k' := WithoutBuddy(st, b, k), Lower(f, b), k + 1;
      MergeStep(st, n, f, k, b, st', lo, k');
      MergeInv(st', n, lo, k');
    } else {
      ListedPush(st.lists, st.blocks, k, f);
    }
  }

  /** A block taken back from its caller floats until it is merged. */
  lemma TakenBackFloats(st: State, n: nat, f: nat)
    requires Inv(st, n) && f in st.blocks && st.blocks[f].taken
    ensures var u, k := st.(blocks := st.blocks - {f}), st.blocks[f].order;
      Floating(u, n, f, k) && u.blocks[f := Block(k, false)] == st.blocks[f := Block(k, false)]
  {
    var k := st.blocks[f].order;
    var u := st.(blocks := st.blocks - {f});
    MarkTiling(st.blocks, st.managed, n, f, false, st.blocks[f := Block(k, false)]);
    assert u.blocks[f := Block(k, false)] == st.blocks[f := Block(k, false)];
    forall j | 0 <= j <= MAX_ORDER ensures ListOf(u.lists[j], u.blocks, j) {
      assert ListOf(st.lists[j], st.blocks, j);
    }
  }

  lemma FreeInv(st: State, n: nat, f: nat)
    requires Inv(st, n) && f in st.blocks && st.blocks[f].taken
    ensures Inv(Free(st, f), n) && Free(st, f).managed == st.managed
  {
    TakenBackFloats(st, n, f);
    MergeInv(st.(blocks := st.blocks - {f}), n, f, st.blocks[f].order);
  }
}
