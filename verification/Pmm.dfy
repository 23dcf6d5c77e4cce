/** The physical memory manager of mm/pmm.c: one array of frame records with the free lists threaded
    through it, shown to carry out the operations of the pure buddy allocator. */
module Pmm {
  import opened Dyadic
  import opened Machine
  import opened Buddy
  import opened BuddyProofs
  import opened BuddyTheorems
  import opened BuddyRuns

  /** FRAME_ALLOCATED, FRAME_RESERVED and FRAME_BAD. */
  datatype Flags = Flags(taken: bool, reserved: bool, bad: bool)

  datatype Frame = Frame(next: Option<nat>, flags: Flags, order: int)

  // ----- what the records stand for -----

  function FirstOf(l: seq<nat>): Option<nat> {
    if l == [] then None else Some(l[0])
  }

  function NextOf(l: seq<nat>, i: nat): Option<nat> {
    if i + 1 < |l| then Some(l[i + 1]) else None
  }

  /** Following `next` from `head` visits exactly `l`. */
  ghost predicate Chain(frames: seq<Frame>, head: Option<nat>, l: seq<nat>) {
    && head == FirstOf(l)
    && forall i :: 0 <= i < |l| ==> l[i] < |frames| && frames[l[i]].next == NextOf(l, i)
  }

  ghost predicate Chains(frames: seq<Frame>, heads: seq<Option<nat>>, lists: seq<seq<nat>>) {
    && |heads| == |lists| == MAX_ORDER + 1
    && forall k :: 0 <= k <= MAX_ORDER ==> Chain(frames, heads[k], lists[k])
  }

  /** The record of a first frame tells the truth about its block. Records inside a block are stale
      and unconstrained. */
  ghost predicate HeadsExact(frames: seq<Frame>, m: map<nat, Block>) {
    forall b :: b in m ==>
      && b < |frames| && frames[b].order == m[b].order
      && frames[b].flags.taken == m[b].taken && !frames[b].flags.reserved
  }

  /** A frame that was never handed over has no order. */
  ghost predicate Outside(frames: seq<Frame>, managed: set<nat>) {
    forall f :: 0 <= f < |frames| && f !in managed ==> frames[f].order == -1 && !frames[f].flags.taken
  }

  ghost predicate Rep(frames: seq<Frame>, heads: seq<Option<nat>>, st: State) {
    Chains(frames, heads, st.lists) && HeadsExact(frames, st.blocks) && Outside(frames, st.managed)
  }

  // ----- chains under record updates -----

  ghost predicate OnNoList(lists: seq<seq<nat>>, x: nat) {
    forall k :: 0 <= k < |lists| ==> x !in lists[k]
  }

  lemma NotABlockOnNoList(lists: seq<seq<nat>>, m: map<nat, Block>, x: nat)
    requires Listed(lists, m) && (x !in m || m[x].taken)
    ensures OnNoList(lists, x)
  {
    forall k | 0 <= k < |lists| ensures x !in lists[k] {
      assert ListOf(lists[k], m, k);
    }
  }

  /** Rewriting the record of a frame that is not on the list, or keeping its link. */
  lemma ChainUpdate(frames: seq<Frame>, head: Option<nat>, l: seq<nat>, x: nat, fr: Frame, frames': seq<Frame>)
    requires Chain(frames, head, l) && x < |frames| && frames' == frames[x := fr]
    requires x !in l || fr.next == frames[x].next
    ensures Chain(frames', head, l)
  {
    forall i | 0 <= i < |l| ensures l[i] < |frames'| && frames'[l[i]].next == NextOf(l, i) {
      assert l[i] in l;
    }
  }

  lemma ChainPush(frames: seq<Frame>, head: Option<nat>, l: seq<nat>, x: nat, l': seq<nat>)
    requires Chain(frames, head, l) && x < |frames| && frames[x].next == head && l' == [x] + l
    ensures Chain(frames, Some(x), l')
  {
    forall i | 0 <= i < |l'| ensures l'[i] < |frames| && frames[l'[i]].next == NextOf(l', i) {
      if i > 0 { assert l'[i] == l[i - 1]; }
    }
  }

  lemma ChainPop(frames: seq<Frame>, head: Option<nat>, l: seq<nat>, l': seq<nat>)
    requires Chain(frames, head, l) && l != [] && l' == l[1..]
    ensures head == Some(l[0]) && l[0] < |frames| && Chain(frames, frames[l[0]].next, l')
  {
    forall i | 0 <= i < |l'| ensures l'[i] < |frames| && frames[l'[i]].next == NextOf(l', i) {
      assert l'[i] == l[i + 1];
    }
  }

  /** Unlinking the element at index `i > 0` by redirecting its predecessor `p`. */
  lemma ChainUnlink(frames: seq<Frame>, head: Option<nat>, l: seq<nat>, i: nat, p: nat, frames': seq<Frame>, l': seq<nat>)
    requires Chain(frames, head, l) && NoDup(l) && 0 < i < |l| && p == l[i - 1] < |frames| && l[i] < |frames|
    requires frames' == frames[p := frames[p].(next := frames[l[i]].next)] && l' == l[..i] + l[i + 1..]
    ensures Chain(frames', head, l')
  {
    assert head == Some(l[0]) && l'[0] == l[0];
    forall j | 0 <= j < |l'| ensures l'[j] < |frames'| && frames'[l'[j]].next == NextOf(l', j) {
      if j < i - 1 {
        assert l'[j] == l[j] && l'[j + 1] == l[j + 1] && l[j] != p;
      } else if j == i - 1 {
        assert l'[j] == p && frames'[p].next == NextOf(l, i);
        assert j + 1 < |l'| ==> l'[j + 1] == l[i + 1];
      } else {
        assert l'[j] == l[j + 1] && l[j + 1] != p;
        assert j + 1 < |l'| ==> l'[j + 1] == l[j + 2];
      }
    }
  }

  lemma ChainsUpdate(frames: seq<Frame>, heads: seq<Option<nat>>, lists: seq<seq<nat>>, x: nat, fr: Frame)
    requires Chains(frames, heads, lists) && x < |frames|
    requires OnNoList(lists, x) || fr.next == frames[x].next
    ensures Chains(frames[x := fr], heads, lists)
  {
    var frames' := frames[x := fr];
    forall k | 0 <= k <= MAX_ORDER ensures Chain(frames', heads[k], lists[k]) {
      ChainUpdate(frames, heads[k], lists[k], x, fr, frames');
    }
  }

  lemma ChainsPush(frames: seq<Frame>, heads: seq<Option<nat>>, lists: seq<seq<nat>>, k: nat, x: nat, fr: Frame)
    requires Chains(frames, heads, lists) && k <= MAX_ORDER && x < |frames|
    requires OnNoList(lists, x) && fr.next == heads[k]
    ensures Chains(frames[x := fr], heads[k := Some(x)], lists[k := [x] + lists[k]])
  {
    ChainsUpdate(frames, heads, lists, x, fr);
    var frames', heads', lists' := frames[x := fr], heads[k := Some(x)], lists[k := [x] + lists[k]];
    forall j | 0 <= j <= MAX_ORDER ensures Chain(frames', heads'[j], lists'[j]) {
      assert Chain(frames', heads[j], lists[j]);
      if j == k { ChainPush(frames', heads[k], lists[k], x, lists'[k]); }
    }
  }

  lemma ChainsPop(frames: seq<Frame>, heads: seq<Option<nat>>, lists: seq<seq<nat>>, k: nat)
    requires Chains(frames, heads, lists) && k <= MAX_ORDER && lists[k] != []
    ensures heads[k] == Some(lists[k][0]) && lists[k][0] < |frames|
    ensures Chains(frames, heads[k := frames[lists[k][0]].next], lists[k := lists[k][1..]])
  {
    assert Chain(frames, heads[k], lists[k]);
    var heads', lists' := heads[k := frames[lists[k][0]].next], lists[k := lists[k][1..]];
    ChainPop(frames, heads[k], lists[k], lists'[k]);
    forall j | 0 <= j <= MAX_ORDER ensures Chain(frames, heads'[j], lists'[j]) {
      assert Chain(frames, heads[j], lists[j]);
    }
  }

  lemma ChainsUnlink(frames: seq<Frame>, heads: seq<Option<nat>>, lists: seq<seq<nat>>, k: nat, i: nat, p: nat,
                     frames': seq<Frame>, lists': seq<seq<nat>>)
    requires Chains(frames, heads, lists) && k <= MAX_ORDER && NoDup(lists[k]) && 0 < i < |lists[k]|
    requires p == lists[k][i - 1] < |frames| && lists[k][i] < |frames|
    requires forall j :: 0 <= j <= MAX_ORDER && j != k ==> p !in lists[j]
    requires frames' == frames[p := frames[p].(next := frames[lists[k][i]].next)]
    requires lists' == lists[k := lists[k][..i] + lists[k][i + 1..]]
    ensures Chains(frames', heads, lists')
  {
    forall j | 0 <= j <= MAX_ORDER ensures Chain(frames', heads[j], lists'[j]) {
      if j == k {
        ChainUnlink(frames, heads[k], lists[k], i, p, frames', lists'[k]);
      } else {
        ChainUpdate(frames, heads[j], lists[j], p, frames'[p], frames');
      }
    }
  }

  // ----- the buddy test -----

  /** The heart of merging. A free block of order `k` at `f` floats, and its buddy's record is read.
      Records inside larger blocks are stale, yet the test passes exactly when the buddy is the first
      frame of a free block of order `k` on list `k`: a managed buddy is always the first frame of
      its block, because a larger block around it would contain `f`. */
  lemma BuddyTest(frames: seq<Frame>, heads: seq<Option<nat>>, st: State, f: nat, k: nat, b: nat)
    requires Floating(st, |frames|, f, k) && k < MAX_ORDER && Rep(frames, heads, st)
    requires b == BuddyOf(f, k)
    ensures b in st.lists[k] <==>
      && b < |frames| && frames[b].order == k && !frames[b].flags.taken && !frames[b].flags.reserved
  {
    assert ListOf(st.lists[k], st.blocks, k);
    if b < |frames| && frames[b].order == k {
      BuddyIsHead(st, |frames|, f, k, b);
    }
  }

  lemma BuddyIsHead(st: State, n: nat, f: nat, k: nat, b: nat)
    requires Floating(st, n, f, k) && k < MAX_ORDER && b == BuddyOf(f, k) && b in st.managed
    ensures b in st.blocks
  {
    var m := st.blocks[f := Block(k, false)];
    assert f in m && Aligned(f, k);
    BuddyPair(f, k);
    assert Covered(m, b);
    var c :| c in m && Within(b, c, m[c].order);
    var j := m[c].order;
    if j > k {
      InsideLarger(f, k, b, c, j);
    } else {
      AlignedDown(b, k, j);
      Nested(b, j, c, j, b);
    }
  }

  /** A larger block around the buddy contains the block as well. */
  lemma InsideLarger(f: nat, k: nat, b: nat, c: nat, j: nat)
    requires Aligned(f, k) && b == BuddyOf(f, k) && Aligned(c, j) && j > k && Within(b, c, j)
    ensures Within(f, c, j)
  {
    BuddyPair(f, k);
    var lo, k1 := if b < f then b else f, k + 1;
    AlignedDown(lo, k1, k);
    Nested(lo, k1, c, j, b);
  }

  // ----- what each group of record updates does -----

  /** Putting a frame that is on no list in front of list `k`, as a free block of that order. */
  lemma PushRep(fs: seq<Frame>, hs: seq<Option<nat>>, s: State, f: nat, k: nat, fs': seq<Frame>, hs': seq<Option<nat>>,
                s': State)
    requires Chains(fs, hs, s.lists) && HeadsExact(fs, s.blocks) && Listed(s.lists, s.blocks)
    requires f !in s.blocks && k <= MAX_ORDER && f < |fs| && f in s'.managed
    requires !fs[f].flags.reserved && !fs[f].flags.taken
    requires Outside(fs[f := fs[f].(order := k)], s'.managed)
    requires fs' == fs[f := Frame(hs[k], fs[f].flags, k)] && hs' == hs[k := Some(f)]
    requires s'.lists == s.lists[k := [f] + s.lists[k]] && s'.blocks == s.blocks[f := Block(k, false)]
    ensures Rep(fs', hs', s')
  {
    NotABlockOnNoList(s.lists, s.blocks, f);
    ChainsPush(fs, hs, s.lists, k, f, fs'[f]);
    forall g | 0 <= g < |fs'| && g !in s'.managed ensures fs'[g].order == -1 && !fs'[g].flags.taken {
      assert fs[f := fs[f].(order := k)][g] == fs'[g];
    }
  }

  lemma FreshFrame(fs: seq<Frame>, s: State, f: nat, k: nat, limit: nat)
    requires HeadsExact(fs, s.blocks) && Outside(fs, s.managed) && Inv(s, |fs|)
    requires f < limit <= |fs| && Interval(f, limit) !! s.managed
    ensures f !in s.blocks && !fs[f].flags.taken && f in s.managed + Range(f, k)
    ensures Outside(fs[f := fs[f].(order := k)], s.managed + Range(f, k))
  {
    assert Within(f, f, k) && f in Range(f, k);
    assert Between(f, f, limit) && f in Interval(f, limit) && f !in s.managed;
    assert f in s.blocks ==> Within(f, f, s.blocks[f].order) && Covered(s.blocks, f);
  }

  /** One turn of `init_buddy_allocator`. */
  lemma AddRep(fs: seq<Frame>, hs: seq<Option<nat>>, s: State, f: nat, k: nat, limit: nat, fs': seq<Frame>,
               hs': seq<Option<nat>>, s': State)
    requires Rep(fs, hs, s) && Inv(s, |fs|) && f < limit <= |fs| && Interval(f, limit) !! s.managed
    requires k <= MAX_ORDER && !fs[f].flags.reserved
    requires fs' == fs[f := Frame(hs[k], fs[f].flags, k)] && hs' == hs[k := Some(f)] && s' == AddBlock(s, f, k)
    ensures Rep(fs', hs', s')
  {
    FreshFrame(fs, s, f, k, limit);
    PushRep(fs, hs, s, f, k, fs', hs', s');
  }

  ghost predicate SameFlags(fs: seq<Frame>, fs': seq<Frame>) {
    |fs'| == |fs| && forall f :: 0 <= f < |fs| ==> fs'[f].flags == fs[f].flags
  }

  function Unreserved(fr: Frame): Frame {
    fr.(flags := fr.flags.(reserved := false))
  }

  lemma UnreserveRep(fs: seq<Frame>, hs: seq<Option<nat>>, s: State, begin: nat, limit: nat, fs': seq<Frame>)
    requires Rep(fs, hs, s) && |fs'| == |fs|
    requires forall f :: 0 <= f < |fs| ==> fs'[f] == if begin <= f < limit then Unreserved(fs[f]) else fs[f]
    ensures Rep(fs', hs, s)
  {
    forall k | 0 <= k <= MAX_ORDER ensures Chain(fs', hs[k], s.lists[k]) {
      assert Chain(fs, hs[k], s.lists[k]);
    }
  }

  /** Two record arrays differ at most in their `next` fields. */
  ghost predicate SameRecords(fs: seq<Frame>, fs': seq<Frame>) {
    |fs'| == |fs| && forall f :: 0 <= f < |fs| ==> fs'[f].flags == fs[f].flags && fs'[f].order == fs[f].order
  }

  /** Unlinking `x`, the element at index `i` of list `k`, whose predecessor is `prev`. */
  lemma RemoveRep(fs: seq<Frame>, hs: seq<Option<nat>>, s: State, k: nat, i: nat, x: nat, prev: Option<nat>,
                  fs': seq<Frame>, hs': seq<Option<nat>>)
    requires Rep(fs, hs, s) && Listed(s.lists, s.blocks) && k <= MAX_ORDER
    requires i < |s.lists[k]| && s.lists[k][i] == x < |fs|
    requires prev == if i == 0 then None else Some(s.lists[k][i - 1])
    requires prev.None? ==> fs' == fs && hs' == hs[k := fs[x].next]
    requires prev.Some? ==> prev.value < |fs| && hs' == hs && fs' == fs[prev.value := fs[prev.value].(next := fs[x].next)]
    ensures Rep(fs', hs', WithoutBuddy(s, x, k)) && SameRecords(fs, fs')
  {
    hide HeadsExact, Chain, Outside;
    var l := s.lists[k];
    assert ListOf(l, s.blocks, k);
    RemoveAt(l, i);
    SameRecordsRep(fs, fs', s, x);
    if i == 0 {
      ChainsPop(fs, hs, s.lists, k);
      assert l[..0] + l[1..] == l[1..];
    } else {
      var p := l[i - 1];
      assert p in l;
      forall j | 0 <= j <= MAX_ORDER && j != k ensures p !in s.lists[j] {
        assert ListOf(s.lists[j], s.blocks, j);
      }
      ChainsUnlink(fs, hs, s.lists, k, i, p, fs', WithoutBuddy(s, x, k).lists);
    }
  }

  lemma SameRecordsRep(fs: seq<Frame>, fs': seq<Frame>, s: State, x: nat)
    requires SameRecords(fs, fs') && HeadsExact(fs, s.blocks) && Outside(fs, s.managed)
    ensures HeadsExact(fs', s.blocks - {x}) && Outside(fs', s.managed)
  {
  }

  /** Rewriting the record of a managed frame that is the first frame of no block. */
  lemma FloatingRep(fs: seq<Frame>, hs: seq<Option<nat>>, s: State, f: nat, k: nat, fr: Frame)
    requires Rep(fs, hs, s) && Floating(s, |fs|, f, k) && f < |fs|
    ensures Rep(fs[f := fr], hs, s)
  {
    FloatingManaged(s, |fs|, f, k);
    NotABlockOnNoList(s.lists, s.blocks, f);
    ChainsUpdate(fs, hs, s.lists, f, fr);
  }

  lemma FloatingManaged(s: State, n: nat, f: nat, k: nat)
    requires Floating(s, n, f, k)
    ensures k <= MAX_ORDER && f < n && f in s.managed && f !in s.blocks && Listed(s.lists, s.blocks)
  {
    var m := s.blocks[f := Block(k, false)];
    assert f in m && Within(f, f, m[f].order);
    assert Covered(m, f);
  }

  lemma DivideChains(fs: seq<Frame>, hs: seq<Option<nat>>, s: State, k: nat, j: nat, f: nat, b: nat, fs': seq<Frame>,
                     hs': seq<Option<nat>>)
    requires Chains(fs, hs, s.lists) && Listed(s.lists, s.blocks) && k == j + 1 <= MAX_ORDER && s.lists[k] != []
    requires f == s.lists[k][0] && b == Past(f, j) && b !in s.blocks && f < |fs| && b < |fs|
    requires fs' == fs[b := Frame(hs[j], fs[f].flags, j)][f := Frame(Some(b), fs[f].flags, j)]
    requires hs' == hs[k := fs[f].next][j := Some(f)]
    ensures Chains(fs', hs', Divide(s, k).lists)
  {
    assert ListOf(s.lists[k], s.blocks, k);
    assert f in s.lists[k];
    var h1, l1, m1 := hs[k := fs[f].next], s.lists[k := s.lists[k][1..]], s.blocks - {f};
    var fr := Frame(hs[j], fs[f].flags, j);
    var f2, h2, l2, m2 := fs[b := fr], h1[j := Some(b)], l1[j := [b] + l1[j]], m1[b := Block(j, false)];
    assert Chains(f2, h2, l2) && OnNoList(l2, f) by {
      ChainsPop(fs, hs, s.lists, k);
      ListedPop(s.lists, s.blocks, k);
      NotABlockOnNoList(l1, m1, b);
      ChainsPush(fs, h1, l1, j, b, fr);
      ListedPush(l1, m1, j, b);
      NotABlockOnNoList(l2, m2, f);
    }
    ChainsPush(f2, h2, l2, j, f, Frame(Some(b), fs[f].flags, j));
    assert hs' == h2[j := Some(f)];
    assert [f, b] + s.lists[j] == [f] + l2[j];
    assert Divide(s, k).lists == l2[j := [f] + l2[j]];
  }

  lemma OutsideAgain(fs: seq<Frame>, managed: set<nat>, f: nat, k: nat)
    requires Outside(fs, managed) && f < |fs| && fs[f].order == k
    ensures Outside(fs[f := fs[f].(order := k)], managed)
  {
    assert fs[f := fs[f].(order := k)] == fs;
  }

  /** The end of `merge_buddy`, when the buddy is not free. */
  lemma MergeEndRep(fs: seq<Frame>, hs: seq<Option<nat>>, s: State, f: nat, k: nat, fs': seq<Frame>, hs': seq<Option<nat>>)
    requires Rep(fs, hs, s) && Floating(s, |fs|, f, k) && k <= MAX_ORDER && f < |fs| && fs[f].order == k
    requires !fs[f].flags.taken && !fs[f].flags.reserved
    requires k == MAX_ORDER || BuddyOf(f, k) !in s.lists[k]
    requires fs' == fs[f := Frame(hs[k], fs[f].flags, k)] && hs' == hs[k := Some(f)]
    ensures Rep(fs', hs', Merge(s, f, k)) && Inv(Merge(s, f, k), |fs|)
  {
    hide Inv, Floating, Listed, Outside;
    MergeInv(s, |fs|, f, k);
    FloatingManaged(s, |fs|, f, k);
    OutsideAgain(fs, s.managed, f, k);
    PushRep(fs, hs, s, f, k, fs', hs', Merge(s, f, k));
  }

  /** The record updates of `divide_buddy`. */
  lemma DivideRep(fs: seq<Frame>, hs: seq<Option<nat>>, s: State, k: nat, f: nat, b: nat, fs': seq<Frame>,
                  hs': seq<Option<nat>>)
    requires Rep(fs, hs, s) && Inv(s, |fs|) && 0 < k <= MAX_ORDER && s.lists[k] != []
    requires f == s.lists[k][0] && b == Past(f, k - 1) && f < |fs| && b < |fs|
    requires fs' == fs[b := Frame(hs[k - 1], fs[f].flags, k - 1)][f := Frame(Some(b), fs[f].flags, k - 1)]
    requires hs' == hs[k := fs[f].next][k - 1 := Some(f)]
    ensures Rep(fs', hs', Divide(s, k)) && Inv(Divide(s, k), |fs|)
  {
    hide Tiling, HeadsExact, Chains, IsSplit;
    DivideInv(s, |fs|, k);
    DivideSplits(s, |fs|, k, f, b);
    var j := k - 1;
    DivideChains(fs, hs, s, k, j, f, b, fs', hs');
    HalvesManaged(s, |fs|, f, b, k);
    DivideHeads(fs, s.blocks, k, f, b, fs', Divide(s, k).blocks);
  }

  /** Both halves of the front block of list `k` exist, and the list head points to the lower one. */
  lemma FrontBlock(fs: seq<Frame>, hs: seq<Option<nat>>, s: State, k: nat)
    requires Rep(fs, hs, s) && Inv(s, |fs|) && k <= MAX_ORDER && s.lists[k] != []
    ensures hs[k] == Some(s.lists[k][0]) && s.lists[k][0] < |fs|
    ensures k > 0 ==> s.lists[k][0] < Past(s.lists[k][0], k - 1) < |fs|
  {
    assert Chain(fs, hs[k], s.lists[k]) && ListOf(s.lists[k], s.blocks, k);
    assert s.lists[k][0] in s.lists[k];
  }

  lemma DivideHeads(fs: seq<Frame>, m: map<nat, Block>, k: nat, f: nat, b: nat, fs': seq<Frame>, m': map<nat, Block>)
    requires HeadsExact(fs, m) && k > 0 && f in m && m[f] == Block(k, false) && f != b && f < |fs| && b < |fs|
    requires |fs'| == |fs| && fs'[f].order == fs'[b].order == k - 1 && fs'[f].flags == fs'[b].flags == fs[f].flags
    requires forall g :: 0 <= g < |fs| && g != f && g != b ==> fs'[g] == fs[g]
    requires m' == m[f := Block(k - 1, false)][b := Block(k - 1, false)]
    ensures HeadsExact(fs', m')
  {
    forall c | c in m' ensures c < |fs'| && fs'[c].order == m'[c].order && fs'[c].flags.taken == m'[c].taken
      && !fs'[c].flags.reserved
    {
      if c != f && c != b { assert c in m && m'[c] == m[c]; }
    }
  }

  lemma HalvesManaged(s: State, n: nat, f: nat, b: nat, k: nat)
    requires Inv(s, n) && k > 0 && f in s.blocks && s.blocks[f].order == k && b == Past(f, k - 1)
    ensures f in s.managed && b in s.managed
  {
    assert Within(f, f, k) && Within(b, f, k);
    assert Covered(s.blocks, f) && Covered(s.blocks, b);
  }

  /** The end of `alloc_frames`: the front block of list `k` is taken off and marked. */
  lemma TakeRep(fs: seq<Frame>, hs: seq<Option<nat>>, s: State, k: nat, f: nat, fs': seq<Frame>, hs': seq<Option<nat>>,
                s': State)
    requires Rep(fs, hs, s) && Inv(s, |fs|) && k <= MAX_ORDER && s.lists[k] != [] && f == s.lists[k][0] < |fs|
    requires fs' == fs[f := fs[f].(flags := fs[f].flags.(taken := true))] && hs' == hs[k := fs[f].next]
    requires s'.lists == s.lists[k := s.lists[k][1..]] && s'.blocks == (s.blocks - {f})[f := Block(k, true)]
    requires s'.managed == s.managed
    ensures Rep(fs', hs', s')
  {
    assert ListOf(s.lists[k], s.blocks, k);
    assert f in s.lists[k];
    ChainsPop(fs, hs, s.lists, k);
    ChainsUpdate(fs, hs', s'.lists, f, fs'[f]);
    FrontManaged(s, |fs|, k, f);
    forall b | b in s'.blocks ensures b < |fs'| && fs'[b].order == s'.blocks[b].order
      && fs'[b].flags.taken == s'.blocks[b].taken && !fs'[b].flags.reserved
    {
      assert b in s.blocks;
    }
  }

  lemma FrontManaged(s: State, n: nat, k: nat, f: nat)
    requires Inv(s, n) && f in s.blocks && s.blocks[f].order == k
    ensures f in s.managed
  {
    assert Within(f, f, k) && Covered(s.blocks, f);
  }

  /** The start of `free_frame`. */
  lemma TakeBackRep(fs: seq<Frame>, hs: seq<Option<nat>>, s: State, f: nat, fs': seq<Frame>)
    requires Rep(fs, hs, s) && Inv(s, |fs|) && f in s.blocks && s.blocks[f].taken
    requires f < |fs| && fs' == fs[f := fs[f].(flags := fs[f].flags.(taken := false))]
    ensures Rep(fs', hs, s.(blocks := s.blocks - {f}))
  {
    ChainsUpdate(fs, hs, s.lists, f, fs'[f]);
  }

  /** The record of a used block. */
  lemma UsedRecord(fs: seq<Frame>, hs: seq<Option<nat>>, s: State, f: nat)
    requires Rep(fs, hs, s) && Inv(s, |fs|) && f in Used(s.blocks)
    ensures f in s.blocks && s.blocks[f].taken && Used(s.blocks)[f] == s.blocks[f].order <= MAX_ORDER
    ensures |s.lists| == MAX_ORDER + 1 && f < |fs| && fs[f].order == s.blocks[f].order && !fs[f].flags.reserved
  {
  }

  function AddressOf(frame: Option<nat>): nat {
    match frame case None => INVALID_ADDRESS case Some(f) => f * PAGE_SIZE
  }

  lemma DivideDownStep(s: State, k: nat, j: nat, order: nat)
    requires order < k <= MAX_ORDER && j == k - 1 && |s.lists| == MAX_ORDER + 1 && s.lists[k] != []
    ensures Divide(s, k).lists[j] != [] && DivideDown(Divide(s, k), j, order) == DivideDown(s, k, order)
  {
  }

  /** What a call of `alloc_frames` comes to; a frame address is never mistaken for the failure value. */
  lemma AllocOutcome(s: State, n: nat, order: nat)
    requires Inv(s, n) && n <= FRAME_LIMIT && order <= MAX_ORDER
    ensures Inv(Alloc(s, order).0, n)
    ensures Alloc(s, order).1.Some? <==> CanServe(s.blocks, order)
    ensures Alloc(s, order).1.None? ==> Alloc(s, order).0 == s
    ensures var r := Alloc(s, order).1;
      r.Some? ==>
        && AddressOf(r) != INVALID_ADDRESS && AddressOf(r) / PAGE_SIZE == r.value
        && AddressOf(r) % PAGE_SIZE == 0 && AddressOf(r) % SizeOf(order) == 0
        && HandsOut(s, Alloc(s, order).0, n, r.value, order)
  {
    AllocInv(s, n, order);
    AllocExact(s, n, order);
    if Alloc(s, order).1.Some? {
      var f := Alloc(s, order).1.value;
      assert f < n;
      AddressAligned(f, order);
    }
  }

  /** The bytes of a block. */
  function SizeOf(order: nat): (b: nat)
    ensures b > 0
  {
    Pow2(order) * PAGE_SIZE
  }

  lemma AddressAligned(f: nat, order: nat)
    requires Aligned(f, order)
    ensures f * PAGE_SIZE % SizeOf(order) == 0
  {
    AlignedExact(f, order);
    var q, p := f / Pow2(order), Pow2(order);
    assert f == q * p;
    assert f * PAGE_SIZE == q * (p * PAGE_SIZE);
    MultipleMod(q, p * PAGE_SIZE);
  }

  // ----- the allocator -----

  /** No order from `order` to 11 gives an aligned block at `begin` that ends before the limit. */
  ghost predicate Greatest(begin: nat, limit: nat, order: nat) {
    begin < limit ==> forall j :: order < j <= 11 && Aligned(begin, j) ==> begin + Pow2(j) >= limit
  }

  class FrameAllocator {
    const frames: array<Frame>
    const freeRegion: array<Option<nat>>
    ghost var st: State

    ghost predicate Linked()
      reads this, frames, freeRegion
    {
      && freeRegion.Length == MAX_ORDER + 1 && frames.Length <= FRAME_LIMIT
      && Rep(frames[..], freeRegion[..], st)
    }

    ghost predicate Valid()
      reads this, frames, freeRegion
    {
      Linked() && Inv(st, frames.Length)
    }

    lemma InvOfValid()
      requires Valid()
      ensures Inv(st, frames.Length)
    {
    }

    /** `init_frames`: every frame starts reserved, without order, on no list. */
    constructor (limit: nat)
      requires limit / PAGE_SIZE <= FRAME_LIMIT
      ensures Valid() && fresh(frames) && fresh(freeRegion)
      ensures frames.Length == limit / PAGE_SIZE && st == Empty
      ensures forall f :: 0 <= f < frames.Length ==> frames[f].flags == Flags(false, true, false)
    {
      frames := new Frame[limit / PAGE_SIZE](_ => Frame(None, Flags(false, false, false), 0));
      freeRegion := new Option<nat>[MAX_ORDER + 1](_ => None);
      st := Empty;
      new;
      for i := 0 to frames.Length
        invariant forall f :: 0 <= f < i ==> frames[f] == Frame(None, Flags(false, true, false), -1)
        invariant forall k :: 0 <= k <= MAX_ORDER ==> freeRegion[k] == None
        invariant st == Empty
      {
        frames[i] := Frame(None, Flags(false, true, false), -1);
      }
      EmptyInv(frames.Length);
      assert forall k :: 0 <= k <= MAX_ORDER ==> Empty.lists[k] == [];
    }

    /** `unreserve_frame_region`. */
    method UnreserveFrameRegion(begin: nat, limit: nat)
      requires Valid() && limit <= frames.Length
      modifies frames
      ensures Valid()
      ensures forall f :: 0 <= f < frames.Length ==>
        frames[f] == if begin <= f < limit then Unreserved(old(frames[f])) else old(frames[f])
    {
      if begin >= limit { return; }
      for f := begin to limit
        invariant forall g :: 0 <= g < frames.Length ==>
          frames[g] == if begin <= g < f then Unreserved(old(frames[g])) else old(frames[g])
      {
        frames[f] := Unreserved(frames[f]);
      }
      UnreserveRep(old(frames[..]), freeRegion[..], st, begin, limit, frames[..]);
    }

    /** `get_max_order`. */
    static method GetMaxOrder(begin: nat, limit: nat) returns (order: nat)
      ensures order == MaxOrder(begin, limit, MAX_ORDER) <= 11 && Greatest(begin, limit, order)
    {
      if begin < limit { MaxOrderExact(begin, limit, MAX_ORDER); }
      order := MAX_ORDER;
      while !(Aligned(begin, order) && begin + Pow2(order) < limit)
        invariant order <= MAX_ORDER
        invariant MaxOrder(begin, limit, order) == MaxOrder(begin, limit, MAX_ORDER)
        decreases order
      {
        if order == 0 { return; }
        order := order - 1;
      }
    }

    /** `init_buddy_allocator`. */
    method InitBuddyAllocator(begin: nat, limit: nat)
      requires Valid() && limit <= frames.Length && Interval(begin, limit) !! st.managed
      requires forall f :: begin <= f < limit ==> !frames[f].flags.reserved
      modifies this, frames, freeRegion
      ensures Valid() && st == HandOver(old(st), begin, limit)
      ensures forall f :: 0 <= f < frames.Length ==> frames[f].flags == old(frames[f].flags)
    {
      hide Greatest;
      var f := begin;
      while f < limit
        invariant begin <= f
        invariant Valid() && Interval(f, limit) !! st.managed
        invariant HandOver(st, f, limit) == HandOver(old(st), begin, limit)
        invariant forall g :: 0 <= g < frames.Length ==> frames[g].flags == old(frames[g].flags)
        decreases limit - f
      {
        var order := GetMaxOrder(f, limit);
        ghost var fs, hs := frames[..], freeRegion[..];

        frames[f] := frames[f].(order := order);
        frames[f] := frames[f].(next := freeRegion[order]);
        freeRegion[order] := Some(f);

        assert frames[..] == fs[f := Frame(hs[order], fs[f].flags, order)];
        ghost var k, next, s' := HandOverTurn(st, frames.Length, f, limit);
        AddRep(fs, hs, st, f, order, limit, frames[..], freeRegion[..], s');
        st := s';
        f := Past(f, order);
      }
    }

    /** The search loop of `remove_frame_from_list`: walk list `k` up to `frame`. */
    method FindOnList(frame: nat, k: nat, ghost l: seq<nat>) returns (cur: Option<nat>, prev: Option<nat>, ghost i: nat)
      requires k < freeRegion.Length && Chain(frames[..], freeRegion[k], l)
      ensures i <= |l| && frame !in l[..i]
      ensures cur == if i < |l| then Some(frame) else None
      ensures i < |l| ==> l[i] == frame
      ensures prev == if i == 0 then None else Some(l[i - 1])
      ensures cur.Some? <==> frame in l
    {
      assert l == l[..|l|];
      cur, prev, i := freeRegion[k], None, 0;
      while cur.Some?
        invariant 0 <= i <= |l|
        invariant cur == if i < |l| then Some(l[i]) else None
        invariant prev == if i == 0 then None else Some(l[i - 1])
        invariant frame !in l[..i]
        decreases |l| - i
      {
        if cur.value == frame { break; }
        assert frames[..][l[i]].next == NextOf(l, i);
        prev := cur;
        cur := frames[cur.value].next;
        i := i + 1;
      }
    }

    /** `remove_frame_from_list`; `found` is false where the source panics. */
    method RemoveFrameFromList(frame: nat) returns (found: bool)
      requires Linked() && Listed(st.lists, st.blocks) && frame < frames.Length
      requires 0 <= frames[frame].order <= MAX_ORDER
      modifies this, frames, freeRegion
      ensures found <==> frame in old(st).lists[old(frames[frame].order)]
      ensures !found ==> st == old(st)
      ensures found ==> st == WithoutBuddy(old(st), frame, old(frames[frame].order))
      ensures Linked() && SameRecords(old(frames[..]), frames[..])
    {
      ghost var fs, hs := frames[..], freeRegion[..];
      var k := frames[frame].order;
      ghost var l := st.lists[k];
      assert Chain(fs, hs[k], l);
      var cur, prev, i := FindOnList(frame, k, l);
      found := cur.Some?;
      if !found { return; }
      assert prev.Some? ==> prev.value == l[i - 1] < |fs|;
      if prev.Some? {
        frames[prev.value] := frames[prev.value].(next := frames[cur.value].next);
      } else {
        freeRegion[k] := frames[cur.value].next;
      }
      RemoveRep(fs, hs, st, k, i, frame, prev, frames[..], freeRegion[..]);
      st := WithoutBuddy(st, frame, k);
    }

    /** `divide_buddy`. */
    method DivideBuddy(order: nat)
      requires Valid() && 0 < order <= MAX_ORDER && st.lists[order] != []
      modifies this, frames, freeRegion
      ensures Valid() && st == Divide(old(st), order)
    {
      ghost var fs, hs := frames[..], freeRegion[..];
      FrontBlock(fs, hs, st, order);
      var frame := freeRegion[order].value;
      var buddy := Past(frame, order - 1);
      var flags := frames[frame].flags;

      freeRegion[order] := frames[frame].next;
      frames[buddy] := Frame(freeRegion[order - 1], flags, order - 1);
      frames[frame] := Frame(Some(buddy), flags, order - 1);
      freeRegion[order - 1] := Some(frame);

      DivideRep(fs, hs, st, order, frame, buddy, frames[..], freeRegion[..]);
      st := Divide(st, order);
    }

    /** A free block of order `k` at `frame` is on no list yet, and its record says so. */
    ghost predicate Pending(frame: nat, k: nat)
      reads this, frames, freeRegion
    {
      && Linked() && Floating(st, frames.Length, frame, k)
      && k <= MAX_ORDER && frame < frames.Length && frames[frame].order == k
      && !frames[frame].flags.taken && !frames[frame].flags.reserved
    }

    /** One turn of the loop of `merge_buddy`; the panic of `remove_frame_from_list` is never reached. */
    method TryMerge(frame: nat, ghost k: nat) returns (merged: bool, lower: nat, ghost k': nat)
      requires Pending(frame, k) && k < MAX_ORDER
      modifies this, frames, freeRegion
      ensures Pending(lower, k') && SameFlags(old(frames[..]), frames[..])
      ensures merged ==> k' == k + 1
      ensures !merged ==> lower == frame && k' == k && BuddyOf(frame, k) !in st.lists[k]
      ensures Merge(st, lower, k') == Merge(old(st), frame, k)
    {
      hide Floating, Rep, WithoutBuddy;
      merged, lower, k' := false, frame, k;
      FloatingManaged(st, frames.Length, frame, k);
      var buddy := BuddyOf(frame, frames[frame].order);
      BuddyTest(frames[..], freeRegion[..], st, frame, k, buddy);
      if buddy >= frames.Length { return; }
      if frames[buddy].order != frames[frame].order { return; }
      if frames[buddy].flags.taken || frames[buddy].flags.reserved { return; }

      ghost var s, lo := st, Lower(frame, buddy);
      k' := k + 1;
      var found := RemoveFrameFromList(buddy);
      assert found;
      MergeStep(s, frames.Length, frame, k, buddy, st, lo, k');
      if buddy < frame { lower := buddy; }
      ghost var fs := frames[..];
      frames[lower] := frames[lower].(order := frames[lower].order + 1);
      assert frames[..] == fs[lower := frames[lower]];
      FloatingRep(fs, freeRegion[..], st, lower, k', frames[lower]);
      merged := true;
    }

    /** `merge_buddy`. */
    method MergeBuddy(pfn: nat, ghost k: nat)
      requires Pending(pfn, k)
      modifies this, frames, freeRegion
      ensures Valid() && st == Merge(old(st), pfn, k) && SameFlags(old(frames[..]), frames[..])
    {
      hide Rep, Merge, Inv, Tiling;
      var frame: nat, merged := pfn, true;
      ghost var j: nat := k;
      while merged && frames[frame].order < MAX_ORDER
        invariant Pending(frame, j) && Merge(st, frame, j) == Merge(old(st), pfn, k)
        invariant !merged ==> j == MAX_ORDER || BuddyOf(frame, j) !in st.lists[j]
        invariant SameFlags(old(frames[..]), frames[..])
        decreases merged, MAX_ORDER - j
      {
        merged, frame, j := TryMerge(frame, j);
      }
      ghost var fs, hs, s := frames[..], freeRegion[..], st;
      var order := frames[frame].order;
      frames[frame] := frames[frame].(next := freeRegion[order]);
      freeRegion[order] := Some(frame);
      assert frames[..] == fs[frame := Frame(hs[order], fs[frame].flags, order)];
      MergeEndRep(fs, hs, s, frame, j, frames[..], freeRegion[..]);
      st := Merge(s, frame, j);
    }

    /** The first loop of `alloc_frames`. */
    method FindOrder(order: nat) returns (current: nat)
      requires Valid() && order <= MAX_ORDER
      ensures current == FirstOrder(st.lists, order)
      ensures freeRegion[current].None? <==> st.lists[current] == []
    {
      current := order;
      while current < MAX_ORDER && freeRegion[current].None?
        invariant order <= current <= MAX_ORDER
        invariant FirstOrder(st.lists, current) == FirstOrder(st.lists, order)
      {
        assert Chain(frames[..], freeRegion[..][current], st.lists[current]);
        current := current + 1;
      }
      assert Chain(frames[..], freeRegion[..][current], st.lists[current]);
    }

    /** The end of `alloc_frames`. */
    method TakeFront(order: nat) returns (frame: nat)
      requires Valid() && order <= MAX_ORDER && st.lists[order] != []
      modifies this, frames, freeRegion
      ensures Linked() && frame == old(st).lists[order][0]
      ensures var p := Popped(old(st), order); st == p.(blocks := p.blocks[frame := Block(order, true)])
    {
      ghost var fs, hs, s := frames[..], freeRegion[..], st;
      FrontBlock(fs, hs, s, order);
      frame := freeRegion[order].value;
      freeRegion[order] := frames[frame].next;
      frames[frame] := frames[frame].(flags := frames[frame].flags.(taken := true));
      st := Popped(s, order).(blocks := Popped(s, order).blocks[frame := Block(order, true)]);
      TakeRep(fs, hs, s, order, frame, frames[..], freeRegion[..], st);
    }

    /** `alloc_frames`. */
    method AllocFrames(order: nat) returns (addr: nat)
      requires Valid() && order <= MAX_ORDER
      modifies this, frames, freeRegion
      ensures Valid() && st == Alloc(old(st), order).0 && addr == AddressOf(Alloc(old(st), order).1)
      ensures addr == INVALID_ADDRESS <==> !CanServe(old(st).blocks, order)
      ensures addr == INVALID_ADDRESS ==> st == old(st)
      ensures addr != INVALID_ADDRESS ==> addr % PAGE_SIZE == 0 && addr % SizeOf(order) == 0
      ensures addr != INVALID_ADDRESS ==> HandsOut(old(st), st, frames.Length, addr / PAGE_SIZE, order)
    {
      InvOfValid();
      AllocOutcome(st, frames.Length, order);
      hide Inv, HandsOut, CanServe, DivideDown, FirstOrder, SizeOf;
      var current := FindOrder(order);
      if freeRegion[current].None? {
        addr := INVALID_ADDRESS;
      } else {
        DivideUntil(current, order);
        var frame := TakeFront(order);
        addr := frame * PAGE_SIZE;
      }
    }

    /** The second loop of `alloc_frames`. */
    method DivideUntil(from: nat, order: nat)
      requires Valid() && order <= from <= MAX_ORDER && st.lists[from] != []
      modifies this, frames, freeRegion
      ensures Valid() && st == DivideDown(old(st), from, order)
    {
      var current: nat := from;
      ghost var s := st;
      while current != order
        invariant Valid() && order <= current <= MAX_ORDER && st.lists[current] != []
        invariant DivideDown(st, current, order) == DivideDown(s, from, order)
      {
        hide Inv, Rep;
        DivideDownStep(st, current, current - 1, order);
        DivideBuddy(current);
        current := current - 1;
      }
    }

    /** `free_frame`, on the first frame of a block in use. */
    method FreeFrame(addr: nat)
      requires Valid() && addr / PAGE_SIZE in Used(st.blocks)
      modifies this, frames, freeRegion
      ensures Valid() && st == Free(old(st), addr / PAGE_SIZE)
      ensures Used(st.blocks) == Used(old(st).blocks) - {addr / PAGE_SIZE}
      ensures var r := Range(addr / PAGE_SIZE, Used(old(st).blocks)[addr / PAGE_SIZE]);
        r !! FreeFrames(old(st).blocks) && FreeFrames(st.blocks) == FreeFrames(old(st).blocks) + r
    {
      var pfn := addr / PAGE_SIZE;
      InvOfValid();
      UsedRecord(frames[..], freeRegion[..], st, pfn);
      FreeExact(st, frames.Length, pfn);
      hide Inv, Rep, Used, FreeFrames, Range, Free;
      FreeAt(pfn);
    }

    /** `free_frame` by frame number. */
    method FreeAt(pfn: nat)
      requires Valid() && pfn in st.blocks && st.blocks[pfn].taken
      modifies this, frames, freeRegion
      ensures Valid() && st == Free(old(st), pfn)
    {
      ghost var fs, s, k := frames[..], st, st.blocks[pfn].order;
      TakenBackFloats(s, frames.Length, pfn);
      frames[pfn] := frames[pfn].(flags := frames[pfn].flags.(taken := false));
      st := s.(blocks := s.blocks - {pfn});
      TakeBackRep(fs, freeRegion[..], s, pfn, frames[..]);
      hide Inv, Rep, Floating, Merge;
      MergeBuddy(pfn, k);
    }
  }
}
