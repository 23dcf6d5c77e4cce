/** Handing ranges to the buddy allocator, and whole runs of hand-overs, allocations and releases. */
module BuddyRuns {
  import opened Dyadic
  import opened Machine
  import opened Buddy
  import opened BuddyProofs
  import opened BuddyTheorems

  // ----- hand-over -----

  /** The largest aligned block at `begin` that ends strictly before `limit`, or a single frame. */
  ghost predicate IsMaxOrder(begin: nat, limit: nat, order: nat, k: nat) {
    && k <= order && Aligned(begin, k) && begin + Pow2(k) <= limit
    && (k > 0 ==> begin + Pow2(k) < limit)
    && (forall j :: k < j <= order && Aligned(begin, j) ==> begin + Pow2(j) >= limit)
  }

  lemma {:induction false} MaxOrderExact(begin: nat, limit: nat, order: nat)
    requires begin < limit
    ensures IsMaxOrder(begin, limit, order, MaxOrder(begin, limit, order))
  {
    if !(Aligned(begin, order) && begin + Pow2(order) < limit) && order > 0 {
      MaxOrderExact(begin, limit, order - 1);
    }
  }

  lemma AddShape(m: map<nat, Block>, managed: set<nat>, n: nat, f: nat, k: nat)
    requires Tiling(m, managed, n) && k <= MAX_ORDER && Aligned(f, k) && f + Pow2(k) <= n
    requires Range(f, k) !! managed
    ensures f !in m && Shape(m[f := Block(k, false)], n)
  {
    assert Within(f, f, k) && f in Range(f, k);
    forall b | b in m
      ensures b != f && (b < f ==> b + Pow2(m[b].order) <= f) && (f < b ==> f + Pow2(k) <= b)
    {
      assert Within(b, b, m[b].order) && Covered(m, b);
      assert f !in managed && !Covered(m, f) && !Within(f, b, m[b].order);
      assert b in managed && b !in Range(f, k) && !Within(b, f, k);
    }
    var m' := m[f := Block(k, false)];
    forall b, c | b in m' && c in m' && b < c ensures b + Pow2(m'[b].order) <= c {
    }
  }

  lemma AddCovers(m: map<nat, Block>, managed: set<nat>, f: nat, k: nat)
    requires Covers(m, managed) && f !in m
    ensures Covers(m[f := Block(k, false)], managed + Range(f, k))
    ensures FreeFrames(m[f := Block(k, false)]) == FreeFrames(m) + Range(f, k)
    ensures Used(m[f := Block(k, false)]) == Used(m)
  {
    var m' := m[f := Block(k, false)];
    forall g, c | c in m && Within(g, c, m[c].order)
      ensures Covered(m', g) && (!m[c].taken ==> g in FreeFrames(m'))
    {
      assert Within(g, c, m'[c].order);
    }
    forall g | Within(g, f, k) ensures Covered(m', g) && g in FreeFrames(m') {
      assert Within(g, f, m'[f].order);
    }
    forall g, c | c in m' && Within(g, c, m'[c].order)
      ensures (Covered(m, g) || g in Range(f, k)) && (!m'[c].taken ==> g in FreeFrames(m) + Range(f, k))
    {
      if c != f { assert Within(g, c, m[c].order); }
    }
  }

  lemma AddBlockInv(st: State, n: nat, f: nat, k: nat)
    requires Inv(st, n) && k <= MAX_ORDER && Aligned(f, k) && f + Pow2(k) <= n
    requires Range(f, k) !! st.managed
    ensures f !in st.blocks && Inv(AddBlock(st, f, k), n)
    ensures FreeFrames(AddBlock(st, f, k).blocks) == FreeFrames(st.blocks) + Range(f, k)
    ensures Used(AddBlock(st, f, k).blocks) == Used(st.blocks)
  {
    AddShape(st.blocks, st.managed, n, f, k);
    AddCovers(st.blocks, st.managed, f, k);
    ListedPush(st.lists, st.blocks, k, f);
  }

  lemma IntervalCut(begin: nat, k: nat, limit: nat)
    requires begin + Pow2(k) <= limit
    ensures Interval(begin, limit) == Range(begin, k) + Interval(begin + Pow2(k), limit)
    ensures Range(begin, k) !! Interval(begin + Pow2(k), limit)
  {
    forall f ensures f in Interval(begin, limit) <==> f in Range(begin, k) + Interval(begin + Pow2(k), limit) {
      if f in Interval(begin, limit) { assert Within(f, begin, k) || Between(f, begin + Pow2(k), limit); }
    }
  }

  /** `r` is `st` with the range [begin, limit) cut into further free blocks. */
  ghost predicate HandedOver(st: State, r: State, n: nat, begin: nat, limit: nat) {
    && Inv(r, n)
    && r.managed == st.managed + Interval(begin, limit)
    && FreeFrames(r.blocks) == FreeFrames(st.blocks) + Interval(begin, limit)
    && Used(r.blocks) == Used(st.blocks)
  }

  lemma HandedOverStep(st: State, st': State, r: State, n: nat, begin: nat, k: nat, next: nat, limit: nat)
    requires begin < next == Past(begin, k) <= limit && HandedOver(st', r, n, next, limit)
    requires st'.managed == st.managed + Range(begin, k)
    requires FreeFrames(st'.blocks) == FreeFrames(st.blocks) + Range(begin, k) && Used(st'.blocks) == Used(st.blocks)
    ensures HandedOver(st, r, n, begin, limit)
  {
    hide Inv, FreeFrames, Used, Interval, Range;
    IntervalCut(begin, k, limit);
  }

  lemma HandOverUnfold(st: State, begin: nat, limit: nat, k: nat, next: nat, st': State)
    requires |st.lists| == MAX_ORDER + 1 && begin < limit && k == MaxOrder(begin, limit, MAX_ORDER)
    requires next == Past(begin, k) && st' == AddBlock(st, begin, k)
    ensures HandOver(st, begin, limit) == HandOver(st', next, limit)
  {
  }

  lemma AddInRange(st: State, n: nat, begin: nat, limit: nat, k: nat, next: nat, st': State)
    requires Inv(st, n) && limit <= n && Interval(begin, limit) !! st.managed
    requires IsMaxOrder(begin, limit, MAX_ORDER, k) && next == Past(begin, k) && st' == AddBlock(st, begin, k)
    ensures Inv(st', n) && Interval(next, limit) !! st'.managed
    ensures FreeFrames(st'.blocks) == FreeFrames(st.blocks) + Range(begin, k) && Used(st'.blocks) == Used(st.blocks)
  {
    IntervalCut(begin, k, limit);
    AddBlockInv(st, n, begin, k);
  }

  /** One turn of the hand-over loop. */
  lemma HandOverTurn(st: State, n: nat, begin: nat, limit: nat) returns (k: nat, next: nat, st': State)
    requires Inv(st, n) && begin < limit <= n && Interval(begin, limit) !! st.managed
    ensures k == MaxOrder(begin, limit, MAX_ORDER) && st' == AddBlock(st, begin, k)
    ensures begin < next == Past(begin, k) <= limit
    ensures FreeFrames(st'.blocks) == FreeFrames(st.blocks) + Range(begin, k) && Used(st'.blocks) == Used(st.blocks)
    ensures Inv(st', n) && Interval(next, limit) !! st'.managed
    ensures HandOver(st, begin, limit) == HandOver(st', next, limit)
  {
    k := MaxOrder(begin, limit, MAX_ORDER);
    next := Past(begin, k);
    st' := AddBlock(st, begin, k);
    HandOverUnfold(st, begin, limit, k, next, st');
    MaxOrderExact(begin, limit, MAX_ORDER);
    AddInRange(st, n, begin, limit, k, next, st');
  }

  lemma {:induction false} HandOverLoop(st: State, n: nat, begin: nat, limit: nat) returns (r: State)
    requires Inv(st, n) && limit <= n && Interval(begin, limit) !! st.managed
    ensures r == HandOver(st, begin, limit)
    ensures HandedOver(st, r, n, begin, limit)
    decreases limit - begin
  {
    if begin < limit {
      var k, next, st' := HandOverTurn(st, n, begin, limit);
      r := HandOverLoop(st', n, next, limit);
      HandedOverStep(st, st', r, n, begin, k, next, limit);
    } else {
      r := st;
      assert Interval(begin, limit) == {};
    }
  }

  /** `init_buddy_allocator` cuts the range into aligned blocks that tile it exactly: the invariant
      still holds, and exactly the frames of the range become managed and free. */
  lemma HandOverExact(st: State, n: nat, begin: nat, limit: nat)
    requires Inv(st, n) && limit <= n && Interval(begin, limit) !! st.managed
    ensures HandedOver(st, HandOver(st, begin, limit), n, begin, limit)
  {
    var r := HandOverLoop(st, n, begin, limit);
  }

  // ----- which free pairs a hand-over creates -----

  const Empty: State := State([[], [], [], [], [], [], [], [], [], [], [], []], map[], {})

  lemma EmptyInv(n: nat)
    ensures Inv(Empty, n) && FreeFrames(Empty.blocks) == {} && Used(Empty.blocks) == map[]
  {
  }

  /** The two last frames of a range. */
  ghost predicate LastTwo(b: nat, k: nat, limit: nat) {
    k == 0 && (b == limit - 1 || b == limit - 2) && limit % 2 == 0
  }

  /** `b` is one of the block of order `k` at `f` and its buddy, and the buddy is free. */
  ghost predicate JoinsFree(st: State, b: nat, k: nat, f: nat) {
    && k < MAX_ORDER && k < |st.lists| && BuddyOf(f, k) in st.lists[k]
    && (b == f || b == BuddyOf(f, k))
  }

  /** The pairs of free buddies after handing over a non-empty range: those from before; the last two
      frames of the range, if its end is even; and what its first block, of order `k0`, and its last
      frame form with free blocks outside. */
  ghost predicate PairAfter(st: State, begin: nat, limit: nat, k0: nat, b: nat, k: nat) {
    || FreePair(st, b, k)
    || (LastTwo(b, k, limit) && begin + 2 <= limit)
    || (k == k0 && JoinsFree(st, b, k, begin))
    || (limit > 0 && k == 0 && JoinsFree(st, b, k, limit - 1))
  }

  lemma FreeBlockAt(st: State, n: nat, c: nat, k: nat)
    requires Inv(st, n) && k <= MAX_ORDER && c in st.lists[k]
    ensures Aligned(c, k) && forall f :: c <= f < c + Pow2(k) ==> f in st.managed
  {
    assert ListOf(st.lists[k], st.blocks, k);
    assert c in st.blocks && st.blocks[c] == Block(k, false);
    forall f | c <= f < c + Pow2(k) ensures f in st.managed {
      assert Within(f, c, st.blocks[c].order) && Covered(st.blocks, f);
    }
  }

  /** Adding a block adds the pair that it forms, and no other. */
  lemma AddPairs(st: State, begin: nat, k0: nat, b: nat, k: nat)
    requires |st.lists| == MAX_ORDER + 1 && k0 <= MAX_ORDER && Aligned(begin, k0)
    requires forall c :: c in st.lists[k0] ==> Aligned(c, k0)
    ensures FreePair(AddBlock(st, begin, k0), b, k) <==> FreePair(st, b, k) || (k == k0 && JoinsFree(st, b, k, begin))
  {
    BuddyPair(begin, k0);
    if k == k0 < MAX_ORDER && b in st.lists[k0] { BuddyPair(b, k0); }
  }

  /** A free block outside a range that is the buddy of a block at the begin of its rest lies right
      behind the range. */
  lemma OutsideBuddy(st: State, n: nat, begin: nat, next: nat, limit: nat, k: nat)
    requires Inv(st, n) && begin < next < limit && Interval(begin, limit) !! st.managed
    requires k < MAX_ORDER && Aligned(next, k) && Past(next, k) <= limit && (k > 0 ==> Past(next, k) < limit)
    requires BuddyOf(next, k) in st.lists[k]
    ensures k == 0 && next == limit - 1
  {
    var c, f: nat := BuddyOf(next, k), next - 1;
    BuddyPair(next, k);
    FreeBlockAt(st, n, c, k);
    NotManaged(st, begin, limit, f);
    if begin <= c < limit { NotManaged(st, begin, limit, c); }
  }

  lemma NotManaged(st: State, begin: nat, limit: nat, f: nat)
    requires Interval(begin, limit) !! st.managed && begin <= f < limit
    ensures f !in st.managed
  {
    assert Between(f, begin, limit) && f in Interval(begin, limit);
  }

  /** Two neighbouring blocks of a range are buddies only as its last two frames. */
  lemma InsideBuddy(begin: nat, next: nat, limit: nat, k: nat)
    requires IsMaxOrder(begin, limit, MAX_ORDER, k) && next == Past(begin, k) && k < MAX_ORDER
    requires Aligned(next, k) && BuddyOf(next, k) == begin && Past(next, k) <= limit && (k > 0 ==> Past(next, k) < limit)
    ensures k == 0 && limit == begin + 2 && limit % 2 == 0
  {
    hide Pow2, Aligned, BuddyOf;
    var k1 := k + 1;
    BuddyPair(next, k);
    assert Aligned(begin, k1);
    DoublePow(k, k1);
    AlignedDown(begin, k1, 1);
    AlignedEven(begin);
  }

  lemma DoublePow(k: nat, k1: nat)
    requires k1 == k + 1
    ensures Pow2(k1) == 2 * Pow2(k) && Pow2(0) == 1
  {
  }

  lemma AlignedEven(s: nat)
    ensures Aligned(s, 1) <==> s % 2 == 0
  {
  }

  lemma TailTurn(begin: nat, limit: nat, k: nat)
    requires limit % 2 == 0 && begin + 2 <= limit && IsMaxOrder(begin, limit, MAX_ORDER, k)
    ensures Past(begin, k) + 2 <= limit || (k == 0 && begin == limit - 2)
  {
    if k > 0 {
      var h := Pow2(k - 1);
      assert Pow2(k) == 2 * h && begin % 2 == 0;
    }
  }

  lemma EvenBuddy(b: nat)
    ensures BuddyOf(b, 0) == if b % 2 == 0 then b + 1 else b - 1
  {
    BuddyPair(b, 0);
    var lo := if BuddyOf(b, 0) < b then BuddyOf(b, 0) else b;
    assert Aligned(lo, 1) && lo % 2 == 0;
  }

  lemma ListsAfterAdd(st: State, begin: nat, k0: nat, c: nat, k: nat)
    requires |st.lists| == MAX_ORDER + 1 && k0 <= MAX_ORDER && k <= MAX_ORDER
    ensures c in AddBlock(st, begin, k0).lists[k] <==> c in st.lists[k] || (k == k0 && c == begin)
  {
  }

  /** The step of the induction: what the rest of the range adds to the state with the first block. */
  lemma PairStep(st: State, n: nat, begin: nat, limit: nat, k0: nat, next: nat, k1: nat, st': State, b: nat, k: nat)
    requires Inv(st, n) && Interval(begin, limit) !! st.managed && next < limit
    requires IsMaxOrder(begin, limit, MAX_ORDER, k0) && next == Past(begin, k0) && st' == AddBlock(st, begin, k0)
    requires IsMaxOrder(next, limit, MAX_ORDER, k1)
    ensures PairAfter(st', next, limit, k1, b, k) <==> PairAfter(st, begin, limit, k0, b, k)
  {
    FreeListAligned(st, n, k0);
    AddPairs(st, begin, k0, b, k);
    EvenBuddy(limit - 1);
    if k == k1 && JoinsFree(st', b, k, next) {
      ListsAfterAdd(st, begin, k0, BuddyOf(next, k), k);
      if BuddyOf(next, k) in st.lists[k] {
        OutsideBuddy(st, n, begin, next, limit, k);
      } else {
        InsideBuddy(begin, next, limit, k);
      }
    }
    ListsAfterAdd(st, begin, k0, BuddyOf(limit - 1, 0), 0);
    if LastTwo(b, k, limit) && begin + 2 <= limit && next + 2 > limit {
      TailTurn(begin, limit, k0);
    }
  }

  lemma FreeListAligned(st: State, n: nat, k: nat)
    requires Inv(st, n) && k <= MAX_ORDER
    ensures forall c :: c in st.lists[k] ==> Aligned(c, k)
  {
    forall c | c in st.lists[k] ensures Aligned(c, k) { FreeBlockAt(st, n, c, k); }
  }

  lemma PairLast(st: State, n: nat, begin: nat, limit: nat, k0: nat, b: nat, k: nat)
    requires Inv(st, n) && IsMaxOrder(begin, limit, MAX_ORDER, k0) && Past(begin, k0) == limit
    ensures FreePair(AddBlock(st, begin, k0), b, k) <==> PairAfter(st, begin, limit, k0, b, k)
  {
    FreeListAligned(st, n, k0);
    AddPairs(st, begin, k0, b, k);
  }

  /** Which pairs of free buddies there are after a hand-over, in any state. */
  lemma {:induction false} HandOverPairsExact(st: State, n: nat, begin: nat, limit: nat, b: nat, k: nat)
    requires Inv(st, n) && begin < limit <= n && Interval(begin, limit) !! st.managed
    ensures FreePair(HandOver(st, begin, limit), b, k) <==>
            PairAfter(st, begin, limit, MaxOrder(begin, limit, MAX_ORDER), b, k)
    decreases limit - begin
  {
    var k0, next, st' := HandOverTurn(st, n, begin, limit);
    MaxOrderExact(begin, limit, MAX_ORDER);
    if next < limit {
      var k1 := MaxOrder(next, limit, MAX_ORDER);
      MaxOrderExact(next, limit, MAX_ORDER);
      HandOverPairsExact(st', n, next, limit, b, k);
      PairStep(st, n, begin, limit, k0, next, k1, st', b, k);
    } else {
      assert HandOver(st', next, limit) == st';
      PairLast(st, n, begin, limit, k0, b, k);
    }
  }

  /** A range handed to an empty allocator ends up with a pair of free buddies exactly when its end
      is even and it has at least two frames, and then that pair is its last two frames. */
  lemma FirstHandOverPairs(begin: nat, limit: nat)
    ensures (exists b, k :: FreePair(HandOver(Empty, begin, limit), b, k)) <==> limit % 2 == 0 && begin + 2 <= limit
    ensures forall b, k :: FreePair(HandOver(Empty, begin, limit), b, k) ==> LastTwo(b, k, limit)
  {
    EmptyInv(limit);
    assert forall j :: 0 <= j <= MAX_ORDER ==> Empty.lists[j] == [];
    forall b, k
      ensures FreePair(HandOver(Empty, begin, limit), b, k) <==> LastTwo(b, k, limit) && begin + 2 <= limit
    {
      if begin < limit { HandOverPairsExact(Empty, limit, begin, limit, b, k); }
    }
    if limit % 2 == 0 && begin + 2 <= limit {
      assert LastTwo(limit - 1, 0, limit);
      assert FreePair(HandOver(Empty, begin, limit), limit - 1, 0);
    }
  }

  /** Two frames handed over one by one are such a pair, whichever comes first. */
  lemma FrameByFrame()
    ensures FreePair(HandOver(HandOver(Empty, 0, 1), 1, 2), 0, 0)
  {
    var st := HandOver(Empty, 0, 1);
    EmptyInv(2);
    HandOverExact(Empty, 2, 0, 1);
    MaxOrderExact(0, 1, MAX_ORDER);
    HandOverUnfold(Empty, 0, 1, 0, 1, AddBlock(Empty, 0, 0));
    assert st == AddBlock(Empty, 0, 0) && 0 in st.lists[0];
    EvenBuddy(1);
    MaxOrderExact(1, 2, MAX_ORDER);
    HandOverPairsExact(st, 2, 1, 2, 0, 0);
  }

  // ----- runs -----

  datatype Op = HandOverOp(begin: nat, limit: nat) | AllocOp(order: nat) | FreeOp(frame: nat)

  /** What the source demands of the caller of each operation. */
  ghost predicate Enabled(st: State, n: nat, op: Op) {
    match op
    case HandOverOp(begin, limit) => limit <= n && Interval(begin, limit) !! st.managed
    case AllocOp(order) => order <= MAX_ORDER
    case FreeOp(frame) => frame in st.blocks && st.blocks[frame].taken
  }

  ghost function Step(st: State, n: nat, op: Op): State
    requires Inv(st, n) && Enabled(st, n, op)
  {
    match op
    case HandOverOp(begin, limit) => HandOver(st, begin, limit)
    case AllocOp(order) => Alloc(st, order).0
    case FreeOp(frame) => Free(st, frame)
  }

  lemma StepInv(st: State, n: nat, op: Op)
    requires Inv(st, n) && Enabled(st, n, op)
    ensures Inv(Step(st, n, op), n)
  {
    match op
    case HandOverOp(begin, limit) => HandOverExact(st, n, begin, limit);
    case AllocOp(order) => AllocInv(st, n, order);
    case FreeOp(frame) => FreeInv(st, n, frame);
  }

  ghost predicate Next(st: State, n: nat, op: Op, st': State) {
    Inv(st, n) ==> Enabled(st, n, op) && st' == Step(st, n, op)
  }

  /** `trace` is a run: every state satisfies the demands of the next operation and leads to the
      next state. */
  ghost predicate IsRun(trace: seq<State>, ops: seq<Op>, n: nat) {
    && |trace| == |ops| + 1
    && trace[0] == Empty
    && forall i :: 0 <= i < |ops| ==> Next(trace[i], n, ops[i], trace[i + 1])
  }

  /** The frames handed over by the first `i` operations. */
  ghost function Handed(ops: seq<Op>, i: nat): set<nat>
    requires i <= |ops|
  {
    if i == 0 then {}
    else if ops[i - 1].HandOverOp? then Handed(ops, i - 1) + Interval(ops[i - 1].begin, ops[i - 1].limit)
    else Handed(ops, i - 1)
  }

  /** In every state of every run, free and allocated blocks are aligned and exactly partition the
      frames handed over so far, and list `k` holds exactly the free blocks of order `k`, once. */
  lemma {:induction false} RunInv(trace: seq<State>, ops: seq<Op>, n: nat, i: nat)
    requires IsRun(trace, ops, n) && i <= |ops|
    ensures Inv(trace[i], n) && trace[i].managed == Handed(ops, i)
    decreases i
  {
    if i == 0 {
      EmptyInv(n);
    } else {
      RunInv(trace, ops, n, i - 1);
      var st, op := trace[i - 1], ops[i - 1];
      assert Next(st, n, op, trace[i - 1 + 1]);
      StepInv(st, n, op);
      match op
      case HandOverOp(begin, limit) => HandOverExact(st, n, begin, limit);
      case AllocOp(order) => AllocInv(st, n, order);
      case FreeOp(frame) => FreeInv(st, n, frame);
    }
  }

  /** From any state of a run on, as long as nothing is handed over, the pairs of free buddies can
      only disappear. */
  lemma {:induction false} RunNoNewPairs(trace: seq<State>, ops: seq<Op>, n: nat, i: nat, j: nat)
    requires IsRun(trace, ops, n) && i <= j <= |ops|
    requires forall l :: i <= l < j ==> !ops[l].HandOverOp?
    ensures NoNewPairs(trace[i], trace[j])
    decreases j
  {
    if i < j {
      RunNoNewPairs(trace, ops, n, i, j - 1);
      RunInv(trace, ops, n, j - 1);
      var st := trace[j - 1];
      assert Next(st, n, ops[j - 1], trace[j - 1 + 1]);
      match ops[j - 1]
      case AllocOp(order) => AllocNoNewPairs(st, n, order);
      case FreeOp(frame) => FreeKeepsPairs(st, n, frame);
    }
  }
}
