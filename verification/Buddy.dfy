/** The buddy allocator as a pure state machine: what the frame records and free lists of
    mm/pmm.c stand for, and what each operation does to them. */
module Buddy {
  import opened Dyadic
  import opened Machine

  const MAX_ORDER: nat := 11

  /** A run of 2^order frames, either on a free list or handed out. */
  datatype Block = Block(order: nat, taken: bool)

  /** `lists[k]` is the free list of order `k`, front first; `blocks` maps the first frame of every
      block to the block; `managed` is the set of frames ever handed over. */
  datatype State = State(lists: seq<seq<nat>>, blocks: map<nat, Block>, managed: set<nat>)

  // ----- the invariant -----

  predicate Within(f: nat, b: nat, k: nat) {
    b <= f < b + Pow2(k)
  }

  ghost predicate Covered(m: map<nat, Block>, f: nat) {
    exists b :: b in m && Within(f, b, m[b].order)
  }

  /** The blocks are size aligned, lie inside the frame array and do not overlap. */
  ghost predicate Shape(m: map<nat, Block>, n: nat) {
    && (forall b :: b in m ==> m[b].order <= MAX_ORDER && Aligned(b, m[b].order) && b + Pow2(m[b].order) <= n)
    && (forall b, c :: b in m && c in m && b < c ==> b + Pow2(m[b].order) <= c)
  }

  /** The blocks cover exactly the managed frames. */
  ghost predicate Covers(m: map<nat, Block>, managed: set<nat>) {
    forall f :: f in managed <==> Covered(m, f)
  }

  ghost predicate Tiling(m: map<nat, Block>, managed: set<nat>, n: nat) {
    Shape(m, n) && Covers(m, managed)
  }

  predicate NoDup<T(==)>(l: seq<T>) {
    forall i, j :: 0 <= i < j < |l| ==> l[i] != l[j]
  }

  /** `l` holds exactly the free blocks of order `k`, each once. */
  ghost predicate ListOf(l: seq<nat>, m: map<nat, Block>, k: nat) {
    && NoDup(l)
    && forall b :: b in l <==> b in m && m[b] == Block(k, false)
  }

  ghost predicate Listed(lists: seq<seq<nat>>, m: map<nat, Block>) {
    && |lists| == MAX_ORDER + 1
    && forall k :: 0 <= k <= MAX_ORDER ==> ListOf(lists[k], m, k)
  }

  ghost predicate Inv(st: State, n: nat) {
    Tiling(st.blocks, st.managed, n) && Listed(st.lists, st.blocks)
  }

  /** The invariant while a free block of order `k` at `f` is on no list yet. */
  ghost predicate Floating(st: State, n: nat, f: nat, k: nat) {
    && f !in st.blocks
    && Tiling(st.blocks[f := Block(k, false)], st.managed, n)
    && Listed(st.lists, st.blocks)
  }

  // ----- what a client sees -----

  function Range(b: nat, k: nat): set<nat> {
    set f: nat | b <= f < b + Pow2(k) && Within(f, b, k)
  }

  /** The frames that belong to free blocks. */
  ghost function FreeFrames(m: map<nat, Block>): set<nat> {
    set b, f: nat | b in m && !m[b].taken && b <= f < b + Pow2(m[b].order) && Within(f, b, m[b].order) :: f
  }

  /** The blocks in the hands of callers: first frame to order. */
  ghost function Used(m: map<nat, Block>): map<nat, nat> {
    map b | b in m && m[b].taken :: m[b].order
  }

  // ----- operations -----

  function Remove(l: seq<nat>, x: nat): seq<nat> {
    if l == [] then [] else if l[0] == x then l[1..] else [l[0]] + Remove(l[1..], x)
  }

  /** `divide_buddy`: cut the front block of list `k` in two and put both halves, lower first, in
      front of list `k - 1`. */
  function Divide(st: State, k: nat): State
    requires 0 < k < |st.lists| && st.lists[k] != []
  {
    var f := st.lists[k][0];
    var b := Past(f, k - 1);
    State(st.lists[k := st.lists[k][1..]][k - 1 := [f, b] + st.lists[k - 1]],
          st.blocks[f := Block(k - 1, false)][b := Block(k - 1, false)],
          st.managed)
  }

  function DivideDown(st: State, k: nat, order: nat): (r: State)
    requires order <= k < |st.lists| && st.lists[k] != []
    ensures |r.lists| == |st.lists| && r.lists[order] != []
    ensures r.lists[order][0] == st.lists[k][0]
    ensures r.managed == st.managed
    decreases k
  {
    if k == order then st else DivideDown(Divide(st, k), k - 1, order)
  }

  /** The first order from `k` on with a free block; the last order if there is none. */
  function FirstOrder(lists: seq<seq<nat>>, k: nat): (r: nat)
    requires |lists| == MAX_ORDER + 1 && k <= MAX_ORDER
    ensures k <= r <= MAX_ORDER
    ensures forall j :: k <= j < r ==> lists[j] == []
    ensures lists[r] == [] ==> forall j :: k <= j <= MAX_ORDER ==> lists[j] == []
    decreases MAX_ORDER - k
  {
    if k < MAX_ORDER && lists[k] == [] then FirstOrder(lists, k + 1) else k
  }

  /** The state without the front block of list `k`. */
  function Popped(st: State, k: nat): State
    requires k < |st.lists| && st.lists[k] != []
  {
    State(st.lists[k := st.lists[k][1..]], st.blocks - {st.lists[k][0]}, st.managed)
  }

  /** `alloc_frames`: the new state and the first frame handed out, if any. */
  function Alloc(st: State, order: nat): (State, Option<nat>)
    requires |st.lists| == MAX_ORDER + 1 && order <= MAX_ORDER
  {
    var k := FirstOrder(st.lists, order);
    if st.lists[k] == [] then (st, None)
    else
      var d := DivideDown(st, k, order);
      var f := d.lists[order][0];
      var p := Popped(d, order);
      (p.(blocks := p.blocks[f := Block(order, true)]), Some(f))
  }

  /** One turn of the merging loop: the free buddy `b` of order `k` leaves its list. */
  function WithoutBuddy(st: State, b: nat, k: nat): State
    requires k < |st.lists|
  {
    State(st.lists[k := Remove(st.lists[k], b)], st.blocks - {b}, st.managed)
  }

  /** `merge_buddy` on a block that is on no list: join with the buddy as long as it is free. */
  function Merge(st: State, f: nat, k: nat): State
    requires |st.lists| == MAX_ORDER + 1 && k <= MAX_ORDER
    decreases MAX_ORDER - k
  {
    var b := BuddyOf(f, k);
    if k < MAX_ORDER && b in st.lists[k] then
      Merge(WithoutBuddy(st, b, k), if b < f then b else f, k + 1)
    else
      State(st.lists[k := [f] + st.lists[k]], st.blocks[f := Block(k, false)], st.managed)
  }

  /** `free_frame` on the first frame of an allocated block. */
  function Free(st: State, f: nat): State
    requires |st.lists| == MAX_ORDER + 1 && f in st.blocks && st.blocks[f].order <= MAX_ORDER
  {
    Merge(st.(blocks := st.blocks - {f}), f, st.blocks[f].order)
  }

  /** `get_max_order`, trying `order` first. */
  function MaxOrder(begin: nat, limit: nat, order: nat): (k: nat)
    ensures k <= order
  {
    if Aligned(begin, order) && begin + Pow2(order) < limit then order
    else if order == 0 then 0
    else MaxOrder(begin, limit, order - 1)
  }

  /** One turn of `init_buddy_allocator`: a new free block of order `k` in front of its list. */
  function AddBlock(st: State, f: nat, k: nat): State
    requires k < |st.lists|
  {
    State(st.lists[k := [f] + st.lists[k]], st.blocks[f := Block(k, false)], st.managed + Range(f, k))
  }

  /** `init_buddy_allocator`. */
  function HandOver(st: State, begin: nat, limit: nat): State
    requires |st.lists| == MAX_ORDER + 1
    decreases limit - begin
  {
    if begin >= limit then st
    else
      var k := MaxOrder(begin, limit, MAX_ORDER);
      HandOver(AddBlock(st, begin, k), Past(begin, k), limit)
  }
}
