/** The chain of pools: `init_pool`, `extend_pool` and `kmalloc` of mm/pool.c. */
module KernelPool {
  import opened Machine
  import B = Buddy
  import opened Pmm
  import opened SingleFrames
  import opened Heap
  import opened PoolMemory
  import opened Pool

  // ----- the chain in memory -----

  function LinkOf(chain: seq<Page>, i: nat): nat
    requires i < |chain|
  {
    if i + 1 < |chain| then Ptr(PageWord(chain[i + 1].frame)) else 0
  }

  ghost predicate PoolAt(mem: seq<nat>, chain: seq<Page>, i: nat)
    requires i < |chain|
  {
    PageOk(mem, chain[i]) && mem[PageWord(chain[i].frame) + 2] == LinkOf(chain, i)
  }

  /** Every pool lies tiled in its own page and points to the next; the last one points nowhere. */
  ghost predicate ChainOk(mem: seq<nat>, chain: seq<Page>) {
    && chain != []
    && (forall i :: 0 <= i < |chain| ==> PoolAt(mem, chain, i))
    && (forall i, j :: 0 <= i < j < |chain| ==> chain[i].frame != chain[j].frame)
  }

  /** Changing the blocks of pool `k` inside its page leaves the rest of the chain alone. */
  lemma ChainReplace(mem: seq<nat>, mem': seq<nat>, chain: seq<Page>, k: nat, p: Page, chain': seq<Page>)
    requires ChainOk(mem, chain) && k < |chain| && p.frame == chain[k].frame && chain' == chain[k := p]
    requires SameOutside(mem, mem', BaseOf(p.frame), PageEnd(p.frame)) && PageOk(mem', p)
    ensures ChainOk(mem', chain')
  {
    forall i | 0 <= i < |chain'| ensures PoolAt(mem', chain', i) {
      assert PoolAt(mem, chain, i);
      if i != k {
        assert chain[i].frame != p.frame;
        PageFraming(mem, mem', chain[i]);
      }
    }
  }

  const FRESH: seq<Block> := [Block(FIRST_SIZE, false)]

  lemma FreshTiled()
    ensures Tiled(FRESH)
  {
    assert Offset(FRESH, 1) == Offset(FRESH, 0) + FIRST_SIZE;
  }

  /** The words `zero_page` and `init_single_pool` leave behind. */
  ghost predicate FreshPage(mem: seq<nat>, frame: nat) {
    && PageEnd(frame) <= |mem|
    && mem[PageWord(frame)] == PAGE_SIZE && mem[PageWord(frame) + 1] == 0 && mem[PageWord(frame) + 2] == 0
    && mem[BaseOf(frame)] == 8 * FIRST_SIZE && mem[BaseOf(frame) + 1] == 0 && mem[BaseOf(frame) + 2] == 0
  }

  lemma FreshPageOk(mem: seq<nat>, frame: nat)
    requires FreshPage(mem, frame)
    ensures PageOk(mem, Page(frame, FRESH))
  {
    FreshTiled();
    assert BlockAt(mem, BaseOf(frame), FRESH, 0);
  }

  /** Linking a fresh pool behind the last one. */
  lemma ChainAppend(mem: seq<nat>, mem': seq<nat>, chain: seq<Page>, n: nat, last: nat, chain': seq<Page>)
    requires ChainOk(mem, chain) && |mem'| == |mem| && (forall i :: 0 <= i < |chain| ==> chain[i].frame != n)
    requires FreshPage(mem', n) && chain' == chain + [Page(n, FRESH)]
    requires last == PageWord(chain[|chain| - 1].frame) + 2 < |mem| && mem'[last] == Ptr(PageWord(n))
    requires forall v :: 0 <= v < |mem| && v != last && !(PageWord(n) <= v < PageEnd(n)) ==> mem'[v] == mem[v]
    ensures ChainOk(mem', chain')
  {
    FreshPageOk(mem', n);
    forall i | 0 <= i < |chain'| ensures PoolAt(mem', chain', i) {
      if i < |chain| {
        assert PoolAt(mem, chain, i);
        LinkFraming(mem, mem', chain, n, last, i);
      }
    }
  }

  lemma LinkFraming(mem: seq<nat>, mem': seq<nat>, chain: seq<Page>, n: nat, last: nat, i: nat)
    requires ChainOk(mem, chain) && |mem'| == |mem| && i < |chain| && chain[i].frame != n
    requires last == PageWord(chain[|chain| - 1].frame) + 2
    requires forall v :: 0 <= v < |mem| && v != last && !(PageWord(n) <= v < PageEnd(n)) ==> mem'[v] == mem[v]
    ensures PageOk(mem', chain[i])
    ensures i + 1 < |chain| ==> mem'[PageWord(chain[i].frame) + 2] == mem[PageWord(chain[i].frame) + 2]
  {
    var p, base := chain[i], BaseOf(chain[i].frame);
    assert PoolAt(mem, chain, i);
    assert i + 1 < |chain| ==> chain[i].frame != chain[|chain| - 1].frame;
    forall j | 0 <= j < |p.blocks| ensures BlockAt(mem', base, p.blocks, j) {
      assert BlockAt(mem, base, p.blocks, j);
      Apart(base, p.blocks, j, |p.blocks|);
    }
  }

  /** `extend_pool` as two writes: the fresh page, then the link of the last pool. */
  lemma ExtendDone(m: seq<nat>, m1: seq<nat>, m2: seq<nat>, chain: seq<Page>, n: nat, last: nat, chain': seq<Page>)
    requires ChainOk(m, chain) && (forall i :: 0 <= i < |chain| ==> chain[i].frame != n)
    requires SameOutside(m, m1, PageWord(n), PageEnd(n)) && FreshPage(m1, n)
    requires last == PageWord(chain[|chain| - 1].frame) + 2 < |m1| && m2 == m1[last := Ptr(PageWord(n))]
    requires chain' == chain + [Page(n, FRESH)]
    ensures ChainOk(m2, chain')
  {
    var f := chain[|chain| - 1].frame;
    assert f != n && !(PageWord(n) <= last < PageEnd(n));
    assert FreshPage(m2, n);
    ChainAppend(m, m2, chain, n, last, chain');
  }

  // ----- serving a request -----

  ghost predicate NoFit(p: Page, need: nat) {
    FirstFit(p.blocks, need, 0) == |p.blocks|
  }

  /** No pool of the chain has room for the request. */
  ghost predicate NoneFits(chain: seq<Page>, need: nat) {
    forall i :: 0 <= i < |chain| ==> NoFit(chain[i], need)
  }

  /** Where the request is served, no piece of one or two words is left: in the first pool that fits, or in
      a fresh one if none does and a frame is free. */
  ghost predicate ServedSafely(chain: seq<Page>, st: B.State, need: nat) {
    && (forall i :: 0 <= i < |chain| && NoneFits(chain[..i], need) ==> SplitSafe(chain[i].blocks, need))
    && (NoneFits(chain, need) && B.FreeFrames(st.blocks) != {} ==> SplitSafe(FRESH, need))
  }

  ghost predicate AllFresh(pages: seq<Page>) {
    forall i :: 0 <= i < |pages| ==> pages[i].blocks == FRESH
  }

  ghost function FramesOf(pages: seq<Page>): set<nat> {
    set i | 0 <= i < |pages| :: pages[i].frame
  }

  /** The page of every pool is a block in use. */
  ghost predicate Held(chain: seq<Page>, st: B.State) {
    forall i :: 0 <= i < |chain| ==> chain[i].frame in B.Used(st.blocks) && chain[i].frame !in B.FreeFrames(st.blocks)
  }

  /** The chain lies in memory, its pages are in use, and the two globals point to its ends. */
  ghost predicate PoolState(mem: seq<nat>, chain: seq<Page>, pools: nat, tail: nat, st: B.State) {
    && ChainOk(mem, chain) && Held(chain, st)
    && pools == Ptr(PageWord(chain[0].frame)) && tail == Ptr(PageWord(chain[|chain| - 1].frame))
  }

  /** Everything about `extend_pool`: a fresh page, then the link of the last pool to it. */
  lemma PoolExtend(m: seq<nat>, m1: seq<nat>, m2: seq<nat>, chain: seq<Page>, pools: nat, tail: nat, st: B.State, st': B.State,
                   n: nat, last: nat, chain': seq<Page>, tail': nat)
    requires PoolState(m, chain, pools, tail, st) && TookOne(st, st', n)
    requires SameOutside(m, m1, PageWord(n), PageEnd(n)) && FreshPage(m1, n)
    requires last == PageWord(chain[|chain| - 1].frame) + 2 < |m1| && m2 == m1[last := Ptr(PageWord(n))]
    requires chain' == chain + [Page(n, FRESH)] && tail' == Ptr(PageWord(n))
    ensures PoolState(m2, chain', pools, tail', st')
  {
    HeldExtend(chain, st, st', n, chain');
    ExtendDone(m, m1, m2, chain, n, last, chain');
    assert chain'[0] == chain[0];
  }

  lemma PoolReplace(m: seq<nat>, m': seq<nat>, chain: seq<Page>, pools: nat, tail: nat, st: B.State, k: nat, p: Page,
                    chain': seq<Page>)
    requires PoolState(m, chain, pools, tail, st) && k < |chain| && p.frame == chain[k].frame && chain' == chain[k := p]
    requires SameOutside(m, m', BaseOf(p.frame), PageEnd(p.frame)) && PageOk(m', p)
    ensures PoolState(m', chain', pools, tail, st)
  {
    ChainReplace(m, m', chain, k, p, chain');
    forall i | 0 <= i < |chain'| ensures chain'[i].frame == chain[i].frame {
    }
  }

  lemma FirstBlock(frame: nat)
    ensures Ptr(PageWord(frame)) + 8 * POOL_HEADER == Ptr(BaseOf(frame))
  {
  }

  /** A frame taken for something else does not disturb the pools. */
  lemma HeldTook(mem: seq<nat>, chain: seq<Page>, pools: nat, tail: nat, st: B.State, st': B.State, n: nat)
    requires PoolState(mem, chain, pools, tail, st) && TookOne(st, st', n)
    ensures PoolState(mem, chain, pools, tail, st') && forall i :: 0 <= i < |chain| ==> chain[i].frame != n
  {
  }

  lemma HeldFreed(mem: seq<nat>, chain: seq<Page>, pools: nat, tail: nat, st: B.State, st': B.State, n: nat)
    requires PoolState(mem, chain, pools, tail, st) && (forall i :: 0 <= i < |chain| ==> chain[i].frame != n)
    requires B.Used(st'.blocks) == B.Used(st.blocks) - {n} && B.FreeFrames(st'.blocks) == B.FreeFrames(st.blocks) + {n}
    ensures PoolState(mem, chain, pools, tail, st')
  {
  }

  lemma ApartFrom(chain: seq<Page>, grown: seq<Page>, n: nat)
    requires n !in FramesOf(grown) && forall i :: 0 <= i < |chain| ==> chain[i].frame != n
    ensures forall i :: 0 <= i < |chain + grown| ==> (chain + grown)[i].frame != n
  {
    forall i | 0 <= i < |chain + grown| ensures (chain + grown)[i].frame != n {
      if i >= |chain| { assert grown[i - |chain|].frame in FramesOf(grown); }
    }
  }

  lemma HeldExtend(chain: seq<Page>, st: B.State, st': B.State, n: nat, chain': seq<Page>)
    requires Held(chain, st) && TookOne(st, st', n) && chain' == chain + [Page(n, FRESH)]
    ensures Held(chain', st') && forall i :: 0 <= i < |chain| ==> chain[i].frame != n
  {
  }

  lemma WordOfPtr(w: nat)
    ensures Ptr(w) >= DIRECT_BASE && WordAt(Ptr(w)) == w
  {
  }

  /** `addr` is the data of block `j` of pool `k`, the first block of that pool that fits. */
  ghost predicate Found(chain: seq<Page>, k: nat, j: nat, need: nat, addr: nat) {
    && k < |chain| && j == FirstFit(chain[k].blocks, need, 0) < |chain[k].blocks|
    && addr == DataOf(At(BaseOf(chain[k].frame), chain[k].blocks, j))
  }

  /** That block was cut to size and handed out. */
  ghost predicate Served(chain: seq<Page>, chain': seq<Page>, k: nat, j: nat, need: nat, addr: nat) {
    Found(chain, k, j, need, addr) && chain' == chain[k := CutPage(chain[k], j, need)]
  }

  /** The words of memory after that cut, whatever it leaves over. */
  ghost predicate CutIn(mem: seq<nat>, mem': seq<nat>, chain: seq<Page>, k: nat, j: nat, need: nat)
    requires k < |chain| && j < |chain[k].blocks|
  {
    IsCut(mem, mem', At(BaseOf(chain[k].frame), chain[k].blocks, j), need, chain[k].blocks[j].size)
  }

  /** What a successful search comes to: no pool before `k` fits, and at most one was grown, to serve. */
  ghost predicate FirstFound(pages: seq<Page>, grown: seq<Page>, k: nat, j: nat, need: nat, addr: nat) {
    && Found(pages + grown, k, j, need, addr) && NoneFits((pages + grown)[..k], need)
    && (grown == [] || (|grown| == 1 && k == |pages|))
  }

  /** No block of any pool has room for `m` bytes. */
  ghost predicate NoRoomIn(chain: seq<Page>, m: nat) {
    forall i, j :: 0 <= i < |chain| && 0 <= j < |chain[i].blocks| ==> !HasRoom(chain[i].blocks[j], m)
  }

  lemma NoneFitsBytes(chain: seq<Page>, len: nat, m: nat)
    requires Rounded(len, m)
    ensures NoneFits(chain, Need(len)) <==> NoRoomIn(chain, m)
  {
    forall i | 0 <= i < |chain|
      ensures NoFit(chain[i], Need(len)) <==> forall j :: 0 <= j < |chain[i].blocks| ==> !HasRoom(chain[i].blocks[j], m)
    {
      FirstFitBytes(chain[i].blocks, len, m);
    }
  }

  /** A request for `len` bytes fails exactly if no block has the bytes, rounded up, and neither has the one
      block of a fresh pool, of 4072 bytes with its header, or no frame is free for that. */
  ghost predicate NoBytes(pages: seq<Page>, st: B.State, len: nat) {
    forall m :: Rounded(len, m) ==> NoRoomIn(pages, m) && (m + 32 > 4072 || B.FreeFrames(st.blocks) == {})
  }

  lemma FailsBytes(pages: seq<Page>, st: B.State, len: nat)
    ensures Fails(pages, st, Need(len)) <==> NoBytes(pages, st, len)
  {
    var m := 8 * Need(len) - 32;
    assert Rounded(len, m);
    forall n | Rounded(len, n)
      ensures NoneFits(pages, Need(len)) <==> NoRoomIn(pages, n)
      ensures n == m
    {
      NoneFitsBytes(pages, len, n);
      RoundedOnce(len, n, m);
    }
  }

  /** The request is served by the first block with room of the first pool that has one. */
  ghost predicate BytesFound(pages: seq<Page>, k: nat, j: nat, len: nat, page': Page, addr: nat) {
    && k < |pages| && j < |pages[k].blocks| && FirstRoom(pages[k].blocks, j, len)
    && (forall m :: Rounded(len, m) ==> NoRoomIn(pages[..k], m))
    && HoldsBytes(pages[k], page', j, len, addr)
  }

  lemma FoundBytes(pages: seq<Page>, grown: seq<Page>, k: nat, j: nat, len: nat, addr: nat)
    requires FirstFound(pages, grown, k, j, Need(len), addr)
    ensures BytesFound(pages + grown, k, j, len, CutPage((pages + grown)[k], j, Need(len)), addr)
  {
    var chain := pages + grown;
    AllocatedBytes(chain[k].blocks, j, len);
    CutBytes(chain[k], j, len);
    forall m | Rounded(len, m) ensures NoRoomIn(chain[..k], m) { NoneFitsBytes(chain[..k], len, m); }
  }

  /** When the search fails. */
  ghost predicate Fails(pages: seq<Page>, st: B.State, need: nat) {
    NoneFits(pages, need) && (need > FIRST_SIZE || B.FreeFrames(st.blocks) == {})
  }

  /** The frames `fs` were taken, one block each. */
  ghost predicate Grew(st: B.State, st': B.State, fs: set<nat>) {
    && fs <= B.FreeFrames(st.blocks) && fs !! B.Used(st.blocks).Keys
    && B.FreeFrames(st'.blocks) == B.FreeFrames(st.blocks) - fs
    && B.Used(st'.blocks) == B.Used(st.blocks) + (map f | f in fs :: 0)
  }

  lemma GrewNothing(st: B.State)
    ensures Grew(st, st, FramesOf([]))
  {
    assert FramesOf([]) == {};
    assert B.Used(st.blocks) == B.Used(st.blocks) + (map f | f in FramesOf([]) :: 0);
  }

  /** The search of `kmalloc` at pool `k`: no earlier pool fits, and pools are only grown once every old
      one was tried; a second one only if a fresh one is too small. */
  ghost predicate Searching(pages: seq<Page>, chain: seq<Page>, grown: seq<Page>, st: B.State, st': B.State, need: nat, k: nat) {
    && pages != [] && chain == pages + grown && k < |chain|
    && AllFresh(grown) && Grew(st, st', FramesOf(grown))
    && NoneFits(chain[..k], need)
    && (grown == [] || k >= |pages|) && (|grown| > 1 ==> need > FIRST_SIZE)
  }

  lemma StartSearch(pages: seq<Page>, st: B.State, need: nat)
    requires pages != []
    ensures Searching(pages, pages, [], st, st, need, 0)
  {
    assert pages + [] == pages && FramesOf([]) == {};
  }

  /** The demand on the call says what the pool that serves it leaves over. */
  lemma SearchSafe(pages: seq<Page>, chain: seq<Page>, grown: seq<Page>, st: B.State, st': B.State, need: nat, k: nat)
    requires Searching(pages, chain, grown, st, st', need, k) && !NoFit(chain[k], need)
    ensures ServedSafely(pages, st, need) <==> SplitSafe(chain[k].blocks, need)
  {
    hide SplitSafe, NoFit;
    if k < |pages| {
      assert chain[k] == pages[k] && chain[..k] == pages[..k];
      forall i | 0 <= i < k ensures SplitSafe(pages[i].blocks, need) {
        assert pages[..k][i] == pages[i];
        UnfitSafe(pages[i], need);
      }
      forall i | k < i < |pages| ensures !NoneFits(pages[..i], need) {
        assert pages[..i][k] == pages[k];
      }
      assert !NoneFits(pages, need);
    } else {
      assert chain[k] == grown[k - |pages|];
      assert grown[0].frame in FramesOf(grown);
      forall i | 0 <= i < |pages| ensures NoFit(pages[i], need) && SplitSafe(pages[i].blocks, need) {
        assert chain[..k][i] == pages[i];
        UnfitSafe(pages[i], need);
      }
    }
  }

  lemma UnfitSafe(p: Page, need: nat)
    requires NoFit(p, need)
    ensures SplitSafe(p.blocks, need)
  {
  }

  lemma FreshFits(need: nat)
    ensures FirstFit(FRESH, need, 0) == if need <= FIRST_SIZE then 0 else 1
  {
  }

  lemma SearchNext(pages: seq<Page>, chain: seq<Page>, grown: seq<Page>, st: B.State, st': B.State, need: nat, k: nat, k': nat)
    requires Searching(pages, chain, grown, st, st', need, k) && NoFit(chain[k], need) && k' == k + 1 < |chain|
    ensures Searching(pages, chain, grown, st, st', need, k')
  {
    assert chain[..k'] == chain[..k] + [chain[k]];
  }

  lemma FreshNoFit(p: Page, need: nat)
    requires p.blocks == FRESH && NoFit(p, need)
    ensures need > FIRST_SIZE
  {
    FreshFits(need);
  }

  lemma GrewMore(st: B.State, st': B.State, st'': B.State, fs: set<nat>, n: nat)
    requires Grew(st, st', fs) && TookOne(st', st'', n)
    ensures Grew(st, st'', fs + {n})
  {
  }

  lemma SearchGrow(pages: seq<Page>, chain: seq<Page>, grown: seq<Page>, st: B.State, st': B.State, need: nat, k: nat,
                   k': nat, n: nat, st'': B.State, grown': seq<Page>, chain': seq<Page>)
    requires Searching(pages, chain, grown, st, st', need, k) && NoFit(chain[k], need) && k' == k + 1 == |chain|
    requires TookOne(st', st'', n) && grown' == grown + [Page(n, FRESH)] && chain' == chain + [Page(n, FRESH)]
    ensures Searching(pages, chain', grown', st, st'', need, k')
  {
    hide NoFit, FramesOf, Grew, TookOne;
    assert chain'[..k'] == chain[..k] + [chain[k]];
    assert chain' == pages + grown';
    if grown != [] {
      assert chain[k] == grown[|grown| - 1];
      FreshNoFit(chain[k], need);
    }
    FramesAppend(grown, n);
    GrewMore(st, st', st'', FramesOf(grown), n);
  }

  lemma FramesAppend(grown: seq<Page>, n: nat)
    ensures FramesOf(grown + [Page(n, FRESH)]) == FramesOf(grown) + {n}
  {
    var g := grown + [Page(n, FRESH)];
    assert g[|grown|].frame == n;
    forall i | 0 <= i < |grown| ensures g[i].frame == grown[i].frame {
    }
  }

  /** The request can only fail when no frame is left, or when even a fresh pool is too small. */
  lemma SearchFailed(pages: seq<Page>, chain: seq<Page>, grown: seq<Page>, st: B.State, st': B.State, need: nat, k: nat)
    requires Searching(pages, chain, grown, st, st', need, k) && NoFit(chain[k], need) && k + 1 == |chain|
    requires B.FreeFrames(st'.blocks) == {}
    ensures NoneFits(chain, need) && Fails(pages, st, need) && chain == pages + grown
  {
    assert chain == chain[..k] + [chain[k]];
    forall i | 0 <= i < |chain| ensures NoFit(chain[i], need) {
      if i < k { assert chain[i] == chain[..k][i]; }
    }
    FreshFits(need);
    if grown == [] {
      assert FramesOf(grown) == {};
      assert B.FreeFrames(st.blocks) == B.FreeFrames(st'.blocks);
    } else {
      assert chain[k] == grown[|grown| - 1];
    }
    forall i | 0 <= i < |pages| ensures NoFit(pages[i], need) {
      assert chain[i] == pages[i];
    }
  }

  lemma SearchServed(pages: seq<Page>, chain: seq<Page>, grown: seq<Page>, st: B.State, st': B.State, need: nat, k: nat)
    requires Searching(pages, chain, grown, st, st', need, k) && !NoFit(chain[k], need)
    ensures !Fails(pages, st, need)
    ensures forall j, addr :: Found(chain, k, j, need, addr) ==> FirstFound(pages, grown, k, j, need, addr)
  {
    FreshFits(need);
    if k < |pages| {
      assert chain[k] == pages[k];
    } else {
      assert chain[k] == grown[k - |pages|] && chain[k].blocks == FRESH;
      assert grown[0].frame in FramesOf(grown);
    }
  }

  lemma UsedInRange(st: B.State, n: nat, f: nat)
    requires B.Inv(st, n) && f in B.Used(st.blocks)
    ensures f < n
  {
  }

  class KernelPool {
    const pmm: FrameAllocator
    const heap: BlockMemory
    var pools: nat
    var tail: nat
    ghost var chain: seq<Page>

    ghost predicate Valid()
      reads this, pmm, pmm.frames, pmm.freeRegion, heap, heap.mem
    {
      && pmm.Valid() && heap.mem.Length == PAGE_WORDS * pmm.frames.Length + SPARE
      && PoolState(heap.mem[..], chain, pools, tail, pmm.st)
    }

    constructor (pmm: FrameAllocator, heap: BlockMemory)
      ensures this.pmm == pmm && this.heap == heap && chain == []
    {
      this.pmm := pmm;
      this.heap := heap;
      pools, tail, chain := 0, 0, [];
    }

    /** `zero_page`. */
    method ZeroPage(page: nat)
      requires page % PAGE_SIZE == 0 && PageEnd(page / PAGE_SIZE) <= heap.mem.Length
      modifies heap.mem
      ensures forall v :: 0 <= v < heap.mem.Length ==>
        heap.mem[v] == if PageWord(page / PAGE_SIZE) <= v < PageEnd(page / PAGE_SIZE) then 0 else old(heap.mem[v])
    {
      var w := PageWord(page / PAGE_SIZE);
      for i := 0 to PAGE_WORDS
        invariant forall v :: 0 <= v < heap.mem.Length ==> heap.mem[v] == if w <= v < w + i then 0 else old(heap.mem[v])
      {
        heap.mem[w + i] := 0;
      }
    }

    /** `init_single_pool` for a page-sized pool. */
    method InitSinglePool(pool: nat, ghost frame: nat)
      requires pool == Ptr(PageWord(frame)) && PageEnd(frame) <= heap.mem.Length
      modifies heap.mem
      ensures FreshPage(heap.mem[..], frame)
      ensures SameOutside(old(heap.mem[..]), heap.mem[..], PageWord(frame), PageEnd(frame))
    {
      var w := WordAt(pool);
      heap.mem[w] := PAGE_SIZE;
      heap.mem[w + 2] := 0;
      heap.mem[w + 1] := 0;
      heap.mem[w + 3] := PAGE_SIZE - 8 * POOL_HEADER;
      heap.mem[w + 4] := 0;
      heap.mem[w + 5] := 0;
    }

    /** `alloc_frames(0)`, `zero_page` and `init_single_pool`, as `init_pool` and `extend_pool` use them. */
    method FreshPool() returns (page: nat, ghost n: nat)
      requires pmm.Valid() && heap.mem.Length == PAGE_WORDS * pmm.frames.Length + SPARE
      modifies pmm, pmm.frames, pmm.freeRegion, heap.mem
      ensures pmm.Valid()
      ensures page == INVALID_ADDRESS <==> B.FreeFrames(old(pmm.st).blocks) == {}
      ensures page == INVALID_ADDRESS ==> pmm.st == old(pmm.st) && heap.mem[..] == old(heap.mem[..])
      ensures page != INVALID_ADDRESS ==>
        && page % PAGE_SIZE == 0 && n == page / PAGE_SIZE && TookOne(old(pmm.st), pmm.st, n) && FreshPage(heap.mem[..], n)
        && SameOutside(old(heap.mem[..]), heap.mem[..], PageWord(n), PageEnd(n))
    {
      hide FrameAllocator.Valid;
      page := AllocOne(pmm);
      n := page / PAGE_SIZE;
      if page == INVALID_ADDRESS { return; }
      ZeroPage(page);
      InitSinglePool(Ptr(PageWord(page / PAGE_SIZE)), page / PAGE_SIZE);
    }

    /** `init_pool`. */
    method InitPool() returns (ok: bool)
      requires pmm.Valid() && heap.mem.Length == PAGE_WORDS * pmm.frames.Length + SPARE
      modifies this, pmm, pmm.frames, pmm.freeRegion, heap.mem
      ensures ok <==> B.FreeFrames(old(pmm.st).blocks) != {}
      ensures ok ==> Valid() && |chain| == 1 && chain[0].blocks == FRESH && TookOne(old(pmm.st), pmm.st, chain[0].frame)
      ensures !ok ==> pmm.Valid() && pmm.st == old(pmm.st)
    {
      hide FrameAllocator.Valid;
      var page, n := FreshPool();
      if page == INVALID_ADDRESS { return false; }
      pools := Ptr(PageWord(page / PAGE_SIZE));
      tail := pools;
      chain := [Page(n, FRESH)];
      FreshPageOk(heap.mem[..], n);
      assert PoolAt(heap.mem[..], chain, 0);
      return true;
    }

    /** `extend_pool`: the order of linking and initialising does not matter, the pages are apart. */
    method ExtendPool() returns (ok: bool, ghost n: nat)
      requires Valid()
      modifies this, pmm, pmm.frames, pmm.freeRegion, heap.mem
      ensures Valid() && pools == old(pools)
      ensures ok <==> B.FreeFrames(old(pmm.st).blocks) != {}
      ensures ok ==> chain == old(chain) + [Page(n, FRESH)] && TookOne(old(pmm.st), pmm.st, n)
      ensures !ok ==> pmm.st == old(pmm.st) && chain == old(chain) && heap.mem[..] == old(heap.mem[..])
    {
      hide FrameAllocator.Valid;
      ghost var m, st := heap.mem[..], pmm.st;
      var page;
      page, n := FreshPool();
      if page == INVALID_ADDRESS { return false, n; }
      LinkTail(page, n, m, st);
      return true, n;
    }

    /** The end of `extend_pool`. */
    method LinkTail(page: nat, ghost n: nat, ghost m: seq<nat>, ghost st: B.State)
      requires pmm.Valid() && heap.mem.Length == PAGE_WORDS * pmm.frames.Length + SPARE && n == page / PAGE_SIZE
      requires PoolState(m, chain, pools, tail, st) && TookOne(st, pmm.st, n)
      requires SameOutside(m, heap.mem[..], PageWord(n), PageEnd(n)) && FreshPage(heap.mem[..], n)
      modifies `chain, `tail, heap.mem
      ensures Valid() && chain == old(chain) + [Page(n, FRESH)]
    {
      hide FrameAllocator.Valid;
      ghost var m1, pages, was, end := heap.mem[..], chain, tail, chain[|chain| - 1].frame;
      assert PoolAt(m, pages, |pages| - 1);
      WordOfPtr(PageWord(end));
      var last := WordAt(tail) + 2;
      heap.mem[last] := Ptr(PageWord(page / PAGE_SIZE));
      tail := Ptr(PageWord(page / PAGE_SIZE));
      chain := pages + [Page(n, FRESH)];
      assert heap.mem[..] == m1[last := Ptr(PageWord(n))];
      PoolExtend(m, m1, heap.mem[..], pages, pools, was, st, pmm.st, n, last, chain, tail);
    }

    /** One turn of the loop of `kmalloc`: allocate from pool `k` if it has room. */
    method TryPool(pool: nat, len: nat, ghost k: nat) returns (addr: nat, ghost j: nat)
      requires Valid() && k < |chain| && pool == Ptr(PageWord(chain[k].frame))
      modifies `chain, heap.mem
      ensures pmm.Valid() && (addr == 0 <==> NoFit(old(chain)[k], Need(len)))
      ensures addr == 0 ==> Valid() && chain == old(chain)
      ensures addr != 0 ==>
        && Found(old(chain), k, j, Need(len), addr)
        && CutIn(old(heap.mem[..]), heap.mem[..], old(chain), k, j, Need(len))
        && if SplitSafe(old(chain)[k].blocks, Need(len)) then Valid() && Served(old(chain), chain, k, j, Need(len), addr)
           else chain == old(chain) && !PageOk(heap.mem[..], CutPage(chain[k], j, Need(len)))
    {
      hide FrameAllocator.Valid, IsCut;
      ghost var m, pages, p := heap.mem[..], chain, chain[k];
      assert PoolAt(m, pages, k);
      FirstBlock(p.frame);
      HeldInRange(k);
      addr, j := heap.Allocate(pool + 8 * POOL_HEADER, len, p);
      if addr != 0 && SplitSafe(p.blocks, Need(len)) {
        ghost var p' := CutPage(p, j, Need(len));
        chain := pages[k := p'];
        PoolReplace(m, heap.mem[..], pages, pools, tail, pmm.st, k, p', chain);
      }
    }

    /** The page of a pool is one of the frames. */
    lemma HeldInRange(k: nat)
      requires Valid() && k < |chain|
      ensures PageEnd(chain[k].frame) + SPARE <= heap.mem.Length
    {
      UsedInRange(pmm.st, pmm.frames.Length, chain[k].frame);
    }

    /** `kmalloc`, for every length; 0 is NULL. Ghost results: the pools `grown` on the way, the pool `k` and
        block `j` that serve the request, and the `words` of memory just before that block is cut. */
    method Kmalloc(len: nat) returns (addr: nat, ghost grown: seq<Page>, ghost k: nat, ghost j: nat, ghost words: seq<nat>)
      requires Valid()
      modifies this, pmm, pmm.frames, pmm.freeRegion, heap.mem
      ensures pmm.Valid() && AllFresh(grown) && Grew(old(pmm.st), pmm.st, FramesOf(grown))
      ensures addr == 0 <==> Fails(old(chain), old(pmm.st), Need(len))
      ensures addr == 0 <==> NoBytes(old(chain), old(pmm.st), len)
      ensures addr == 0 ==> Valid() && chain == old(chain) + grown
      ensures addr == 0 ==> NoneFits(chain, Need(len)) && B.FreeFrames(pmm.st.blocks) == {}
      ensures addr != 0 ==> FirstFound(old(chain), grown, k, j, Need(len), addr)
      ensures addr != 0 ==>
        BytesFound(old(chain) + grown, k, j, len, CutPage((old(chain) + grown)[k], j, Need(len)), addr)
      ensures addr != 0 ==>
        && ChainOk(words, old(chain) + grown) && CutIn(words, heap.mem[..], old(chain) + grown, k, j, Need(len))
        && if ServedSafely(old(chain), old(pmm.st), Need(len))
           then Valid() && Served(old(chain) + grown, chain, k, j, Need(len), addr)
           else chain == old(chain) + grown && !PageOk(heap.mem[..], CutPage(chain[k], j, Need(len)))
    {
      hide FrameAllocator.Valid, SplitSafe, Grew, FramesOf, ServedSafely, FirstFound, Fails, CutIn, NoBytes, BytesFound;
      ghost var pages, st, need := chain, pmm.st, Need(len);
      FailsBytes(pages, st, len);
      var pool := pools;
      grown, k, j := [], 0, 0;
      StartSearch(pages, st, need);
      while true
        invariant Valid() && Searching(pages, chain, grown, st, pmm.st, need, k)
        invariant pool == Ptr(PageWord(chain[k].frame))
        decreases |B.FreeFrames(pmm.st.blocks)|, |chain| - k
      {
        ghost var before := chain;
        words := heap.mem[..];
        addr, j := TryPool(pool, len, k);
        if addr != 0 {
          SearchServed(pages, before, grown, st, pmm.st, need, k);
          SearchSafe(pages, before, grown, st, pmm.st, need, k);
          FoundBytes(pages, grown, k, j, len, addr);
          return;
        }
        ghost var k';
        pool, grown, k' := Advance(pool, pages, grown, st, need, k);
        if pool == 0 {
          SearchFailed(pages, chain, grown, st, pmm.st, need, k);
          return;
        }
        k := k';
      }
    }

    /** The end of a turn of the loop of `kmalloc`: go to the next pool, grown if there is none; 0 if that
        fails. */
    method Advance(pool: nat, ghost pages: seq<Page>, ghost grown: seq<Page>, ghost st: B.State, ghost need: nat, ghost k: nat)
      returns (next: nat, ghost grown': seq<Page>, ghost k': nat)
      requires Valid() && k < |chain| && Searching(pages, chain, grown, st, pmm.st, need, k) && NoFit(chain[k], need)
      requires pool == Ptr(PageWord(chain[k].frame))
      modifies this, pmm, pmm.frames, pmm.freeRegion, heap.mem
      ensures Valid() && k' == k + 1 && k' <= |chain|
      ensures next == 0 ==> grown' == grown && chain == old(chain) && pmm.st == old(pmm.st) && k' == |chain|
      ensures next == 0 ==> B.FreeFrames(pmm.st.blocks) == {}
      ensures next != 0 ==> k' < |chain| && Searching(pages, chain, grown', st, pmm.st, need, k')
      ensures next != 0 ==> next == Ptr(PageWord(chain[k'].frame))
      ensures next != 0 ==>
        (|B.FreeFrames(pmm.st.blocks)| < |B.FreeFrames(old(pmm.st).blocks)| || (pmm.st == old(pmm.st) && chain == old(chain)))
    {
      hide FrameAllocator.Valid, PoolState, Searching, NoFit, SplitSafe;
      k', grown' := k + 1, grown;
      ghost var before, st1 := chain, pmm.st;
      next := Link(pool, k);
      if next == 0 {
        var ok, n := ExtendPool();
        if !ok { return; }
        grown' := grown + [Page(n, FRESH)];
        SearchGrow(pages, before, grown, st, st1, need, k, k', n, pmm.st, grown', chain);
        next := Link(pool, k);
      } else {
        SearchNext(pages, chain, grown, st, pmm.st, need, k, k');
      }
    }

    /** `pool->next`. */
    method Link(pool: nat, ghost k: nat) returns (next: nat)
      requires Valid() && k < |chain| && pool == Ptr(PageWord(chain[k].frame))
      ensures next == LinkOf(chain, k)
    {
      hide FrameAllocator.Valid;
      assert PoolAt(heap.mem[..], chain, k);
      WordOfPtr(PageWord(chain[k].frame));
      next := heap.mem[WordAt(pool) + 2];
    }

    /** `kfree`, for an address that really is 32 bytes above block `j` of pool `k`; NULL is ignored. */
    method Kfree(addr: nat, ghost k: nat, ghost j: nat) returns (panicked: bool)
      requires Valid()
      requires addr != 0 ==> k < |chain| && j < |chain[k].blocks|
      requires addr != 0 ==> BlockOf(addr) == Ptr(At(BaseOf(chain[k].frame), chain[k].blocks, j))
      modifies `chain, heap.mem
      ensures Valid()
      ensures panicked <==> addr != 0 && !old(chain)[k].blocks[j].used
      ensures addr == 0 || panicked ==> chain == old(chain) && heap.mem[..] == old(heap.mem[..])
      ensures addr != 0 && !panicked ==>
        chain == old(chain)[k := Page(old(chain)[k].frame, Release(old(chain)[k].blocks, j))]
    {
      hide FrameAllocator.Valid;
      if addr == 0 { return false; }
      ghost var m, pages, p := heap.mem[..], chain, chain[k];
      assert PoolAt(m, pages, k);
      panicked := heap.FreeBlock(addr - 8 * BLOCK_HEADER, p, j);
      if panicked { return; }
      ghost var p' := Page(p.frame, Release(p.blocks, j));
      chain := pages[k := p'];
      PoolReplace(m, heap.mem[..], pages, pools, tail, pmm.st, k, p', chain);
    }
  }

  // ----- allocation and release together -----

  /** A fresh pool is cut soundly for every length but those from 4017 to 4032 bytes, whose last word of
      rest has no room for the fields of a block. */
  lemma FreshSafeExact(len: nat)
    ensures SplitSafe(FRESH, Need(len)) <==> !(4017 <= len <= 4032)
  {
    FreshFits(Need(len));
  }

  /** Releasing the block that served a request restores every pool. */
  lemma ServeReleaseRestores(mem: seq<nat>, chain: seq<Page>, chain': seq<Page>, k: nat, j: nat, need: nat, addr: nat)
    requires ChainOk(mem, chain) && Served(chain, chain', k, j, need, addr)
    ensures j < |chain'[k].blocks| && chain'[k := Page(chain'[k].frame, Release(chain'[k].blocks, j))] == chain
  {
    assert PoolAt(mem, chain, k);
    TakeReleaseRestores(chain[k].blocks, j, need);
  }

  /** No address that `kmalloc` hands out is one from which `kfree` finds a block of any pool: it looks
      one word below the block. */
  lemma KfreeNeverFinds(mem: seq<nat>, chain: seq<Page>, k: nat, j: nat, k': nat, j': nat)
    requires ChainOk(mem, chain) && k < |chain| && j < |chain[k].blocks| && k' < |chain| && j' < |chain[k'].blocks|
    ensures BlockOf(DataOf(At(BaseOf(chain[k].frame), chain[k].blocks, j)))
         != Ptr(At(BaseOf(chain[k'].frame), chain[k'].blocks, j'))
  {
    var p, q := chain[k], chain[k'];
    assert PoolAt(mem, chain, k) && PoolAt(mem, chain, k');
    KfreeMisses(BaseOf(p.frame), p.blocks, j, j, 0);
    Apart(BaseOf(p.frame), p.blocks, j, |p.blocks|);
    Apart(BaseOf(q.frame), q.blocks, j', |q.blocks|);
    if k == k' {
      KfreeMisses(BaseOf(p.frame), p.blocks, j, j', DataOf(At(BaseOf(p.frame), p.blocks, j)));
    } else {
      assert p.frame != q.frame;
    }
  }

  /** For the first block of a pool the word that `kfree` takes for a header is the pool's `next` field,
      so the double free panic fires if and only if the pool is the last one. */
  lemma KfreeFirstBlock(mem: seq<nat>, chain: seq<Page>, k: nat)
    requires ChainOk(mem, chain) && k < |chain|
    ensures var target := BlockOf(DataOf(At(BaseOf(chain[k].frame), chain[k].blocks, 0)));
      && target >= DIRECT_BASE && WordAt(target) < |mem|
      && (!IsUsed(mem[WordAt(target)]) <==> k + 1 == |chain|)
  {
    assert PoolAt(mem, chain, k);
  }
}
