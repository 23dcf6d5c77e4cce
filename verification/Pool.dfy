/** One pool of mm/pool.c: the words of a page as a list of blocks, and the routines that rewrite them. */
module Pool {
  import opened Machine
  import opened Heap
  import opened PoolMemory

  // ----- pools in memory -----

  datatype Page = Page(frame: nat, blocks: seq<Block>)

  function PageWord(frame: nat): nat {
    PAGE_WORDS * frame
  }

  function PageEnd(frame: nat): nat {
    PAGE_WORDS * frame + PAGE_WORDS
  }

  function BaseOf(frame: nat): nat {
    PAGE_WORDS * frame + POOL_HEADER
  }

  /** The blocks of a pool fill its page after the pool header without gaps, and no two neighbours are
      both free. */
  ghost predicate Tiled(bs: seq<Block>) {
    bs != [] && Roomy(bs) && Coalesced(bs) && Total(bs) == FIRST_SIZE
  }

  ghost predicate PageOk(mem: seq<nat>, p: Page) {
    && PageEnd(p.frame) <= |mem|
    && Tiled(p.blocks) && Laid(mem, BaseOf(p.frame), p.blocks)
    && mem[PageWord(p.frame)] == PAGE_SIZE
  }

  /** Two memories agree outside the words from `lo` up to `hi`. */
  ghost predicate SameOutside(mem: seq<nat>, mem': seq<nat>, lo: nat, hi: nat) {
    |mem'| == |mem| && forall v :: 0 <= v < |mem| && !(lo <= v < hi) ==> mem'[v] == mem[v]
  }

  lemma DividedOutside(mem: seq<nat>, base: nat, bs: seq<Block>, k: nat, need: nat, mem': seq<nat>)
    requires Roomy(bs) && k < |bs| && bs[k].size > need && Divided(mem, base, bs, k, need, mem')
    ensures SameOutside(mem, mem', base, base + Total(bs))
  {
    Apart(base, bs, k, |bs|);
    if k + 1 < |bs| { Apart(base, bs, k + 1, |bs|); }
  }

  lemma MergedOutside(mem: seq<nat>, base: nat, bs: seq<Block>, k: nat, mem': seq<nat>)
    requires Roomy(bs) && k + 1 < |bs| && Merged(mem, base, bs, k, mem')
    ensures SameOutside(mem, mem', base, base + Total(bs))
  {
    Apart(base, bs, k, |bs|);
    if k + 2 < |bs| { Apart(base, bs, k + 2, |bs|); }
  }

  /** Everything about the writes of `divide` when there is room. */
  lemma DivideDone(m: seq<nat>, base: nat, bs: seq<Block>, k: nat, need: nat, w: nat, m': seq<nat>, bs': seq<Block>)
    requires Laid(m, base, bs) && Roomy(bs) && k < |bs| && !bs[k].used && 3 <= need && need + 3 <= bs[k].size
    requires w == At(base, bs, k) && w + need + 2 < |m|
    requires m[w + 1] != 0 ==> m[w + 1] >= DIRECT_BASE && WordAt(m[w + 1]) + 2 < |m|
    requires m' == DivideWords(m, w, need, bs[k].size) && bs' == Split(bs, k, need)
    ensures Laid(m', base, bs') && Roomy(bs') && SameOutside(m, m', base, base + Total(bs))
  {
    DivideWordsDivided(m, base, bs, k, need, w, m');
    DivideLaid(m, base, bs, k, need, m', bs');
    DividedOutside(m, base, bs, k, need, m');
  }

  /** The block to divide. */
  lemma DivideHere(m: seq<nat>, base: nat, bs: seq<Block>, k: nat, w: nat)
    requires Laid(m, base, bs) && Roomy(bs) && k < |bs| && !bs[k].used && w == At(base, bs, k)
    requires Total(bs) <= PAGE_WORDS && base + Total(bs) <= |m|
    ensures w + 2 < w + bs[k].size <= |m| && m[w] == Header(bs[k]) && LenOf(m[w]) == 8 * bs[k].size
    ensures SameOutside(m, m, base, base + Total(bs))
  {
    assert BlockAt(m, base, bs, k);
    Apart(base, bs, k, |bs|);
  }

  /** Words behind the last page. A rest of one word has its fields written there if it ends the page. */
  const SPARE: nat := 2

  lemma DivideFits(m: seq<nat>, base: nat, bs: seq<Block>, k: nat, need: nat, w: nat)
    requires Laid(m, base, bs) && Roomy(bs) && k < |bs| && w == At(base, bs, k)
    requires base + Total(bs) + SPARE <= |m| && bs[k].size > need
    ensures DivideWritable(m, w, need) && w + 1 < |m| && (m[w + 1] != 0 ==> m[w + 1] >= DIRECT_BASE && WordAt(m[w + 1]) > w)
  {
    DivideReadable(m, base, bs, k, w);
    Apart(base, bs, k, |bs|);
  }

  lemma DividedHeader(m: seq<nat>, w: nat, need: nat, size: nat)
    requires DivideWritable(m, w, need) && 0 < need < size
    requires m[w + 1] != 0 ==> WordAt(m[w + 1]) > w
    ensures w < |DivideWords(m, w, need, size)| && DivideWords(m, w, need, size)[w] == 8 * need
  {
  }

  /** Everything about the writes of `merge`. */
  lemma MergeDone(m: seq<nat>, base: nat, bs: seq<Block>, k: nat, w: nat, m': seq<nat>, bs': seq<Block>)
    requires Laid(m, base, bs) && Roomy(bs) && k + 1 < |bs| && !bs[k].used && !bs[k + 1].used
    requires w == At(base, bs, k) && Merged(m, base, bs, k, m') && bs' == Join(bs, k)
    ensures Laid(m', base, bs') && Roomy(bs') && SameOutside(m, m', base, base + Total(bs))
  {
    MergeLaid(m, base, bs, k, m', bs');
    MergedOutside(m, base, bs, k, m');
  }

  /** A pool depends only on the words of its own page. */
  lemma PageFraming(mem: seq<nat>, mem': seq<nat>, p: Page)
    requires PageOk(mem, p) && |mem'| == |mem|
    requires forall v :: PageWord(p.frame) <= v < PageEnd(p.frame) ==> mem'[v] == mem[v]
    ensures PageOk(mem', p)
  {
    var base := BaseOf(p.frame);
    forall i | 0 <= i < |p.blocks| ensures BlockAt(mem', base, p.blocks, i) {
      assert BlockAt(mem, base, p.blocks, i);
      Apart(base, p.blocks, i, |p.blocks|);
    }
  }

  /** First fit leaves either nothing over or room for the fields of a block. */
  predicate SplitSafe(bs: seq<Block>, need: nat) {
    var k := FirstFit(bs, need, 0);
    k < |bs| ==> bs[k].size == need || bs[k].size >= need + 3
  }

  /** What a cut leaves over is nothing, or has room for the fields of a block. */
  predicate RestRoomy(b: Block, need: nat) {
    b.size == need || b.size >= need + 3
  }

  /** A pool after its block `k` has been cut and marked. */
  function CutPage(p: Page, k: nat, need: nat): Page
    requires k < |p.blocks| && Fits(p.blocks[k], need)
  {
    Page(p.frame, Take(p.blocks, k, need))
  }

  /** Block `k` is the first with room for `len` bytes, rounded up to a multiple of 16. */
  ghost predicate FirstRoom(bs: seq<Block>, k: nat, len: nat) {
    forall m :: Rounded(len, m) ==>
      k <= |bs| && (k < |bs| ==> HasRoom(bs[k], m)) && forall i :: 0 <= i < k ==> !HasRoom(bs[i], m)
  }

  /** The address lies 24 bytes into used block `k` of the page, the bytes asked for end inside the block,
      and a block that was cut has just the bytes of the request, rounded up, and 32 more. */
  ghost predicate HoldsBytes(p: Page, p': Page, k: nat, len: nat, addr: nat) {
    && k < |p'.blocks| && p'.blocks[k].used
    && (var w := Ptr(At(BaseOf(p'.frame), p'.blocks, k));
        addr == w + 24 && addr + len <= w + 8 * p'.blocks[k].size)
    && (|p'.blocks| > |p.blocks| ==> 8 * p'.blocks[k].size >= 32 && Rounded(len, 8 * p'.blocks[k].size - 32))
  }

  lemma CutBytes(p: Page, k: nat, len: nat)
    requires k < |p.blocks| && Fits(p.blocks[k], Need(len))
    ensures HoldsBytes(p, CutPage(p, k, Need(len)), k, len, DataOf(At(BaseOf(p.frame), p.blocks, k)))
  {
    var m := 8 * Need(len) - 32;
    TakenBytes(p.blocks, k, len, m);
    TakenAt(p.blocks, k, Need(len), k);
  }

  lemma {:induction false} TakenAt(bs: seq<Block>, k: nat, need: nat, i: nat)
    requires k < |bs| && Fits(bs[k], need) && i <= k
    ensures Offset(Take(bs, k, need), i) == Offset(bs, i)
    decreases i
  {
    if i > 0 { TakenAt(bs, k, need, i - 1); }
  }

  lemma AllocatedBytes(bs: seq<Block>, k: nat, len: nat)
    requires k == FirstFit(bs, Need(len), 0)
    ensures FirstRoom(bs, k, len)
  {
    forall m | Rounded(len, m)
      ensures k <= |bs| && (k < |bs| ==> HasRoom(bs[k], m)) && forall i :: 0 <= i < k ==> !HasRoom(bs[i], m)
    {
      FirstFitBytes(bs, len, m);
    }
  }

  lemma MarkHere(m: seq<nat>, base: nat, bs: seq<Block>, k: nat, m': seq<nat>, bs': seq<Block>)
    requires Laid(m, base, bs) && Roomy(bs) && k < |bs| && At(base, bs, k) < |m| && Total(bs) <= PAGE_WORDS
    requires bs' == bs[k := Block(bs[k].size, true)] && m' == m[At(base, bs, k) := 8 * bs[k].size + USED_BIT]
    ensures Laid(m', base, bs') && Roomy(bs') && SameOutside(m, m', base, base + Total(bs))
  {
    MarkLaid(m, base, bs, k, true, m', bs');
    Apart(base, bs, k, |bs|);
  }

  lemma CutLaid(m: seq<nat>, base: nat, bs: seq<Block>, k: nat, need: nat, w: nat, m': seq<nat>, bs': seq<Block>)
    requires Laid(m, base, bs) && Roomy(bs) && k < |bs| && Fits(bs[k], need) && need >= 3 && w == At(base, bs, k)
    requires Total(bs) <= PAGE_WORDS && RestRoomy(bs[k], need)
    requires IsCut(m, m', w, need, bs[k].size) && bs' == Take(bs, k, need)
    ensures Laid(m', base, bs') && Roomy(bs') && SameOutside(m, m', base, base + Total(bs))
  {
    hide DivideWords, Laid, SameOutside;
    if bs[k].size > need {
      var m1, bs1 := DivideWords(m, w, need, bs[k].size), Split(bs, k, need);
      DivideDone(m, base, bs, k, need, w, m1, bs1);
      SplitAt(base, bs, k, need, k);
      TakeIsMarked(bs, k, need);
      SplitTotal(bs, k, need);
      MarkHere(m1, base, bs1, k, m', bs');
      OutsideTwice(m, m1, m', base, base + Total(bs));
    } else {
      MarkHere(m, base, bs, k, m', bs');
    }
  }

  lemma FreedHere(m: seq<nat>, base: nat, bs: seq<Block>, k: nat, m': seq<nat>, bs': seq<Block>)
    requires Laid(m, base, bs) && Roomy(bs) && k < |bs| && At(base, bs, k) < |m| && Total(bs) <= PAGE_WORDS
    requires bs' == bs[k := Block(bs[k].size, false)] && m' == m[At(base, bs, k) := Header(bs'[k])]
    ensures Laid(m', base, bs') && Roomy(bs') && SameOutside(m, m', base, base + Total(bs))
    ensures Total(bs') == Total(bs) && At(base, bs', k) == At(base, bs, k)
  {
    MarkLaid(m, base, bs, k, false, m', bs');
    Apart(base, bs, k, |bs|);
    OffsetSame(bs, bs', |bs|);
    OffsetSame(bs, bs', k);
  }

  lemma OutsideTwice(m: seq<nat>, m1: seq<nat>, m2: seq<nat>, lo: nat, hi: nat)
    requires SameOutside(m, m1, lo, hi) && SameOutside(m1, m2, lo, hi)
    ensures SameOutside(m, m2, lo, hi)
  {
  }

  lemma TakeIsMarked(bs: seq<Block>, k: nat, need: nat)
    requires k < |bs| && Fits(bs[k], need) && bs[k].size > need
    ensures
      var s := Split(bs, k, need);
      k < |s| && s[k].size == need && Take(bs, k, need) == s[k := Block(s[k].size, true)]
  {
  }

  lemma SplitTotal(bs: seq<Block>, k: nat, need: nat)
    requires k < |bs| && bs[k].size > need && !bs[k].used
    ensures Total(Split(bs, k, need)) == Total(bs)
  {
    SplitJoin(bs, k, need);
    JoinTotal(Split(bs, k, need), k);
  }

  /** A cut leaves a well-formed pool, and the rest of memory alone, if what is left over is roomy;
      otherwise the page is no pool any more. */
  lemma CutExact(m: seq<nat>, p: Page, k: nat, need: nat, w: nat, m': seq<nat>)
    requires PageOk(m, p) && k < |p.blocks| && Fits(p.blocks[k], need) && need >= 3
    requires w == At(BaseOf(p.frame), p.blocks, k) && IsCut(m, m', w, need, p.blocks[k].size)
    ensures PageOk(m', CutPage(p, k, need)) <==> RestRoomy(p.blocks[k], need)
    ensures RestRoomy(p.blocks[k], need) ==> SameOutside(m, m', BaseOf(p.frame), PageEnd(p.frame))
  {
    var bs, base, bs' := p.blocks, BaseOf(p.frame), Take(p.blocks, k, need);
    hide IsCut, Laid;
    if RestRoomy(bs[k], need) {
      CutLaid(m, base, bs, k, need, w, m', bs');
      TakeTotal(bs, k, need);
      TakeCoalesced(bs, k, need);
    } else {
      assert bs'[k + 1].size < 3;
    }
  }

  class BlockMemory {
    const mem: array<nat>

    constructor (words: nat)
      ensures mem.Length == words && fresh(mem)
    {
      mem := new nat[words](_ => 0);
    }

    /** `divide`: these words are written whatever is left over, and they are those of the list with the
        block split if the rest has room for its three fields. */
    method Divide(block: nat, dataLen: nat, ghost base: nat, ghost bs: seq<Block>, ghost k: nat, ghost need: nat)
      returns (split: bool)
      requires Laid(mem[..], base, bs) && Roomy(bs) && k < |bs| && !bs[k].used && block == Ptr(At(base, bs, k))
      requires 8 * need == dataLen + 8 * BLOCK_HEADER && Total(bs) <= PAGE_WORDS && base + Total(bs) <= mem.Length
      requires bs[k].size > need ==> DivideWritable(mem[..], At(base, bs, k), need)
      modifies mem
      ensures split <==> bs[k].size > need
      ensures !split ==> mem[..] == old(mem[..])
      ensures split ==> mem[..] == DivideWords(old(mem[..]), At(base, bs, k), need, bs[k].size)
      ensures split && bs[k].size >= need + 3 ==> Laid(mem[..], base, Split(bs, k, need)) && Roomy(Split(bs, k, need))
      ensures !split || bs[k].size >= need + 3 ==> SameOutside(old(mem[..]), mem[..], base, base + Total(bs))
    {
      hide Laid, Roomy, SameOutside, Split;
      ghost var m := mem[..];
      var w := WordAt(block);
      DivideHere(m, base, bs, k, w);
      if LenOf(mem[w]) <= dataLen + 8 * BLOCK_HEADER { return false; }
      DivideReadable(m, base, bs, k, w);
      var len := LenOf(mem[w]);
      var block2 := block + dataLen + 8 * BLOCK_HEADER;
      var w2 := WordAt(block2);
      var next := mem[w + 1];
      assert w2 == w + need && block2 == Ptr(w2);
      mem[w2] := len - (dataLen + 8 * BLOCK_HEADER);
      mem[w] := dataLen + 8 * BLOCK_HEADER;
      mem[w + 1] := block2;
      mem[w2 + 1] := next;
      mem[w2 + 2] := block;
      if next != 0 { mem[WordAt(next) + 2] := block2; }
      assert mem[..] == DivideWords(m, w, need, bs[k].size);
      if bs[k].size >= need + 3 { DivideDone(m, base, bs, k, need, w, mem[..], Split(bs, k, need)); }
      return true;
    }

    /** `merge` of two free neighbours. */
    method Merge(block: nat, ghost base: nat, ghost bs: seq<Block>, ghost k: nat)
      requires Laid(mem[..], base, bs) && Roomy(bs) && k + 1 < |bs| && !bs[k].used && !bs[k + 1].used
      requires block == Ptr(At(base, bs, k)) && base + Total(bs) <= mem.Length
      modifies mem
      ensures Laid(mem[..], base, Join(bs, k)) && Roomy(Join(bs, k))
      ensures SameOutside(old(mem[..]), mem[..], base, base + Total(bs))
    {
      ghost var m := mem[..];
      var first := WordAt(block);
      MergeWordsMerged(m, base, bs, k, first);
      JoinReadable(m, base, bs, k, first);
      Apart(base, bs, k, |bs|);
      var second := WordAt(mem[first + 1]);
      mem[first] := mem[first] + mem[second];
      mem[first + 1] := mem[second + 1];
      if mem[second + 1] != 0 { mem[WordAt(mem[second + 1]) + 2] := block; }
      assert mem[..] == MergeWords(m, first);
      MergeDone(m, base, bs, k, first, mem[..], Join(bs, k));
    }

    /** The end of `allocate`. */
    method CutAndMark(block: nat, dataLen: nat, ghost need: nat, ghost p: Page, ghost k: nat)
      requires PageOk(mem[..], p) && k < |p.blocks| && Fits(p.blocks[k], need) && PageEnd(p.frame) + SPARE <= mem.Length
      requires 8 * need == dataLen + 8 * BLOCK_HEADER && block == Ptr(At(BaseOf(p.frame), p.blocks, k))
      modifies mem
      ensures IsCut(old(mem[..]), mem[..], At(BaseOf(p.frame), p.blocks, k), need, p.blocks[k].size)
    {
      ghost var bs, base, m := p.blocks, BaseOf(p.frame), mem[..];
      var w := WordAt(block);
      DivideHere(m, base, bs, k, w);
      hide DivideWritable, Laid, SameOutside, Split;
      if LenOf(mem[w]) - 8 * BLOCK_HEADER > dataLen {
        DivideFits(m, base, bs, k, need, w);
        DividedHeader(m, w, need, bs[k].size);
        var split := Divide(block, dataLen, base, bs, k, need);
      }
      mem[w] := mem[w] + USED_BIT;
    }

    /** `allocate`: the first free block that fits is cut to size and marked; 0 is NULL. */
    method Allocate(first: nat, len: nat, ghost p: Page) returns (addr: nat, ghost k: nat)
      requires PageOk(mem[..], p) && first == Ptr(BaseOf(p.frame)) && PageEnd(p.frame) + SPARE <= mem.Length
      modifies mem
      ensures k == FirstFit(p.blocks, Need(len), 0) && FirstRoom(p.blocks, k, len)
      ensures k < |p.blocks| ==> HoldsBytes(p, CutPage(p, k, Need(len)), k, len, addr)
      ensures k == |p.blocks| ==> addr == 0 && mem[..] == old(mem[..])
      ensures k < |p.blocks| ==>
        && addr == DataOf(At(BaseOf(p.frame), p.blocks, k))
        && IsCut(old(mem[..]), mem[..], At(BaseOf(p.frame), p.blocks, k), Need(len), p.blocks[k].size)
        && (PageOk(mem[..], CutPage(p, k, Need(len))) <==> RestRoomy(p.blocks[k], Need(len)))
        && (RestRoomy(p.blocks[k], Need(len)) ==> SameOutside(old(mem[..]), mem[..], BaseOf(p.frame), PageEnd(p.frame)))
    {
      ghost var bs, base, m := p.blocks, BaseOf(p.frame), mem[..];
      var aligned := 16 * ((len + 15) / 16);
      var need := Need(len);
      var cur := first;
      k := 0;
      while cur != 0
        invariant mem[..] == m
        invariant k <= |bs| && FirstFit(bs, need, k) == FirstFit(bs, need, 0)
        invariant cur == if k < |bs| then Ptr(At(base, bs, k)) else 0
        decreases |bs| - k
      {
        assert BlockAt(mem[..], base, bs, k);
        Apart(base, bs, k, |bs|);
        if !IsUsed(mem[WordAt(cur)]) && LenOf(mem[WordAt(cur)]) >= aligned + 8 * BLOCK_HEADER { break; }
        cur := mem[WordAt(cur) + 1];
        k := k + 1;
      }
      AllocatedBytes(bs, k, len);
      hide FirstRoom, HoldsBytes;
      if cur == 0 { return 0, k; }
      CutBytes(p, k, len);
      CutAndMark(cur, aligned, need, p, k);
      CutExact(m, p, k, need, At(base, bs, k), mem[..]);
      return cur + 24, k;
    }

    /** The block that `prev` or `next` of block `k` points to is there and tells its usage. */
    lemma Neighbours(base: nat, bs: seq<Block>, k: nat)
      requires Laid(mem[..], base, bs) && Roomy(bs) && k < |bs| && Total(bs) <= PAGE_WORDS
      ensures var w := At(base, bs, k);
        && w + 2 < mem.Length && mem[w] == Header(bs[k]) && (IsUsed(mem[w]) <==> bs[k].used)
        && mem[w + 1] == NextPtr(base, bs, k) && mem[w + 2] == PrevPtr(base, bs, k)
      ensures k + 1 < |bs| ==>
        var v := At(base, bs, k + 1); v < mem.Length && (IsUsed(mem[v]) <==> bs[k + 1].used)
      ensures k > 0 ==>
        var v := At(base, bs, k - 1); v < mem.Length && (IsUsed(mem[v]) <==> bs[k - 1].used)
    {
      assert BlockAt(mem[..], base, bs, k);
      Apart(base, bs, k, |bs|);
      if k + 1 < |bs| { assert BlockAt(mem[..], base, bs, k + 1); Apart(base, bs, k + 1, |bs|); }
      if k > 0 { assert BlockAt(mem[..], base, bs, k - 1); Apart(base, bs, k - 1, |bs|); }
    }

    /** `kfree` once it has found the block; `panicked` is the double free check. */
    method FreeBlock(block: nat, ghost p: Page, ghost k: nat) returns (panicked: bool)
      requires PageOk(mem[..], p) && k < |p.blocks| && block == Ptr(At(BaseOf(p.frame), p.blocks, k))
      modifies mem
      ensures panicked <==> !p.blocks[k].used
      ensures panicked ==> mem[..] == old(mem[..])
      ensures !panicked ==> PageOk(mem[..], Page(p.frame, Release(p.blocks, k)))
      ensures SameOutside(old(mem[..]), mem[..], BaseOf(p.frame), PageEnd(p.frame))
    {
      ghost var bs, base, m := p.blocks, BaseOf(p.frame), mem[..];
      var w := WordAt(block);
      Neighbours(base, bs, k);
      if !IsUsed(mem[w]) { return true; }
      mem[w] := mem[w] - USED_BIT;
      ghost var freed := bs[k := Block(bs[k].size, false)];
      FreedHere(m, base, bs, k, mem[..], freed);
      JoinBlocks(block, base, freed, k);
      OutsideTwice(m, m[w := Header(freed[k])], mem[..], base, base + Total(bs));
      ReleaseTotal(bs, k);
      ReleaseCoalesced(bs, k);
      return false;
    }

    /** The two joins of `kfree`. */
    method JoinBlocks(block: nat, ghost base: nat, ghost bs: seq<Block>, ghost k: nat)
      requires Laid(mem[..], base, bs) && Roomy(bs) && Total(bs) == FIRST_SIZE && base + Total(bs) <= mem.Length
      requires k < |bs| && !bs[k].used && block == Ptr(At(base, bs, k))
      modifies mem
      ensures var r := JoinBoth(bs, k);
        Laid(mem[..], base, r) && Roomy(r)
      ensures SameOutside(old(mem[..]), mem[..], base, base + Total(bs))
    {
      hide Laid, Roomy, SameOutside;
      ghost var m := mem[..];
      FreeNext(block, base, bs, k);
      ghost var m1 := mem[..];
      FreePrev(block, base, JoinIfFree(bs, k), k);
      OutsideTwice(m, m1, mem[..], base, base + Total(bs));
    }

    /** The middle step of `kfree`: join with a free successor. */
    method FreeNext(block: nat, ghost base: nat, ghost bs: seq<Block>, ghost k: nat)
      requires Laid(mem[..], base, bs) && Roomy(bs) && Total(bs) == FIRST_SIZE && base + Total(bs) <= mem.Length
      requires k < |bs| && !bs[k].used && block == Ptr(At(base, bs, k))
      modifies mem
      ensures var r := JoinIfFree(bs, k);
        && Laid(mem[..], base, r) && Roomy(r) && Total(r) == Total(bs) && At(base, r, k) == At(base, bs, k)
        && !r[k].used
      ensures SameOutside(old(mem[..]), mem[..], base, base + Total(bs))
    {
      var w := WordAt(block);
      Neighbours(base, bs, k);
      if mem[w + 1] != 0 && !IsUsed(mem[WordAt(mem[w + 1])]) {
        Merge(block, base, bs, k);
        JoinTotal(bs, k);
        JoinAt(base, bs, k, k);
      }
    }

    /** The last step of `kfree`: join with a free predecessor. */
    method FreePrev(block: nat, ghost base: nat, ghost bs: seq<Block>, ghost k: nat)
      requires Laid(mem[..], base, bs) && Roomy(bs) && Total(bs) == FIRST_SIZE && base + Total(bs) <= mem.Length
      requires k < |bs| && !bs[k].used && block == Ptr(At(base, bs, k))
      modifies mem
      ensures var r := if k > 0 && !bs[k - 1].used then Join(bs, k - 1) else bs;
        Laid(mem[..], base, r) && Roomy(r)
      ensures SameOutside(old(mem[..]), mem[..], base, base + Total(bs))
    {
      var w := WordAt(block);
      Neighbours(base, bs, k);
      if mem[w + 2] != 0 && !IsUsed(mem[WordAt(mem[w + 2])]) {
        ghost var j: nat := k - 1;
        Merge(mem[w + 2], base, bs, j);
      }
    }
  }
}
