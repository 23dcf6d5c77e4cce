/** How the block list of a pool lies in memory, word by word, and what the pointer updates of
    `divide` and `merge` do to it. */
module PoolMemory {
  import opened Heap

  const DIRECT_BASE: nat := 0xFFFF_8000_0000_0000
  const USED_BIT: nat := 0x8000_0000_0000_0000

  function Header(b: Block): nat {
    8 * b.size + (if b.used then USED_BIT else 0)
  }

  /** IS_BLOCK_USED and GET_BLOCK_LEN. */
  predicate IsUsed(header: nat) {
    header >= USED_BIT
  }

  function LenOf(header: nat): nat {
    if header >= USED_BIT then header - USED_BIT else header
  }

  /** The kernel address of a word of physical memory, and back. */
  function Ptr(w: nat): nat {
    DIRECT_BASE + 8 * w
  }

  function WordAt(p: nat): nat
    requires p >= DIRECT_BASE
  {
    (p - DIRECT_BASE) / 8
  }

  /** The word of block `i` of a list laid out from word `base` on. */
  function At(base: nat, bs: seq<Block>, i: nat): nat
    requires i <= |bs|
  {
    base + Offset(bs, i)
  }

  function NextPtr(base: nat, bs: seq<Block>, i: nat): nat
    requires i < |bs|
  {
    if i + 1 < |bs| then Ptr(At(base, bs, i + 1)) else 0
  }

  function PrevPtr(base: nat, bs: seq<Block>, i: nat): nat
    requires i < |bs|
  {
    if i > 0 then Ptr(At(base, bs, i - 1)) else 0
  }

  /** The header, next and prev words of block `i` are what the list says. */
  ghost predicate BlockAt(mem: seq<nat>, base: nat, bs: seq<Block>, i: nat)
    requires i < |bs|
  {
    var w := At(base, bs, i);
    && w + 2 < |mem|
    && mem[w] == Header(bs[i]) && mem[w + 1] == NextPtr(base, bs, i) && mem[w + 2] == PrevPtr(base, bs, i)
  }

  ghost predicate Laid(mem: seq<nat>, base: nat, bs: seq<Block>) {
    bs != [] && forall i :: 0 <= i < |bs| ==> BlockAt(mem, base, bs, i)
  }

  /** Every block has room for its own three fields. */
  predicate Roomy(bs: seq<Block>) {
    forall i :: 0 <= i < |bs| ==> 3 <= bs[i].size
  }

  /** A block's fields lie strictly before every later block. */
  lemma Apart(base: nat, bs: seq<Block>, i: nat, j: nat)
    requires Roomy(bs) && i < j <= |bs|
    ensures At(base, bs, i) + 3 <= At(base, bs, i) + bs[i].size <= At(base, bs, j)
  {
    OffsetMonotone(bs, i, j);
  }

  // ----- marking -----

  /** Rewriting the header of block `k` with a new usage. */
  lemma MarkLaid(mem: seq<nat>, base: nat, bs: seq<Block>, k: nat, used: bool, mem': seq<nat>, bs': seq<Block>)
    requires Laid(mem, base, bs) && Roomy(bs) && k < |bs| && At(base, bs, k) < |mem|
    requires bs' == bs[k := Block(bs[k].size, used)] && mem' == mem[At(base, bs, k) := Header(bs'[k])]
    ensures Laid(mem', base, bs') && Roomy(bs')
  {
    forall i | 0 <= i < |bs'| ensures BlockAt(mem', base, bs', i) {
      assert BlockAt(mem, base, bs, i);
      OffsetSame(bs, bs', i);
      if i + 1 < |bs| { OffsetSame(bs, bs', i + 1); }
      if i > 0 { OffsetSame(bs, bs', i - 1); }
      if i < k { Apart(base, bs, i, k); }
      if k < i { Apart(base, bs, k, i); }
    }
  }

  // ----- merge -----

  /** `merge` on the block at word `w`. */
  function MergeWords(mem: seq<nat>, w: nat): (r: seq<nat>)
    requires w + 2 < |mem| && mem[w + 1] >= DIRECT_BASE && WordAt(mem[w + 1]) + 2 < |mem|
    requires mem[WordAt(mem[w + 1]) + 1] != 0 ==>
      mem[WordAt(mem[w + 1]) + 1] >= DIRECT_BASE && WordAt(mem[WordAt(mem[w + 1]) + 1]) + 2 < |mem|
  {
    var second := WordAt(mem[w + 1]);
    var next := mem[second + 1];
    var m: seq<nat> := mem[w := mem[w] + mem[second]][w + 1 := next];
    if next != 0 then m[WordAt(next) + 2 := Ptr(w)] else m
  }

  lemma JoinReadable(mem: seq<nat>, base: nat, bs: seq<Block>, k: nat, w: nat)
    requires Laid(mem, base, bs) && k + 1 < |bs| && w == At(base, bs, k)
    ensures w + 2 < |mem| && mem[w + 1] >= DIRECT_BASE && WordAt(mem[w + 1]) == At(base, bs, k + 1)
    ensures At(base, bs, k + 1) + 2 < |mem| && mem[At(base, bs, k + 1) + 1] == NextPtr(base, bs, k + 1)
    ensures k + 2 < |bs| ==>
      (NextPtr(base, bs, k + 1) >= DIRECT_BASE && WordAt(NextPtr(base, bs, k + 1)) == At(base, bs, k + 2)
       && At(base, bs, k + 2) + 2 < |mem|)
  {
    assert BlockAt(mem, base, bs, k) && BlockAt(mem, base, bs, k + 1);
    if k + 2 < |bs| { assert BlockAt(mem, base, bs, k + 2); }
  }

  lemma JoinAt(base: nat, bs: seq<Block>, k: nat, i: nat)
    requires k + 1 < |bs| && i <= |Join(bs, k)|
    ensures At(base, Join(bs, k), i) == if i <= k then At(base, bs, i) else At(base, bs, i + 1)
  {
    OffsetJoin(bs, k, i);
  }

  /** The words `merge` writes: two fields of the first block and the prev word of the block after the
      second. */
  ghost predicate Merged(mem: seq<nat>, base: nat, bs: seq<Block>, k: nat, mem': seq<nat>)
    requires k + 1 < |bs|
  {
    var w := At(base, bs, k);
    && |mem'| == |mem| && w + 1 < |mem|
    && mem'[w] == Header(bs[k]) + Header(bs[k + 1]) && mem'[w + 1] == NextPtr(base, bs, k + 1)
    && (k + 2 < |bs| ==> At(base, bs, k + 2) + 2 < |mem| && mem'[At(base, bs, k + 2) + 2] == Ptr(w))
    && forall v :: 0 <= v < |mem| && v != w && v != w + 1 && (k + 2 < |bs| ==> v != At(base, bs, k + 2) + 2) ==> mem'[v] == mem[v]
  }

  lemma MergeWordsMerged(mem: seq<nat>, base: nat, bs: seq<Block>, k: nat, w: nat)
    requires Laid(mem, base, bs) && Roomy(bs) && k + 1 < |bs| && w == At(base, bs, k)
    ensures w + 2 < |mem| && mem[w + 1] >= DIRECT_BASE && WordAt(mem[w + 1]) + 2 < |mem|
    ensures mem[WordAt(mem[w + 1]) + 1] != 0 ==>
      mem[WordAt(mem[w + 1]) + 1] >= DIRECT_BASE && WordAt(mem[WordAt(mem[w + 1]) + 1]) + 2 < |mem|
    ensures Merged(mem, base, bs, k, MergeWords(mem, w))
  {
    JoinReadable(mem, base, bs, k, w);
    assert BlockAt(mem, base, bs, k) && BlockAt(mem, base, bs, k + 1);
    Apart(base, bs, k, k + 1);
    if k + 2 < |bs| { Apart(base, bs, k, k + 2); }
  }

  lemma MergedBefore(mem: seq<nat>, base: nat, bs: seq<Block>, k: nat, mem': seq<nat>, bs': seq<Block>, i: nat)
    requires Laid(mem, base, bs) && Roomy(bs) && k + 1 < |bs| && !bs[k].used && !bs[k + 1].used
    requires bs' == Join(bs, k) && Merged(mem, base, bs, k, mem') && i < k
    ensures BlockAt(mem', base, bs', i)
  {
    JoinAt(base, bs, k, i);
    JoinAt(base, bs, k, i + 1);
    if i > 0 { JoinAt(base, bs, k, i - 1); }
    assert BlockAt(mem, base, bs, i);
    Apart(base, bs, i, k);
    if k + 2 < |bs| { Apart(base, bs, i, k + 2); }
  }

  lemma MergedHere(mem: seq<nat>, base: nat, bs: seq<Block>, k: nat, mem': seq<nat>, bs': seq<Block>)
    requires Laid(mem, base, bs) && Roomy(bs) && k + 1 < |bs| && !bs[k].used && !bs[k + 1].used
    requires bs' == Join(bs, k) && Merged(mem, base, bs, k, mem')
    ensures BlockAt(mem', base, bs', k)
  {
    JoinAt(base, bs, k, k);
    if k + 1 < |bs'| { JoinAt(base, bs, k, k + 1); }
    if k > 0 { JoinAt(base, bs, k, k - 1); }
    assert BlockAt(mem, base, bs, k);
    if k + 2 < |bs| { Apart(base, bs, k, k + 2); }
  }

  lemma MergedAfter(mem: seq<nat>, base: nat, bs: seq<Block>, k: nat, mem': seq<nat>, bs': seq<Block>, i: nat)
    requires Laid(mem, base, bs) && Roomy(bs) && k + 1 < |bs| && !bs[k].used && !bs[k + 1].used
    requires bs' == Join(bs, k) && Merged(mem, base, bs, k, mem') && k < i < |bs'|
    ensures BlockAt(mem', base, bs', i)
  {
    JoinAt(base, bs, k, i);
    if i + 1 < |bs'| { JoinAt(base, bs, k, i + 1); }
    JoinAt(base, bs, k, i - 1);
    var j := i + 1;
    assert BlockAt(mem, base, bs, j);
    Apart(base, bs, k, j);
    if k + 2 < j { Apart(base, bs, k + 2, j); }
  }

  /** `merge` of two free neighbours turns the layout of the list into the layout of the joined list. */
  lemma MergeLaid(mem: seq<nat>, base: nat, bs: seq<Block>, k: nat, mem': seq<nat>, bs': seq<Block>)
    requires Laid(mem, base, bs) && Roomy(bs) && k + 1 < |bs| && !bs[k].used && !bs[k + 1].used
    requires bs' == Join(bs, k) && Merged(mem, base, bs, k, mem')
    ensures Laid(mem', base, bs') && Roomy(bs')
  {
    forall i | 0 <= i < |bs'| ensures BlockAt(mem', base, bs', i) {
      if i < k {
        MergedBefore(mem, base, bs, k, mem', bs', i);
      } else if i == k {
        MergedHere(mem, base, bs, k, mem', bs');
      } else {
        MergedAfter(mem, base, bs, k, mem', bs', i);
      }
    }
  }

  // ----- divide -----

  /** The list after a free block is cut in two. */
  function Split(bs: seq<Block>, k: nat, need: nat): seq<Block>
    requires k < |bs| && bs[k].size > need
  {
    bs[..k] + [Block(need, false), Block(bs[k].size - need, false)] + bs[k + 1..]
  }

  /** The words that a division reads and writes are there. */
  predicate DivideWritable(mem: seq<nat>, w: nat, need: nat) {
    && w + 1 < |mem| && w + need + 2 < |mem|
    && (mem[w + 1] != 0 ==> mem[w + 1] >= DIRECT_BASE && WordAt(mem[w + 1]) + 2 < |mem|)
  }

  /** `divide` on the block of `size` words at `w`: every write in the order of the source, whether or
      not the second block has room for its fields. */
  function DivideWords(mem: seq<nat>, w: nat, need: nat, size: nat): seq<nat>
    requires DivideWritable(mem, w, need) && size > need
  {
    var w2, next := w + need, mem[w + 1];
    var m: seq<nat> := mem[w2 := 8 * (size - need)][w := 8 * need][w + 1 := Ptr(w2)][w2 + 1 := next][w2 + 2 := Ptr(w)];
    if next != 0 then m[WordAt(next) + 2 := Ptr(w2)] else m
  }

  /** The end of `allocate` on a block of `size` words at `w`: cut if anything is left over, then mark. */
  ghost predicate IsCut(mem: seq<nat>, mem': seq<nat>, w: nat, need: nat, size: nat) {
    && w < |mem|
    && if size > need then
         DivideWritable(mem, w, need) && mem' == DivideWords(mem, w, need, size)[w := 8 * need + USED_BIT]
       else
         mem' == mem[w := 8 * size + USED_BIT]
  }

  lemma SplitJoin(bs: seq<Block>, k: nat, need: nat)
    requires k < |bs| && bs[k].size > need && !bs[k].used
    ensures k + 1 < |Split(bs, k, need)| && Join(Split(bs, k, need), k) == bs
  {
  }

  /** Cutting block `k` moves no other block. */
  lemma SplitAt(base: nat, bs: seq<Block>, k: nat, need: nat, i: nat)
    requires k < |bs| && bs[k].size > need && !bs[k].used && i <= |bs|
    ensures i <= k ==> At(base, Split(bs, k, need), i) == At(base, bs, i)
    ensures i > k ==> At(base, Split(bs, k, need), i + 1) == At(base, bs, i)
    ensures At(base, Split(bs, k, need), k + 1) == At(base, bs, k) + need
  {
    var bs' := Split(bs, k, need);
    SplitJoin(bs, k, need);
    OffsetJoin(bs', k, i);
    OffsetJoin(bs', k, k);
    assert bs'[k].size == need;
  }

  /** The words `divide` writes when the second block has room for its fields. */
  ghost predicate Divided(mem: seq<nat>, base: nat, bs: seq<Block>, k: nat, need: nat, mem': seq<nat>)
    requires k < |bs| && bs[k].size > need
  {
    var w := At(base, bs, k);
    var w2 := w + need;
    && |mem'| == |mem| && w2 + 2 < |mem|
    && mem'[w] == 8 * need && mem'[w + 1] == Ptr(w2)
    && mem'[w2] == 8 * (bs[k].size - need) && mem'[w2 + 1] == NextPtr(base, bs, k) && mem'[w2 + 2] == Ptr(w)
    && (k + 1 < |bs| ==> At(base, bs, k + 1) + 2 < |mem| && mem'[At(base, bs, k + 1) + 2] == Ptr(w2))
    && mem'[w + 2] == mem[w + 2]
    && (forall v :: 0 <= v < |mem| && !(w <= v < w + bs[k].size) && (k + 1 < |bs| ==> v != At(base, bs, k + 1) + 2) ==>
          mem'[v] == mem[v])
  }

  lemma DivideReadable(mem: seq<nat>, base: nat, bs: seq<Block>, k: nat, w: nat)
    requires Laid(mem, base, bs) && k < |bs| && w == At(base, bs, k)
    ensures w + 2 < |mem| && mem[w + 1] == NextPtr(base, bs, k)
    ensures mem[w + 1] != 0 <==> k + 1 < |bs|
    ensures mem[w + 1] != 0 ==>
      mem[w + 1] >= DIRECT_BASE && WordAt(mem[w + 1]) == At(base, bs, k + 1) && WordAt(mem[w + 1]) + 2 < |mem|
  {
    assert BlockAt(mem, base, bs, k);
    if k + 1 < |bs| { assert BlockAt(mem, base, bs, k + 1); }
  }

  lemma DivideWordsDivided(mem: seq<nat>, base: nat, bs: seq<Block>, k: nat, need: nat, w: nat, mem': seq<nat>)
    requires Laid(mem, base, bs) && Roomy(bs) && k < |bs| && w == At(base, bs, k) && w + need + 2 < |mem|
    requires 3 <= need && need + 3 <= bs[k].size
    requires w + 1 < |mem| && (mem[w + 1] != 0 ==> mem[w + 1] >= DIRECT_BASE && WordAt(mem[w + 1]) + 2 < |mem|)
    requires mem' == DivideWords(mem, w, need, bs[k].size)
    ensures Divided(mem, base, bs, k, need, mem')
  {
    DivideReadable(mem, base, bs, k, w);
    if k + 1 < |bs| { Apart(base, bs, k, k + 1); }
  }

  lemma DividedBefore(mem: seq<nat>, base: nat, bs: seq<Block>, k: nat, need: nat, mem': seq<nat>, bs': seq<Block>, i: nat)
    requires Laid(mem, base, bs) && Roomy(bs) && k < |bs| && !bs[k].used && 3 <= need && need + 3 <= bs[k].size
    requires bs' == Split(bs, k, need) && Divided(mem, base, bs, k, need, mem') && i < k
    ensures BlockAt(mem', base, bs', i)
  {
    SplitAt(base, bs, k, need, i);
    SplitAt(base, bs, k, need, i + 1);
    if i > 0 { SplitAt(base, bs, k, need, i - 1); }
    assert BlockAt(mem, base, bs, i);
    Apart(base, bs, i, k);
    if k + 1 < |bs| { Apart(base, bs, i, k + 1); }
  }

  lemma DividedHere(mem: seq<nat>, base: nat, bs: seq<Block>, k: nat, need: nat, mem': seq<nat>, bs': seq<Block>)
    requires Laid(mem, base, bs) && Roomy(bs) && k < |bs| && !bs[k].used && 3 <= need && need + 3 <= bs[k].size
    requires bs' == Split(bs, k, need) && Divided(mem, base, bs, k, need, mem')
    ensures BlockAt(mem', base, bs', k) && BlockAt(mem', base, bs', k + 1)
  {
    SplitAt(base, bs, k, need, k);
    SplitAt(base, bs, k, need, k + 1);
    if k > 0 { SplitAt(base, bs, k, need, k - 1); }
    assert BlockAt(mem, base, bs, k);
  }

  lemma DividedAfter(mem: seq<nat>, base: nat, bs: seq<Block>, k: nat, need: nat, mem': seq<nat>, bs': seq<Block>, i: nat)
    requires Laid(mem, base, bs) && Roomy(bs) && k < |bs| && !bs[k].used && 3 <= need && need + 3 <= bs[k].size
    requires bs' == Split(bs, k, need) && Divided(mem, base, bs, k, need, mem') && k < i < |bs|
    ensures BlockAt(mem', base, bs', i + 1)
  {
    SplitAt(base, bs, k, need, i);
    SplitAt(base, bs, k, need, i + 1);
    SplitAt(base, bs, k, need, i - 1);
    SplitAt(base, bs, k, need, k);
    assert BlockAt(mem, base, bs, i);
    assert bs'[i + 1] == bs[i];
    Apart(base, bs, k, i);
    if k + 1 < i { Apart(base, bs, k + 1, i); }
  }

  /** `divide` with room for both blocks turns the layout of the list into that of the split list. */
  lemma DivideLaid(mem: seq<nat>, base: nat, bs: seq<Block>, k: nat, need: nat, mem': seq<nat>, bs': seq<Block>)
    requires Laid(mem, base, bs) && Roomy(bs) && k < |bs| && !bs[k].used && 3 <= need && need + 3 <= bs[k].size
    requires bs' == Split(bs, k, need) && Divided(mem, base, bs, k, need, mem')
    ensures Laid(mem', base, bs') && Roomy(bs')
  {
    forall i | 0 <= i < |bs'| ensures BlockAt(mem', base, bs', i) {
      if i < k {
        DividedBefore(mem, base, bs, k, need, mem', bs', i);
      } else if i <= k + 1 {
        DividedHere(mem, base, bs, k, need, mem', bs');
      } else {
        var j := i - 1;
        DividedAfter(mem, base, bs, k, need, mem', bs', j);
      }
    }
  }

  /** A second block of one or two words lies on top of its successor: the successor's header is
      overwritten by a pointer. */
  lemma DivideCorrupts(mem: seq<nat>, base: nat, bs: seq<Block>, k: nat, need: nat, w: nat, mem': seq<nat>)
    requires Laid(mem, base, bs) && Roomy(bs) && k + 1 < |bs| && Total(bs) <= PAGE_WORDS
    requires w == At(base, bs, k) && w + need + 2 < |mem| && 3 <= need < bs[k].size < need + 3
    requires mem[w + 1] != 0 ==> mem[w + 1] >= DIRECT_BASE && WordAt(mem[w + 1]) + 2 < |mem|
    requires mem' == DivideWords(mem, w, need, bs[k].size)
    ensures At(base, bs, k + 1) < |mem'| && mem'[At(base, bs, k + 1)] != Header(bs[k + 1])
  {
    DivideReadable(mem, base, bs, k, w);
    OffsetMonotone(bs, k + 1, |bs|);
    var v := At(base, bs, k + 1);
    assert v == w + bs[k].size;
    assert mem'[v] >= DIRECT_BASE;
  }

  /** Cutting a block keeps the list laid out and stays inside the pool if and only if what is left
      over has room for the three fields of a block. */
  lemma DivideExact(mem: seq<nat>, base: nat, bs: seq<Block>, k: nat, need: nat, w: nat, mem': seq<nat>)
    requires Laid(mem, base, bs) && Roomy(bs) && k < |bs| && Total(bs) <= PAGE_WORDS && !bs[k].used
    requires w == At(base, bs, k) && w + need + 2 < |mem| && 3 <= need < bs[k].size
    requires mem[w + 1] != 0 ==> mem[w + 1] >= DIRECT_BASE && WordAt(mem[w + 1]) + 2 < |mem|
    requires mem' == DivideWords(mem, w, need, bs[k].size)
    ensures Laid(mem', base, Split(bs, k, need)) && w + need + 2 < base + Total(bs) <==> need + 3 <= bs[k].size
  {
    OffsetMonotone(bs, k, |bs|);
    if need + 3 <= bs[k].size {
      DivideWordsDivided(mem, base, bs, k, need, w, mem');
      DivideLaid(mem, base, bs, k, need, mem', Split(bs, k, need));
    } else if k + 1 < |bs| {
      DivideCorrupts(mem, base, bs, k, need, w, mem');
      SplitAt(base, bs, k, need, k + 1);
      assert !BlockAt(mem', base, Split(bs, k, need), k + 2);
    }
  }

  // ----- addresses -----

  /** The address `allocate` returns for the block at word `w`: its `data` field. */
  function DataOf(w: nat): nat {
    Ptr(w) + 24
  }

  /** The block that `kfree` takes an address to belong to. */
  function BlockOf(addr: nat): int {
    addr - 8 * BLOCK_HEADER
  }

  /** `kfree` finds block `i` exactly for the address 32 bytes above it, while `allocate` hands out the
      address 24 bytes above it; so for no handed-out address does `kfree` find any block at all. */
  lemma KfreeMisses(base: nat, bs: seq<Block>, i: nat, j: nat, addr: nat)
    requires Roomy(bs) && i < |bs| && j < |bs|
    ensures BlockOf(addr) == Ptr(At(base, bs, j)) <==> addr == Ptr(At(base, bs, j)) + 32
    ensures addr == DataOf(At(base, bs, i)) ==> BlockOf(addr) != Ptr(At(base, bs, j))
  {
    if i < j { Apart(base, bs, i, j); }
    if j < i { Apart(base, bs, j, i); }
  }
}
