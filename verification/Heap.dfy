/** The block list of one kernel pool as a pure sequence: first-fit allocation with splitting, and
    release with merging of neighbours. Sizes count 8-byte words and include the block header. */
module Heap {
  datatype Block = Block(size: nat, used: bool)

  /** `sizeof(struct block)` and `sizeof(struct pool)` in words. */
  const BLOCK_HEADER: nat := 4
  const POOL_HEADER: nat := 3
  const PAGE_WORDS: nat := 512
  /** The first block of a fresh pool. */
  const FIRST_SIZE: nat := PAGE_WORDS - POOL_HEADER

  /** `m` is the least multiple of 16 that is at least `len`. */
  ghost predicate Rounded(len: nat, m: nat) {
    m % 16 == 0 && len <= m < len + 16
  }

  /** The words a request for `len` bytes takes: its bytes rounded up, and 32 bytes for the header. */
  function Need(len: nat): (words: nat)
    ensures 8 * words >= 32 && Rounded(len, 8 * words - 32)
  {
    2 * ((len + 15) / 16) + BLOCK_HEADER
  }

  /** A free block of at least `m` bytes besides the header. */
  ghost predicate HasRoom(b: Block, m: nat) {
    !b.used && 8 * b.size >= m + 32
  }

  /** The distance of block `i` from the first block. */
  function Offset(bs: seq<Block>, i: nat): nat
    requires i <= |bs|
  {
    if i == 0 then 0 else Offset(bs, i - 1) + bs[i - 1].size
  }

  function Total(bs: seq<Block>): nat {
    Offset(bs, |bs|)
  }

  /** No two neighbours are both free. */
  predicate Coalesced(bs: seq<Block>) {
    forall i :: 0 <= i < |bs| - 1 ==> bs[i].used || bs[i + 1].used
  }

  predicate Fits(b: Block, need: nat) {
    !b.used && b.size >= need
  }

  /** The first free block that is large enough; the length of the list if there is none. */
  function FirstFit(bs: seq<Block>, need: nat, from: nat): (k: nat)
    requires from <= |bs|
    ensures from <= k <= |bs|
    ensures k < |bs| ==> Fits(bs[k], need)
    ensures forall i :: from <= i < k ==> !Fits(bs[i], need)
    decreases |bs| - from
  {
    if from == |bs| || Fits(bs[from], need) then from else FirstFit(bs, need, from + 1)
  }

  /** Block `k` becomes a used block of exactly `need` words; what is left over is a free block. */
  function Take(bs: seq<Block>, k: nat, need: nat): seq<Block>
    requires k < |bs| && Fits(bs[k], need)
  {
    if bs[k].size > need
    then bs[..k] + [Block(need, true), Block(bs[k].size - need, false)] + bs[k + 1..]
    else bs[k := Block(bs[k].size, true)]
  }

  /** First fit in bytes. */
  lemma FirstFitBytes(bs: seq<Block>, len: nat, m: nat)
    requires Rounded(len, m)
    ensures
      var k := FirstFit(bs, Need(len), 0);
      && (k < |bs| ==> HasRoom(bs[k], m))
      && forall i :: 0 <= i < k ==> !HasRoom(bs[i], m)
  {
    RoundedOnce(len, m, 8 * Need(len) - 32);
  }

  lemma RoundedOnce(len: nat, m: nat, n: nat)
    requires Rounded(len, m) && Rounded(len, n)
    ensures m == n
  {
    assert m / 16 == n / 16;
  }

  /** The block handed out holds the bytes asked for and, if it was cut, no more than rounding up takes. */
  lemma TakenBytes(bs: seq<Block>, k: nat, len: nat, m: nat)
    requires Rounded(len, m) && k < |bs| && Fits(bs[k], Need(len))
    ensures
      var taken := Take(bs, k, Need(len));
      && k < |taken| && taken[k].used && 8 * taken[k].size >= m + 32
      && (|taken| == |bs| + 1 || taken[k].size == bs[k].size)
      && (|taken| > |bs| ==>
            8 * taken[k].size == m + 32 && !taken[k + 1].used && taken[k].size + taken[k + 1].size == bs[k].size)
  {
    RoundedOnce(len, m, 8 * Need(len) - 32);
  }

  /** Blocks `k` and `k + 1` become one. */
  function Join(bs: seq<Block>, k: nat): seq<Block>
    requires k + 1 < |bs|
  {
    bs[..k] + [Block(bs[k].size + bs[k + 1].size, bs[k].used)] + bs[k + 2..]
  }

  function JoinIfFree(bs: seq<Block>, k: nat): seq<Block>
    requires k < |bs|
  {
    if k + 1 < |bs| && !bs[k + 1].used then Join(bs, k) else bs
  }

  /** Free block `k` joined with a free successor and a free predecessor. */
  function JoinBoth(bs: seq<Block>, k: nat): seq<Block>
    requires k < |bs|
  {
    var right := JoinIfFree(bs, k);
    if k > 0 && !right[k - 1].used then Join(right, k - 1) else right
  }

  /** `kfree` on block `k`. */
  function Release(bs: seq<Block>, k: nat): seq<Block>
    requires k < |bs|
  {
    JoinBoth(bs[k := Block(bs[k].size, false)], k)
  }

  // ----- where the blocks lie -----

  /** Lists with the same sizes lay their blocks out the same. */
  lemma {:induction false} OffsetSame(bs: seq<Block>, bs': seq<Block>, i: nat)
    requires i <= |bs| && i <= |bs'| && forall j :: 0 <= j < i ==> bs'[j].size == bs[j].size
    ensures Offset(bs', i) == Offset(bs, i)
  {
    if i > 0 { OffsetSame(bs, bs', i - 1); }
  }

  lemma {:induction false} OffsetMonotone(bs: seq<Block>, i: nat, j: nat)
    requires i < j <= |bs|
    ensures Offset(bs, i) + bs[i].size <= Offset(bs, j)
    decreases j
  {
    if i + 1 < j { OffsetMonotone(bs, i, j - 1); }
  }

  /** Joining blocks `k` and `k + 1` moves no other block. */
  lemma {:induction false} OffsetJoin(bs: seq<Block>, k: nat, i: nat)
    requires k + 1 < |bs| && i <= |Join(bs, k)|
    ensures Offset(Join(bs, k), i) == if i <= k then Offset(bs, i) else Offset(bs, i + 1)
  {
    var bs' := Join(bs, k);
    if i > 0 {
      OffsetJoin(bs, k, i - 1);
      if i - 1 < k {
        assert bs'[i - 1] == bs[i - 1];
      } else if i - 1 == k {
        assert Offset(bs, k + 2) == Offset(bs, k + 1) + bs[k + 1].size;
      } else {
        assert bs'[i - 1] == bs[i];
      }
    }
  }

  /** Splitting is joining read backwards. */
  lemma TakeJoin(bs: seq<Block>, k: nat, need: nat)
    requires k < |bs| && Fits(bs[k], need) && bs[k].size > need
    ensures k + 1 < |Take(bs, k, need)|
    ensures Join(Take(bs, k, need), k) == bs[k := Block(bs[k].size, true)]
  {
  }

  lemma TakeTotal(bs: seq<Block>, k: nat, need: nat)
    requires k < |bs| && Fits(bs[k], need)
    ensures Total(Take(bs, k, need)) == Total(bs)
  {
    var t, u := Take(bs, k, need), bs[k := Block(bs[k].size, true)];
    OffsetSame(bs, u, |bs|);
    if bs[k].size > need {
      TakeJoin(bs, k, need);
      OffsetJoin(t, k, |bs|);
    }
  }

  lemma JoinTotal(bs: seq<Block>, k: nat)
    requires k + 1 < |bs|
    ensures Total(Join(bs, k)) == Total(bs)
  {
    OffsetJoin(bs, k, |bs| - 1);
  }

  lemma ReleaseTotal(bs: seq<Block>, k: nat)
    requires k < |bs|
    ensures Total(Release(bs, k)) == Total(bs)
  {
    var freed := bs[k := Block(bs[k].size, false)];
    var right := JoinIfFree(freed, k);
    assert Total(freed) == Total(bs) by { OffsetSame(bs, freed, |bs|); }
    assert Total(right) == Total(freed) by { if k + 1 < |freed| { JoinTotal(freed, k); } }
    if k > 0 { JoinTotal(right, k - 1); }
  }

  // ----- neighbours are never both free -----

  lemma TakeCoalesced(bs: seq<Block>, k: nat, need: nat)
    requires k < |bs| && Fits(bs[k], need) && Coalesced(bs)
    ensures Coalesced(Take(bs, k, need))
  {
    var t := Take(bs, k, need);
    forall i | 0 <= i < |t| - 1 ensures t[i].used || t[i + 1].used {
      if bs[k].size > need {
        if i > k { assert i == k + 1 || t[i] == bs[i - 1]; assert t[i + 1] == bs[i]; assert bs[k].used || bs[k + 1].used; }
        if i < k { assert t[i] == bs[i]; assert bs[i].used || bs[i + 1].used; }
      } else if i != k && i + 1 != k {
        assert bs[i].used || bs[i + 1].used;
      }
    }
  }

  /** Neighbours other than the pair at `k - 1, k` and `k, k + 1` are not both free. */
  lemma ReleaseCoalesced(bs: seq<Block>, k: nat)
    requires k < |bs| && Coalesced(bs) && bs[k].used
    ensures Coalesced(Release(bs, k))
  {
    var freed := bs[k := Block(bs[k].size, false)];
    var right := JoinIfFree(freed, k);
    var r := Release(bs, k);
    forall i | 0 <= i < |right| - 1 && i + 1 != k ensures right[i].used || right[i + 1].used {
      assert i + 1 < |bs| ==> bs[i].used || bs[i + 1].used;
      assert i + 2 < |bs| ==> bs[i + 1].used || bs[i + 2].used;
    }
    forall i | 0 <= i < |r| - 1 ensures r[i].used || r[i + 1].used {
      if k > 0 && !right[k - 1].used {
        assert i + 2 < |right| ==> right[i + 1].used || right[i + 2].used || i + 2 == k;
        if i + 2 == k { assert bs[i].used || bs[i + 1].used; }
      }
    }
  }

  // ----- freeing undoes allocating -----

  /** Releasing a block that was just taken restores the list, for every list without two free
      neighbours. */
  lemma TakeReleaseRestores(bs: seq<Block>, k: nat, need: nat)
    requires k < |bs| && Fits(bs[k], need) && Coalesced(bs)
    ensures Release(Take(bs, k, need), k) == bs
  {
    var t := Take(bs, k, need);
    var freed := t[k := Block(t[k].size, false)];
    var right := JoinIfFree(freed, k);
    assert k > 0 ==> bs[k - 1].used;
    assert k + 1 < |bs| ==> bs[k + 1].used;
    if bs[k].size > need {
      assert freed[k + 1] == Block(bs[k].size - need, false);
      assert right == bs;
    } else {
      assert freed == bs;
    }
  }
}
