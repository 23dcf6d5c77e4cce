/** Start-up: the bump allocator of mm/boot.c and the hand-over of usable memory in mm/mm.c, from the
    memory map of section 3.6.8 of the Multiboot2 specification. */
module Boot {
  import opened Machine
  import opened Dyadic
  import opened Buddy
  import opened BuddyTheorems
  import opened BuddyRuns
  import opened Pmm

  datatype Entry = Entry(addr: nat, len: nat, kind: nat)

  predicate Usable(e: Entry) {
    e.kind == 1
  }

  function LimitOf(e: Entry): nat {
    e.addr + e.len
  }

  /** ALIGN_UP. */
  function AlignUp(x: nat, a: nat): nat
    requires a > 0
  {
    (x + a - 1) / a * a
  }

  lemma AlignUpPage(x: nat)
    ensures x <= AlignUp(x, PAGE_SIZE) < x + PAGE_SIZE && AlignUp(x, PAGE_SIZE) % PAGE_SIZE == 0
    ensures forall y: nat :: x <= y && y % PAGE_SIZE == 0 ==> AlignUp(x, PAGE_SIZE) <= y
  {
  }

  /** The least multiple of `a` from `x` on. */
  lemma AlignUpExact(x: nat, a: nat)
    requires a > 0
    ensures x <= AlignUp(x, a) < x + a && AlignUp(x, a) % a == 0
  {
    var y := x + a - 1;
    assert y == y / a * a + y % a;
    MultipleMod(y / a, a);
  }

  // ----- the boot allocator -----

  /** `sizeof(struct frame)` and its alignment. */
  const FRAME_RECORD: nat := 16

  class BootAllocator {
    var begin: nat
    var tail: nat
    var limit: nat

    /** `init_boot_alloc`. */
    constructor (begin: nat, limit: nat)
      ensures this.begin == this.tail == begin && this.limit == limit
    {
      this.begin, this.tail, this.limit := begin, begin, limit;
    }

    /** `alloc_boot_memory`; None where the source panics. A block is aligned and lies above all earlier
        ones, below the limit, with as little as possible left out in between. */
    method Alloc(len: nat, align: nat) returns (r: Option<nat>)
      requires align > 0
      modifies this
      ensures begin == old(begin) && limit == old(limit)
      ensures r.None? <==> AlignUp(old(tail), align) + len >= limit
      ensures r.Some? ==> r.value == AlignUp(old(tail), align) && tail == r.value + len < limit
      ensures r.Some? ==> old(tail) <= r.value < old(tail) + align && r.value % align == 0
    {
      AlignUpExact(tail, align);
      tail := AlignUp(tail, align);
      if tail + len >= limit { return None; }
      r := Some(tail);
      tail := tail + len;
    }
  }

  // ----- the choice of the boot region -----

  /** The first usable entry of the greatest length among the first `n`; `n` if there is none with
      any length. */
  ghost predicate IsLargest(es: seq<Entry>, n: nat, k: nat)
    requires n <= |es|
  {
    if k < n then
      && es[k].kind == 1 && es[k].len > 0
      && (forall i :: 0 <= i < n && es[i].kind == 1 ==> es[i].len <= es[k].len)
      && (forall i :: 0 <= i < k && es[i].kind == 1 ==> es[i].len < es[k].len)
    else
      k == n && forall i :: 0 <= i < n && es[i].kind == 1 ==> es[i].len == 0
  }

  /** The first loop of `init_memory`. */
  method FindBootRegion(es: seq<Entry>) returns (begin: nat, limit: nat, len: nat, ghost k: nat)
    ensures IsLargest(es, |es|, k)
    ensures k < |es| ==> begin == es[k].addr && limit == LimitOf(es[k]) && len == es[k].len > 0
    ensures k == |es| ==> len == 0
  {
    begin, limit, len, k := INVALID_ADDRESS, INVALID_ADDRESS, 0, 0;
    ghost var found := false;
    for i := 0 to |es|
      invariant found ==> k < i && IsLargest(es, i, k) && begin == es[k].addr && limit == LimitOf(es[k]) && len == es[k].len
      invariant !found ==> len == 0 && IsLargest(es, i, i)
    {
      if es[i].len > len && Usable(es[i]) {
        len := es[i].len;
        begin := es[i].addr;
        limit := es[i].addr + len;
        k, found := i, true;
      }
    }
    if !found { k := |es|; }
  }

  /** `limit` is the end of usable memory among the first `n` entries. */
  ghost predicate IsRamLimit(es: seq<Entry>, n: nat, limit: nat)
    requires n <= |es|
  {
    && (forall i :: 0 <= i < n && es[i].kind == 1 ==> es[i].addr + es[i].len <= limit)
    && (limit == 0 || exists i :: 0 <= i < n && es[i].kind == 1 && limit == es[i].addr + es[i].len)
  }

  /** The second loop of `init_memory`. */
  method FindRamLimit(es: seq<Entry>) returns (limit: nat)
    ensures IsRamLimit(es, |es|, limit)
  {
    limit := 0;
    for i := 0 to |es|
      invariant IsRamLimit(es, i, limit)
    {
      if LimitOf(es[i]) > limit && Usable(es[i]) { limit := LimitOf(es[i]); }
    }
  }

  // ----- what is handed over -----

  /** The kernel image, and the boot region with the part of it in use. */
  datatype Layout = Layout(kernelStart: nat, kernelEnd: nat, bootBegin: nat, bootLimit: nat, bootTail: nat)

  /** Where the hand-over of a usable entry begins. */
  function BeginOf(e: Entry, l: Layout): nat {
    var b := if e.addr <= l.kernelStart && LimitOf(e) >= l.kernelEnd then AlignUp(l.kernelEnd, PAGE_SIZE) else e.addr;
    if b <= l.bootBegin && LimitOf(e) >= l.bootLimit then AlignUp(l.bootTail, PAGE_SIZE) else b
  }

  function FramesOf(e: Entry, l: Layout): set<nat> {
    if Usable(e) then Interval(BeginOf(e, l) / PAGE_SIZE, LimitOf(e) / PAGE_SIZE) else {}
  }

  /** The frames of the first `n` entries. */
  function HandedFrames(es: seq<Entry>, l: Layout, n: nat): set<nat>
    requires n <= |es|
  {
    if n == 0 then {} else HandedFrames(es, l, n - 1) + FramesOf(es[n - 1], l)
  }

  /** Usable entries do not overlap. */
  ghost predicate Disjoint(es: seq<Entry>) {
    forall i, j :: 0 <= i < |es| && 0 <= j < |es| && i != j && Usable(es[i]) && Usable(es[j]) ==>
      LimitOf(es[i]) <= es[j].addr || LimitOf(es[j]) <= es[i].addr
  }

  /** Where boot memory begins in the entry chosen for it: behind the kernel image if that is inside. */
  function BootBegin(e: Entry, kernelStart: nat, kernelEnd: nat): nat {
    if kernelStart >= e.addr && kernelEnd <= LimitOf(e) then AlignUp(kernelEnd, PAGE_SIZE) else e.addr
  }

  /** The layout that `init_memory` arrives at: the boot region is entry `k`, from behind the kernel image
      if that lies in it, and the boot allocator has stayed inside. */
  ghost predicate BootedFrom(es: seq<Entry>, l: Layout, k: nat) {
    && k < |es| && Usable(es[k])
    && l.bootLimit == LimitOf(es[k])
    && l.bootBegin == BootBegin(es[k], l.kernelStart, l.kernelEnd)
    && l.bootBegin <= l.bootTail < l.bootLimit
  }

  /** The kernel image lies inside usable entry `m`. */
  ghost predicate KernelIn(es: seq<Entry>, l: Layout, m: nat) {
    && m < |es| && Usable(es[m])
    && es[m].addr <= l.kernelStart < l.kernelEnd <= LimitOf(es[m])
  }

  /** Only the boot entry and the kernel entry begin late. */
  lemma BeginCases(es: seq<Entry>, l: Layout, k: nat, m: nat, i: nat)
    requires Disjoint(es) && BootedFrom(es, l, k) && KernelIn(es, l, m) && i < |es| && Usable(es[i]) && es[i].len > 0
    ensures BeginOf(es[i], l) ==
      if i == k then AlignUp(l.bootTail, PAGE_SIZE)
      else if i == m then AlignUp(l.kernelEnd, PAGE_SIZE)
      else es[i].addr
    ensures BeginOf(es[i], l) >= es[i].addr
  {
    AlignUpPage(l.kernelEnd);
    AlignUpPage(l.bootTail);
    if i != m {
      assert LimitOf(es[i]) <= es[m].addr || LimitOf(es[m]) <= es[i].addr;
    }
    if i != k {
      assert LimitOf(es[i]) <= es[k].addr || LimitOf(es[k]) <= es[i].addr;
    }
    if m != k {
      assert LimitOf(es[m]) <= es[k].addr || LimitOf(es[k]) <= es[m].addr;
    }
  }

  // ----- what is never handed over -----

  /** The bytes of a frame all lie in [`begin`, `limit`). */
  predicate PageInside(f: nat, begin: nat, limit: nat) {
    begin <= f * PAGE_SIZE && (f + 1) * PAGE_SIZE <= limit
  }

  /** No byte of a frame lies in [`begin`, `limit`). */
  predicate PageOutside(f: nat, begin: nat, limit: nat) {
    (f + 1) * PAGE_SIZE <= begin || limit <= f * PAGE_SIZE
  }

  lemma BeginAtLeast(e: Entry, l: Layout)
    requires l.kernelStart <= l.kernelEnd && l.bootBegin <= l.bootTail
    ensures BeginOf(e, l) >= e.addr
  {
    AlignUpPage(l.kernelEnd);
    AlignUpPage(l.bootTail);
  }

  /** Entries that do not overlap never hand over the same frame, even where they share a page. */
  lemma EntriesApart(es: seq<Entry>, l: Layout, i: nat, j: nat)
    requires Disjoint(es) && l.kernelStart <= l.kernelEnd && l.bootBegin <= l.bootTail
    requires i < |es| && j < |es| && i != j
    ensures FramesOf(es[i], l) !! FramesOf(es[j], l)
  {
    BeginAtLeast(es[i], l);
    BeginAtLeast(es[j], l);
  }

  lemma {:induction false} HandedApart(es: seq<Entry>, l: Layout, n: nat, j: nat)
    requires Disjoint(es) && l.kernelStart <= l.kernelEnd && l.bootBegin <= l.bootTail
    requires n <= j < |es|
    ensures HandedFrames(es, l, n) !! FramesOf(es[j], l)
  {
    if n > 0 {
      HandedApart(es, l, n - 1, j);
      EntriesApart(es, l, n - 1, j);
    }
  }

  /** Every frame handed over comes from a usable entry. */
  lemma {:induction false} HandedFrom(es: seq<Entry>, l: Layout, n: nat, f: nat) returns (i: nat)
    requires n <= |es| && f in HandedFrames(es, l, n)
    ensures i < n && f in FramesOf(es[i], l)
  {
    if f in FramesOf(es[n - 1], l) {
      i := n - 1;
    } else {
      i := HandedFrom(es, l, n - 1, f);
    }
  }

  /** What is handed over, in the numbers of the map: the whole pages of the entries of kind 1, from where
      the hand-over begins. */
  lemma HandedExactly(es: seq<Entry>, l: Layout, f: nat)
    ensures f in HandedFrames(es, l, |es|) <==>
            exists i :: 0 <= i < |es| && es[i].kind == 1
                        && BeginOf(es[i], l) / 4096 <= f < (es[i].addr + es[i].len) / 4096
  {
    if f in HandedFrames(es, l, |es|) {
      var i := HandedFrom(es, l, |es|, f);
    }
    if i :| 0 <= i < |es| && es[i].kind == 1 && BeginOf(es[i], l) / 4096 <= f < (es[i].addr + es[i].len) / 4096 {
      assert f in FramesOf(es[i], l);
      HandedIncludes(es, l, |es|, i, f);
    }
  }

  /** Every index handed over has a frame record. */
  lemma HandedInRange(es: seq<Entry>, l: Layout, ram: nat, f: nat)
    requires IsRamLimit(es, |es|, ram) && f in HandedFrames(es, l, |es|)
    ensures f < ram / PAGE_SIZE
  {
    var i := HandedFrom(es, l, |es|, f);
    assert f < LimitOf(es[i]) / PAGE_SIZE <= ram / PAGE_SIZE;
  }

  /** The pages that one entry hands over are made of its own bytes exactly if it is the boot entry or
      the kernel entry, or begins on a page boundary, or ends in the page it begins in. The source
      rounds the begin of an entry down. */
  lemma EntryPagesUsable(es: seq<Entry>, l: Layout, k: nat, m: nat, i: nat)
    requires Disjoint(es) && BootedFrom(es, l, k) && KernelIn(es, l, m) && i < |es| && Usable(es[i]) && es[i].len > 0
    ensures (forall f :: f in FramesOf(es[i], l) ==> PageInside(f, es[i].addr, LimitOf(es[i]))) <==>
            i == k || i == m || es[i].addr % PAGE_SIZE == 0 || es[i].addr / PAGE_SIZE == LimitOf(es[i]) / PAGE_SIZE
  {
    BeginCases(es, l, k, m, i);
    AlignUpPage(l.kernelEnd);
    AlignUpPage(l.bootTail);
    if !(i == k || i == m || es[i].addr % PAGE_SIZE == 0 || es[i].addr / PAGE_SIZE == LimitOf(es[i]) / PAGE_SIZE) {
      var f := es[i].addr / PAGE_SIZE;
      assert f in FramesOf(es[i], l) && !PageInside(f, es[i].addr, LimitOf(es[i]));
    }
  }

  /** The first page that the entry hands over reaches back below `limit`, where the entry does not. */
  predicate ReachesBack(e: Entry, limit: nat) {
    && e.addr / PAGE_SIZE < LimitOf(e) / PAGE_SIZE
    && e.addr / PAGE_SIZE * PAGE_SIZE < limit <= e.addr
  }

  lemma {:induction false} HandedIncludes(es: seq<Entry>, l: Layout, n: nat, i: nat, f: nat)
    requires i < n <= |es| && f in FramesOf(es[i], l)
    ensures f in HandedFrames(es, l, n)
  {
    if i < n - 1 { HandedIncludes(es, l, n - 1, i, f); }
  }

  /** An entry that begins as the map says stays out of a region in another entry exactly if its first page
      does not reach back into that. */
  lemma EntryOutside(es: seq<Entry>, l: Layout, i: nat, j: nat, begin: nat, limit: nat)
    requires Disjoint(es) && i < |es| && j < |es| && i != j && Usable(es[i]) && Usable(es[j])
    requires BeginOf(es[i], l) == es[i].addr && es[j].addr <= begin <= limit <= LimitOf(es[j])
    ensures (forall f :: f in FramesOf(es[i], l) ==> PageOutside(f, begin, limit)) <==> !ReachesBack(es[i], limit)
  {
    var e := es[i];
    assert LimitOf(e) <= es[j].addr || LimitOf(es[j]) <= e.addr;
    if ReachesBack(e, limit) {
      var f := e.addr / PAGE_SIZE;
      assert f in FramesOf(e, l) && !PageOutside(f, begin, limit);
    } else {
      forall f | f in FramesOf(e, l) ensures PageOutside(f, begin, limit) {
        if f > e.addr / PAGE_SIZE { assert f * PAGE_SIZE > e.addr; }
      }
    }
  }

  /** The boot entry and the kernel entry never hand over kernel or boot memory. */
  lemma LateOutside(es: seq<Entry>, l: Layout, k: nat, m: nat, i: nat, f: nat)
    requires Disjoint(es) && BootedFrom(es, l, k) && KernelIn(es, l, m) && (i == k || i == m) && f in FramesOf(es[i], l)
    ensures PageOutside(f, l.kernelStart, l.kernelEnd) && PageOutside(f, l.bootBegin, l.bootTail)
  {
    BeginCases(es, l, k, m, i);
    AlignUpPage(l.kernelEnd);
    AlignUpPage(l.bootTail);
    assert BeginOf(es[i], l) <= f * PAGE_SIZE && (f + 1) * PAGE_SIZE <= LimitOf(es[i]);
    if k != m {
      assert LimitOf(es[k]) <= es[m].addr || LimitOf(es[m]) <= es[k].addr;
    }
  }

  /** No entry but the boot entry and the kernel entry reaches back below `limit`. */
  ghost predicate NoneReachesBack(es: seq<Entry>, k: nat, m: nat, limit: nat) {
    forall i :: 0 <= i < |es| && i != k && i != m && Usable(es[i]) ==> !ReachesBack(es[i], limit)
  }

  /** Memory in the boot entry or the kernel entry that those two keep stays out of all pages handed over
      exactly if no other entry reaches back into it. */
  lemma RegionKept(es: seq<Entry>, l: Layout, k: nat, m: nat, j: nat, begin: nat, limit: nat)
    requires Disjoint(es) && BootedFrom(es, l, k) && KernelIn(es, l, m) && (j == k || j == m)
    requires es[j].addr <= begin <= limit <= LimitOf(es[j])
    requires forall i, f :: (i == k || i == m) && f in FramesOf(es[i], l) ==> PageOutside(f, begin, limit)
    ensures (forall f :: f in HandedFrames(es, l, |es|) ==> PageOutside(f, begin, limit)) <==> NoneReachesBack(es, k, m, limit)
  {
    forall i | 0 <= i < |es| && i != k && i != m && Usable(es[i])
      ensures (forall f :: f in FramesOf(es[i], l) ==> PageOutside(f, begin, limit)) <==> !ReachesBack(es[i], limit)
    {
      if es[i].len > 0 { BeginCases(es, l, k, m, i); } else { EmptyEntry(es[i], l); }
      if es[i].len > 0 { EntryOutside(es, l, i, j, begin, limit); }
    }
    if NoneReachesBack(es, k, m, limit) {
      forall f | f in HandedFrames(es, l, |es|) ensures PageOutside(f, begin, limit) {
        var i := HandedFrom(es, l, |es|, f);
      }
    } else {
      var i :| 0 <= i < |es| && i != k && i != m && Usable(es[i]) && ReachesBack(es[i], limit);
      var f :| f in FramesOf(es[i], l) && !PageOutside(f, begin, limit);
      HandedIncludes(es, l, |es|, i, f);
    }
  }

  /** Boot memory never overlaps the kernel image. */
  lemma BootAvoidsKernel(es: seq<Entry>, l: Layout, k: nat, m: nat)
    requires Disjoint(es) && BootedFrom(es, l, k) && KernelIn(es, l, m)
    ensures l.kernelEnd <= l.bootBegin || l.bootTail <= l.kernelStart
  {
    AlignUpPage(l.kernelEnd);
    if k != m {
      assert LimitOf(es[k]) <= es[m].addr || LimitOf(es[m]) <= es[k].addr;
    }
  }

  lemma EmptyEntry(e: Entry, l: Layout)
    requires e.len == 0 && l.kernelStart <= l.kernelEnd && l.bootBegin <= l.bootTail
    ensures FramesOf(e, l) == {} && forall limit :: !ReachesBack(e, limit)
  {
    BeginAtLeast(e, l);
  }

  /** No kernel byte is handed over exactly if no further entry begins in the page in which the kernel
      image ends, behind it, and has a page boundary inside. */
  lemma KernelKeptExact(es: seq<Entry>, l: Layout, k: nat, m: nat)
    requires Disjoint(es) && BootedFrom(es, l, k) && KernelIn(es, l, m)
    ensures (forall f :: f in HandedFrames(es, l, |es|) ==> PageOutside(f, l.kernelStart, l.kernelEnd)) <==>
            NoneReachesBack(es, k, m, l.kernelEnd)
  {
    forall i, f | (i == k || i == m) && f in FramesOf(es[i], l) ensures PageOutside(f, l.kernelStart, l.kernelEnd) {
      LateOutside(es, l, k, m, i, f);
    }
    RegionKept(es, l, k, m, m, l.kernelStart, l.kernelEnd);
  }

  /** No byte of boot memory, where the frame records are, is handed over exactly if no further entry
      begins in the page in which boot memory ends, behind it, and has a page boundary inside. */
  lemma BootKeptExact(es: seq<Entry>, l: Layout, k: nat, m: nat)
    requires Disjoint(es) && BootedFrom(es, l, k) && KernelIn(es, l, m)
    ensures (forall f :: f in HandedFrames(es, l, |es|) ==> PageOutside(f, l.bootBegin, l.bootTail)) <==>
            NoneReachesBack(es, k, m, l.bootTail)
  {
    BeginAtLeast(es[k], l);
    AlignUpPage(l.kernelEnd);
    forall i, f | (i == k || i == m) && f in FramesOf(es[i], l) ensures PageOutside(f, l.bootBegin, l.bootTail) {
      LateOutside(es, l, k, m, i, f);
    }
    RegionKept(es, l, k, m, k, l.bootBegin, l.bootTail);
  }

  /** Usable entries begin on page boundaries. */
  ghost predicate PageAligned(es: seq<Entry>) {
    forall i :: 0 <= i < |es| && Usable(es[i]) ==> es[i].addr % PAGE_SIZE == 0
  }

  /** For page-aligned entries, every page handed over consists of bytes of one usable entry and of no
      byte of the kernel image or of boot memory. */
  lemma HandedSafe(es: seq<Entry>, l: Layout, k: nat, m: nat, f: nat)
    requires Disjoint(es) && PageAligned(es) && BootedFrom(es, l, k) && KernelIn(es, l, m)
    requires f in HandedFrames(es, l, |es|)
    ensures exists i :: 0 <= i < |es| && Usable(es[i]) && PageInside(f, es[i].addr, LimitOf(es[i]))
    ensures PageOutside(f, l.kernelStart, l.kernelEnd)
    ensures PageOutside(f, l.bootBegin, l.bootTail)
  {
    var i := HandedFrom(es, l, |es|, f);
    BeginAtLeast(es[i], l);
    EntryPagesUsable(es, l, k, m, i);
    KernelKeptExact(es, l, k, m);
    BootKeptExact(es, l, k, m);
  }

  // ----- the whole of it -----

  /** Boot memory has room for `count` frame records, and a byte more. */
  predicate RecordsFit(bootBegin: nat, bootLimit: nat, count: nat) {
    AlignUp(bootBegin, FRAME_RECORD) + count * FRAME_RECORD < bootLimit
  }

  datatype Booted = Panicked | Booted(pmm: FrameAllocator, layout: Layout)

  /** Exactly the frames of the first `n` entries are managed, and all of them are free. */
  ghost predicate Progressed(es: seq<Entry>, l: Layout, n: nat, st: State)
    requires n <= |es|
  {
    st.managed == HandedFrames(es, l, n) && FreeFrames(st.blocks) == st.managed && Used(st.blocks) == map[]
  }

  /** All of entry `e` is unreserved and in the array of records. */
  ghost predicate Ready(e: Entry, frames: seq<Frame>) {
    Usable(e) ==>
      && LimitOf(e) / PAGE_SIZE <= |frames|
      && forall f :: e.addr / PAGE_SIZE <= f < LimitOf(e) / PAGE_SIZE ==> !frames[f].flags.reserved
  }

  /** The third loop of `init_memory`. */
  method UnreserveUsable(es: seq<Entry>, pmm: FrameAllocator)
    requires pmm.Valid()
    requires forall i :: 0 <= i < |es| && Usable(es[i]) ==> LimitOf(es[i]) / PAGE_SIZE <= pmm.frames.Length
    modifies pmm.frames
    ensures pmm.Valid()
    ensures forall i :: 0 <= i < |es| ==> Ready(es[i], pmm.frames[..])
  {
    for i := 0 to |es|
      invariant pmm.Valid()
      invariant forall j :: 0 <= j < i ==> Ready(es[j], pmm.frames[..])
    {
      if Usable(es[i]) {
        pmm.UnreserveFrameRegion(es[i].addr / PAGE_SIZE, LimitOf(es[i]) / PAGE_SIZE);
      }
    }
  }

  lemma HandedOnce(es: seq<Entry>, l: Layout, i: nat, next: nat, st: State, st': State, n: nat)
    requires i < |es| && next == i + 1 && Progressed(es, l, i, st) && Usable(es[i])
    requires HandedOver(st, st', n, BeginOf(es[i], l) / PAGE_SIZE, LimitOf(es[i]) / PAGE_SIZE)
    ensures Progressed(es, l, next, st')
  {
  }

  /** The body of the last loop of `init_memory`. */
  method HandOverEntry(es: seq<Entry>, l: Layout, i: nat, pmm: FrameAllocator)
    requires i < |es| && pmm.Valid() && Progressed(es, l, i, pmm.st) && Ready(es[i], pmm.frames[..]) && Usable(es[i])
    requires Disjoint(es) && l.kernelStart <= l.kernelEnd && l.bootBegin <= l.bootTail
    modifies pmm, pmm.frames, pmm.freeRegion
    ensures pmm.Valid() && Progressed(es, l, i + 1, pmm.st)
    ensures forall f :: 0 <= f < pmm.frames.Length ==> pmm.frames[f].flags == old(pmm.frames[f].flags)
  {
    var begin, limit := es[i].addr, LimitOf(es[i]);
    if begin <= l.kernelStart && limit >= l.kernelEnd { begin := AlignUp(l.kernelEnd, PAGE_SIZE); }
    if begin <= l.bootBegin && limit >= l.bootLimit { begin := AlignUp(l.bootTail, PAGE_SIZE); }
    assert begin == BeginOf(es[i], l);
    BeginAtLeast(es[i], l);
    HandedApart(es, l, i, i);
    hide Inv, HandedOver, Progressed;
    var first, end := begin / PAGE_SIZE, limit / PAGE_SIZE;
    ghost var st, next := pmm.st, i + 1;
    ProgressedManaged(es, l, i, st);
    pmm.InvOfValid();
    HandOverExact(st, pmm.frames.Length, first, end);
    pmm.InitBuddyAllocator(first, end);
    HandedOnce(es, l, i, next, st, pmm.st, pmm.frames.Length);
  }

  lemma ProgressedManaged(es: seq<Entry>, l: Layout, i: nat, st: State)
    requires i <= |es| && Progressed(es, l, i, st)
    ensures st.managed == HandedFrames(es, l, i)
  {
  }

  /** The last loop of `init_memory`. */
  method HandOverUsable(es: seq<Entry>, l: Layout, pmm: FrameAllocator)
    requires pmm.Valid() && pmm.st == Empty
    requires Disjoint(es) && l.kernelStart <= l.kernelEnd && l.bootBegin <= l.bootTail
    requires forall i :: 0 <= i < |es| ==> Ready(es[i], pmm.frames[..])
    modifies pmm, pmm.frames, pmm.freeRegion
    ensures pmm.Valid() && Progressed(es, l, |es|, pmm.st)
  {
    EmptyInv(pmm.frames.Length);
    hide Progressed;
    ghost var fs := pmm.frames[..];
    ProgressedEmpty(es, l);
    for i := 0 to |es|
      invariant pmm.Valid() && Progressed(es, l, i, pmm.st)
      invariant forall f :: 0 <= f < pmm.frames.Length ==> pmm.frames[f].flags == fs[f].flags
    {
      assert Ready(es[i], fs);
      if Usable(es[i]) {
        HandOverEntry(es, l, i, pmm);
      } else {
        ProgressedOn(es, l, i, pmm.st);
      }
    }
  }

  lemma ProgressedEmpty(es: seq<Entry>, l: Layout)
    ensures Progressed(es, l, 0, Empty)
  {
    EmptyInv(0);
  }

  lemma ProgressedOn(es: seq<Entry>, l: Layout, i: nat, st: State)
    requires i < |es| && !Usable(es[i]) && Progressed(es, l, i, st)
    ensures Progressed(es, l, i + 1, st)
  {
  }

  /** The layout that `init_memory` computes from a map whose usable memory ends at `ram`: boot memory is in
      the longest usable entry and holds one record for every frame. */
  ghost predicate Arrived(es: seq<Entry>, l: Layout, k: nat, ram: nat) {
    && IsLargest(es, |es|, k) && IsRamLimit(es, |es|, ram) && BootedFrom(es, l, k)
    && l.bootTail == AlignUp(l.bootBegin, 16) + ram / 4096 * 16
  }

  /** A map and the layout computed from it that lose kernel bytes: the kernel at 1 MiB ends with its own
      entry inside a page, and the next usable entry begins there and hands that page over. */
  lemma UnalignedEntryLosesKernel()
    ensures exists es, l, k, m, ram, f ::
      && Disjoint(es) && Arrived(es, l, k, ram) && KernelIn(es, l, m) && f in HandedFrames(es, l, |es|)
      && !PageOutside(f, l.kernelStart, l.kernelEnd)
  {
    var es := [Entry(0x10_0000, 0x2_0064, 1), Entry(0x12_0064, 0x4000, 1), Entry(0x20_0000, 0x10_0000, 1)];
    var l := Layout(0x10_0000, 0x12_0064, 0x20_0000, 0x30_0000, 0x20_3000);
    assert LimitOf(es[0]) == 0x12_0064 && LimitOf(es[1]) == 0x12_4064 && LimitOf(es[2]) == 0x30_0000;
    assert Disjoint(es) && BootedFrom(es, l, 2) && KernelIn(es, l, 0);
    assert AlignUp(l.bootBegin, FRAME_RECORD) == 0x20_0000 && 0x30_0000 / PAGE_SIZE == 0x300;
    assert Arrived(es, l, 2, 0x30_0000);
    assert ReachesBack(es[1], l.kernelEnd);
    KernelKeptExact(es, l, 2, 0);
    var f :| f in HandedFrames(es, l, |es|) && !PageOutside(f, l.kernelStart, l.kernelEnd);
  }

  lemma RecordsToPageEnd(es: seq<Entry>, l: Layout)
    requires es == [Entry(0x10_0000, 0x1_0000, 1), Entry(0x20_0000, 0x2_0064, 1), Entry(0x22_0064, 0x4000, 1),
                    Entry(0x200_0000, 0x1000, 1)]
    requires l == Layout(0x10_0000, 0x10_8000, 0x20_0000, 0x22_0064, 0x22_0010)
    ensures Disjoint(es) && Arrived(es, l, 1, 0x200_1000)
  {
    assert LimitOf(es[0]) == 0x11_0000 && LimitOf(es[1]) == 0x22_0064;
    assert LimitOf(es[2]) == 0x22_4064 && LimitOf(es[3]) == 0x200_1000;
    assert AlignUp(l.bootBegin, FRAME_RECORD) == 0x20_0000 && 0x200_1000 / PAGE_SIZE == 0x2001;
    hide AlignUp;
  }

  /** And one that loses frame records: they fill the longest entry up to its last page, in which the next
      usable entry begins. */
  lemma UnalignedEntryLosesRecords()
    ensures exists es, l, k, m, ram, f ::
      && Disjoint(es) && Arrived(es, l, k, ram) && KernelIn(es, l, m) && f in HandedFrames(es, l, |es|)
      && !PageOutside(f, l.bootBegin, l.bootTail)
  {
    var es := [Entry(0x10_0000, 0x1_0000, 1), Entry(0x20_0000, 0x2_0064, 1), Entry(0x22_0064, 0x4000, 1),
               Entry(0x200_0000, 0x1000, 1)];
    var l := Layout(0x10_0000, 0x10_8000, 0x20_0000, 0x22_0064, 0x22_0010);
    RecordsToPageEnd(es, l);
    assert KernelIn(es, l, 0) && ReachesBack(es[2], l.bootTail);
    hide Disjoint, IsLargest, IsRamLimit, HandedFrames, PageOutside;
    BootKeptExact(es, l, 1, 0);
    var f :| f in HandedFrames(es, l, |es|) && !PageOutside(f, l.bootBegin, l.bootTail);
  }

  /** The first half of `init_memory`, up to the allocation of the frame records; None where it panics. */
  method ReserveRecords(es: seq<Entry>, kernelStart: nat, kernelEnd: nat)
    returns (l: Option<Layout>, count: nat, ghost k: nat, ghost ram: nat)
    ensures IsLargest(es, |es|, k) && IsRamLimit(es, |es|, ram) && count == ram / PAGE_SIZE
    ensures l.None? <==> k == |es| || !RecordsFit(BootBegin(es[k], kernelStart, kernelEnd), LimitOf(es[k]), count)
    ensures l.Some? ==>
      l.value.kernelStart == kernelStart && l.value.kernelEnd == kernelEnd && Arrived(es, l.value, k, ram)
  {
    var begin, limit, len;
    begin, limit, len, k := FindBootRegion(es);
    var top := FindRamLimit(es);
    ram, count := top, top / PAGE_SIZE;
    if len == 0 { return None, count, k, ram; }
    if kernelStart >= begin && kernelEnd <= limit { begin := AlignUp(kernelEnd, PAGE_SIZE); }
    var boot := new BootAllocator(begin, limit);
    if top == 0 { return None, count, k, ram; }
    var records := boot.Alloc(count * FRAME_RECORD, FRAME_RECORD);
    if records.None? { return None, count, k, ram; }
    l := Some(Layout(kernelStart, kernelEnd, begin, limit, boot.tail));
  }

  /** The second half: the frame records, and the hand-over. */
  method StartFrames(es: seq<Entry>, l: Layout, count: nat, ghost ram: nat) returns (pmm: FrameAllocator)
    requires Disjoint(es) && IsRamLimit(es, |es|, ram) && count == ram / PAGE_SIZE <= FRAME_LIMIT
    requires l.kernelStart <= l.kernelEnd && l.bootBegin <= l.bootTail
    ensures fresh(pmm) && pmm.Valid() && Progressed(es, l, |es|, pmm.st) && pmm.frames.Length == count
  {
    hide Progressed, FrameAllocator.Valid;
    pmm := new FrameAllocator(count * PAGE_SIZE);
    assert forall i :: 0 <= i < |es| && Usable(es[i]) ==> LimitOf(es[i]) / PAGE_SIZE <= count;
    UnreserveUsable(es, pmm);
    HandOverUsable(es, l, pmm);
  }

  /** `init_memory`. It panics exactly if no usable entry has any length or the largest one has no room
      for the frame records; otherwise every frame of `HandedFrames` is free and managed, once. */
  method InitMemory(es: seq<Entry>, kernelStart: nat, kernelEnd: nat) returns (r: Booted, ghost k: nat, ghost ram: nat)
    requires Disjoint(es) && kernelStart <= kernelEnd
    requires forall i :: 0 <= i < |es| ==> LimitOf(es[i]) <= INVALID_ADDRESS
    ensures IsLargest(es, |es|, k) && IsRamLimit(es, |es|, ram)
    ensures r.Panicked? <==>
      k == |es| || !RecordsFit(BootBegin(es[k], kernelStart, kernelEnd), LimitOf(es[k]), ram / PAGE_SIZE)
    ensures r.Booted? ==>
      && fresh(r.pmm) && r.pmm.Valid() && Progressed(es, r.layout, |es|, r.pmm.st)
      && r.layout.kernelStart == kernelStart && r.layout.kernelEnd == kernelEnd && Arrived(es, r.layout, k, ram)
      && r.pmm.frames.Length == ram / PAGE_SIZE
  {
    var l, count;
    l, count, k, ram := ReserveRecords(es, kernelStart, kernelEnd);
    if l.None? { return Panicked, k, ram; }
    var pmm := StartFrames(es, l.value, count, ram);
    r := Booted(pmm, l.value);
  }
}
