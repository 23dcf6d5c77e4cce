/** `alloc_frames(0)` as the pool and the page tables use it: one frame at a time. */
module SingleFrames {
  import opened Machine
  import opened Buddy
  import opened BuddyTheorems
  import opened Pmm

  lemma SingleRange(x: nat)
    ensures Range(x, 0) == {x}
  {
    forall f ensures f in Range(x, 0) <==> f == x {
      assert f == x ==> Within(f, x, 0);
    }
  }

  lemma CanServeOne(m: map<nat, Block>)
    ensures CanServe(m, 0) <==> FreeFrames(m) != {}
  {
    if b :| b in m && !m[b].taken && m[b].order >= 0 {
      assert Within(b, b, m[b].order) && b in FreeFrames(m);
    }
    if FreeFrames(m) != {} {
      var f :| f in FreeFrames(m);
      var b :| b in m && !m[b].taken && Within(f, b, m[b].order);
      assert m[b].order >= 0;
    }
  }

  /** A single frame leaves the free frames and becomes a used block. */
  ghost predicate TookOne(st: State, st': State, f: nat) {
    && f in FreeFrames(st.blocks) && f !in Used(st.blocks)
    && FreeFrames(st'.blocks) == FreeFrames(st.blocks) - {f}
    && Used(st'.blocks) == Used(st.blocks)[f := 0]
  }

  /** `alloc_frames(0)` as its callers see it. */
  method AllocOne(pmm: FrameAllocator) returns (addr: nat)
    requires pmm.Valid()
    modifies pmm, pmm.frames, pmm.freeRegion
    ensures pmm.Valid()
    ensures addr == INVALID_ADDRESS <==> FreeFrames(old(pmm.st).blocks) == {}
    ensures addr == INVALID_ADDRESS ==> pmm.st == old(pmm.st)
    ensures addr != INVALID_ADDRESS ==> addr % PAGE_SIZE == 0 && addr / PAGE_SIZE < pmm.frames.Length
    ensures addr != INVALID_ADDRESS ==> TookOne(old(pmm.st), pmm.st, addr / PAGE_SIZE)
  {
    CanServeOne(pmm.st.blocks);
    addr := pmm.AllocFrames(0);
    if addr != INVALID_ADDRESS { SingleRange(addr / PAGE_SIZE); }
  }
}
