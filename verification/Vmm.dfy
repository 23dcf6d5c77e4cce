/** The virtual memory manager of mm/vmm.c on top of the frame allocator. */
module Vmm {
  import opened Machine
  import opened Dyadic
  import opened Buddy
  import opened BuddyTheorems
  import opened BuddyProofs
  import opened Pmm
  import opened SingleFrames
  import opened PageTables
  import opened Teardown
  import opened Spaces
  import H = Heap
  import P = Pool
  import K = KernelPool

  const LINK_ATTR: nat := 7

  // ----- virtual addresses -----

  /** PML4_INDEX, PDPT_INDEX, PD_INDEX and PT_INDEX. */
  function PageOf(virt: nat): (p: seq<nat>)
    ensures IsPage(p)
  {
    [(virt / 0x80_0000_0000) % 512, (virt / 0x4000_0000) % 512, (virt / 0x20_0000) % 512, (virt / 0x1000) % 512]
  }

  /** The 36-bit page number. */
  function PageNumber(virt: nat): nat {
    (virt / 0x1000) % 0x10_0000_0000
  }

  /** The page number with the given indices. */
  function NumberOf(p: seq<nat>): nat
    requires |p| == 4
  {
    ((p[0] * 512 + p[1]) * 512 + p[2]) * 512 + p[3]
  }

  lemma ShiftNine(a: nat)
    ensures a / 0x20_0000 == (a / 0x1000) / 512
    ensures a / 0x4000_0000 == (a / 0x20_0000) / 512
    ensures a / 0x80_0000_0000 == (a / 0x4000_0000) / 512
  {
  }

  lemma Positional(v0: nat, v1: nat, v2: nat, v3: nat, v4: nat, d0: nat, d1: nat, d2: nat, d3: nat)
    requires v0 == 512 * v1 + d0 && v1 == 512 * v2 + d1 && v2 == 512 * v3 + d2 && v3 == 512 * v4 + d3
    requires d0 < 512 && d1 < 512 && d2 < 512 && d3 < 512
    ensures v0 % 0x10_0000_0000 == ((d3 * 512 + d2) * 512 + d1) * 512 + d0
  {
    Remainder(v0, v4, 0x10_0000_0000, ((d3 * 512 + d2) * 512 + d1) * 512 + d0);
  }

  /** The last 36 bits of a number, nine bits at a time. */
  lemma LastBits(v0: nat, v1: nat, v2: nat, v3: nat)
    requires v1 == v0 / 512 && v2 == v1 / 512 && v3 == v2 / 512
    ensures v0 % 0x10_0000_0000 == (((v3 % 512) * 512 + v2 % 512) * 512 + v1 % 512) * 512 + v0 % 512
  {
    var v4 := v3 / 512;
    Positional(v0, v1, v2, v3, v4, v0 % 512, v1 % 512, v2 % 512, v3 % 512);
  }

  lemma PageOfNumber(a: nat)
    ensures PageNumber(a) == NumberOf(PageOf(a))
    ensures
      var p := PageOf(a);
      && p[0] < 512 && p[1] < 512 && p[2] < 512 && p[3] < 512
      && a / 4096 % 0x10_0000_0000 == ((p[0] * 512 + p[1]) * 512 + p[2]) * 512 + p[3]
  {
    ShiftNine(a);
    LastBits(a / 0x1000, a / 0x20_0000, a / 0x4000_0000, a / 0x80_0000_0000);
  }

  lemma DigitsUnique(p: seq<nat>, q: seq<nat>)
    requires IsPage(p) && IsPage(q) && NumberOf(p) == NumberOf(q)
    ensures p == q
  {
    assert p[3] == NumberOf(p) % 512 && q[3] == NumberOf(q) % 512;
    assert (p[0] * 512 + p[1]) * 512 + p[2] == (q[0] * 512 + q[1]) * 512 + q[2];
    assert p[0] * 512 + p[1] == q[0] * 512 + q[1];
  }

  /** The four indices name exactly the 36-bit page number: addresses share them if and only if they
      agree on bits 12 to 47. */
  lemma PageOfExact(a: nat, b: nat)
    ensures PageOf(a) == PageOf(b) <==> PageNumber(a) == PageNumber(b)
  {
    PageOfNumber(a);
    PageOfNumber(b);
    if PageNumber(a) == PageNumber(b) { DigitsUnique(PageOf(a), PageOf(b)); }
  }

  // ----- address spaces -----

  /** One step of a walk per level. */
  function Next(ts: Tables, t: Option<nat>, i: nat): Option<nat> {
    match t case None => None case Some(u) => Child(ts, u, i)
  }

  lemma WalkFour(ts: Tables, r: nat, p: seq<nat>)
    requires IsPage(p)
    ensures Walk(ts, r, []) == Some(r)
    ensures Walk(ts, r, p[..1]) == Child(ts, r, p[0])
    ensures Walk(ts, r, p[..2]) == Next(ts, Walk(ts, r, p[..1]), p[1])
    ensures Walk(ts, r, p[..3]) == Next(ts, Walk(ts, r, p[..2]), p[2])
    ensures Walk(ts, r, p) == Next(ts, Walk(ts, r, p[..3]), p[3]) && Init(p) == p[..3]
  {
    assert p[..1] == [] + [p[0]] && p[..2] == p[..1] + [p[1]] && p[..3] == p[..2] + [p[2]] && p == p[..3] + [p[3]];
    WalkStep(ts, r, [], p[0]);
    WalkStep(ts, r, p[..1], p[1]);
    WalkStep(ts, r, p[..2], p[2]);
    WalkStep(ts, r, p[..3], p[3]);
  }

  function KernelSpace(kernel: nat): Space {
    Space(map[kernel := ZeroTable()], map[kernel := Pos(kernel, [], kernel)], {kernel}, kernel)
  }

  lemma KernelSpaceForest(kernel: nat)
    ensures Forest(KernelSpace(kernel))
  {
    ZeroTableEmpty();
    var s := KernelSpace(kernel);
    forall t | t in s.pos ensures TableOk(s, t) {
      forall i | 0 <= i < ENTRIES ensures LinkOk(s, t, i) {
        assert Child(s.ts, t, i) == None;
      }
    }
  }

  /** How many tables `map_page` has to create. */
  function Missing(ts: Tables, r: nat, p: seq<nat>): nat
    requires IsPage(p)
  {
    if Walk(ts, r, p[..1]).None? then 3
    else if Walk(ts, r, p[..2]).None? then 2
    else if Walk(ts, r, p[..3]).None? then 1
    else 0
  }

  lemma ExtendsSame(s: Space)
    ensures Extends(s, s)
  {
  }

  lemma ExtendsTrans(s: Space, s': Space, s'': Space)
    requires Extends(s, s') && Extends(s', s'')
    ensures Extends(s, s'')
  {
    forall r, path | r in s.roots && IsPath(path) && Walk(s.ts, r, path).Some?
      ensures Walk(s''.ts, r, path) == Walk(s.ts, r, path)
    {
      assert Walk(s'.ts, r, path) == Walk(s.ts, r, path);
    }
    forall r, p | r in s.roots && IsPage(p) ensures Walk(s''.ts, r, p) == Walk(s.ts, r, p) {
      assert Walk(s'.ts, r, p) == Walk(s.ts, r, p);
    }
  }

  lemma UnsharedTrans(s: Space, s': Space, s'': Space)
    requires Extends(s, s') && KeepsUnshared(s, s') && KeepsUnshared(s', s'')
    ensures KeepsUnshared(s, s'')
  {
  }

  lemma ExtendsUpdates(s: Space, s': Space, s'': Space, r: nat, p: seq<nat>, to: Option<nat>)
    requires IsPage(p) && Extends(s, s') && Updates(s', s'', r, p, to)
    ensures Updates(s, s'', r, p, to)
  {
    forall r', p' | r' in s.roots && IsPage(p')
      ensures Walk(s''.ts, r', p') == if p' == p && SameSlot(s'', r, r', p) then to else Walk(s.ts, r', p')
    {
      assert Walk(s'.ts, r', p') == Walk(s.ts, r', p');
    }
  }

  /** The only new used blocks are the new tables, one frame each. */
  ghost predicate Accounted(u0: map<nat, nat>, u: map<nat, nat>, k0: set<nat>, k: set<nat>) {
    && k0 <= k && u.Keys == u0.Keys + (k - k0) && (k - k0) !! u0.Keys
    && forall c :: c in u ==> u[c] == if c in u0 then u0[c] else 0
  }

  lemma AccountedStep(u0: map<nat, nat>, u: map<nat, nat>, u': map<nat, nat>, k0: set<nat>, k: set<nat>, k': set<nat>, c: nat)
    requires Accounted(u0, u, k0, k) && u' == u[c := 0] && c !in u && c !in k && k' == k + {c}
    ensures Accounted(u0, u', k0, k')
  {
  }

  /** The new tables are what is gone from the free frames. */
  ghost predicate Drawn(f0: set<nat>, f: set<nat>, k0: set<nat>, k: set<nat>) {
    k - k0 <= f0 && f == f0 - (k - k0)
  }

  /** The new tables are `missing` single frames that were free, and all that has changed. */
  ghost predicate TablesTaken(st0: State, st: State, k0: set<nat>, k: set<nat>, missing: nat) {
    && Accounted(Used(st0.blocks), Used(st.blocks), k0, k) && Drawn(FreeFrames(st0.blocks), FreeFrames(st.blocks), k0, k)
    && |FreeFrames(st.blocks)| == |FreeFrames(st0.blocks)| - missing
  }

  lemma DrawnStep(f0: set<nat>, f: set<nat>, f': set<nat>, k0: set<nat>, k: set<nat>, k': set<nat>, c: nat)
    requires Drawn(f0, f, k0, k) && f' == f - {c} && c in f && c !in k && k0 <= k && k' == k + {c}
    ensures Drawn(f0, f', k0, k')
  {
  }

  lemma Prefix(p: seq<nat>, k: nat)
    requires k < |p|
    ensures p[..k + 1] == p[..k] + [p[k]]
  {
  }

  /** How many of the three lower tables for `p` are there. */
  function Depth(ts: Tables, r: nat, p: seq<nat>): nat
    requires IsPage(p)
  {
    3 - Missing(ts, r, p)
  }

  lemma DepthWalk(ts: Tables, r: nat, p: seq<nat>, k: nat)
    requires IsPage(p) && k <= 3
    ensures Walk(ts, r, p[..k]).Some? <==> k <= Depth(ts, r, p)
  {
    WalkFour(ts, r, p);
    assert p[..0] == [];
  }

  /** What `map_page` promises about translations: it reports whether the page was unmapped, changes
      nothing if it was not, and otherwise sets exactly that page. Attributes without the present bit
      leave the page unmapped. */
  ghost predicate Mapped(s: Space, s': Space, r: nat, p: seq<nat>, frame: nat, attr: nat, ok: bool)
    requires IsPage(p)
  {
    && (ok <==> Walk(s.ts, r, p).None?)
    && (!ok ==> s' == s)
    && (ok ==> Updates(s, s', r, p, if Present(attr) then Some(frame) else None) && Walk(s'.ts, r, Init(p)).Some?)
  }

  /** The write at the end of `map_page` and of `unmap_page`. */
  lemma LeafStep(s0: Space, s: Space, r: nat, p: seq<nat>, t: nat, e: nat, to: Option<nat>, s': Space)
    requires Forest(s) && r in s.roots && IsPage(p) && Extends(s0, s) && Walk(s.ts, r, p[..3]) == Some(t)
    requires t in s.ts && p[3] < |s.ts[t]| && s' == s.(ts := SetEntry(s.ts, t, p[3], e))
    requires to == if Present(e) then Some(FrameOf(e)) else None
    ensures Forest(s') && Walk(s'.ts, r, Init(p)) == Some(t)
    ensures Updates(s0, s', r, p, to) && KeepsUnshared(s, s')
  {
    assert Init(p) == p[..3] && Last(p) == p[3];
    LeafUpdates(s, r, p, t, e, s');
    ExtendsUpdates(s0, s, s', r, p, to);
    WalkPos(s, r, p[..3]);
    LeafUnshared(s, t, p[3], e, s');
    LeafWalk(s, t, p[3], e, s', r, p[..3]);
  }

  lemma MappedIsDeep(ts: Tables, r: nat, p: seq<nat>)
    requires IsPage(p)
    ensures Walk(ts, r, p).Some? ==> Depth(ts, r, p) == 3
  {
    WalkFour(ts, r, p);
    DepthWalk(ts, r, p, 3);
  }

  /** A whole frame address is never the failure value. */
  lemma AddressExact(f: Option<nat>)
    ensures AddressOf(f) == INVALID_ADDRESS <==> f.None?
  {
  }

  lemma NothingToUnmap(s: Space, r: nat, p: seq<nat>)
    requires IsPage(p) && r in s.roots && Forest(s) && Walk(s.ts, r, p).None?
    ensures Updates(s, s, r, p, None) && KeepsUnshared(s, s)
  {
    forall r', p' | r' in s.roots && IsPage(p')
      ensures Walk(s.ts, r', p') == if p' == p && SameSlot(s, r, r', p) then None else Walk(s.ts, r', p')
    {
    }
  }

  /** `sizeof(struct mm)`. */
  const MM_SIZE: nat := 8

  lemma OnlyOne(st: State, st': State, n: nat)
    requires TookOne(st, st', n)
    ensures FreeFrames(st.blocks) != {} && (FreeFrames(st'.blocks) == {} <==> |FreeFrames(st.blocks)| == 1)
  {
    var free := FreeFrames(st.blocks);
    assert free == (free - {n}) + {n};
  }

  function Plus(g: set<nat>, n: nat): set<nat> {
    g + {n}
  }

  lemma GrewAfter(st: State, st': State, st'': State, n: nat, g: set<nat>)
    requires TookOne(st, st', n) && K.Grew(st', st'', g)
    ensures n in FreeFrames(st.blocks)
    ensures K.Grew(st, st'', Plus(g, n)) && n !in g && n in Used(st''.blocks) && Used(st''.blocks)[n] == 0
  {
    hide FreeFrames, Used;
    assert Used(st''.blocks) == Used(st.blocks) + (map f | f in g + {n} :: 0);
  }

  lemma GrewBack(st: State, st': State, n: nat, g: set<nat>, st'': State)
    requires K.Grew(st, st', Plus(g, n)) && n !in g
    requires Used(st''.blocks) == Used(st'.blocks) - {n} && FreeFrames(st''.blocks) == FreeFrames(st'.blocks) + {n}
    ensures K.Grew(st, st'', g)
  {
    assert Used(st''.blocks) == Used(st.blocks) + (map x | x in g :: 0);
    assert FreeFrames(st''.blocks) == FreeFrames(st.blocks) - g;
  }

  /** No table lies in a free frame, and the tables of user spaces are single-frame blocks in use. */
  ghost predicate Owned(s: Space, st: State) {
    && s.ts.Keys !! FreeFrames(st.blocks)
    && forall t :: t in s.ts && t in s.pos && s.pos[t].root != s.kernel ==> t in Used(st.blocks) && Used(st.blocks)[t] == 0
  }

  /** Frames taken from the free ones disturb no table. */
  lemma OwnedGrew(s: Space, st: State, st': State, g: set<nat>)
    requires Owned(s, st) && K.Grew(st, st', g)
    ensures Owned(s, st') && s.ts.Keys !! g
  {
  }

  /** A frame taken from the free ones can become a new root. */
  lemma OwnedRoot(s: Space, st: State, st': State, g: set<nat>, n: nat, s': Space)
    requires Forest(s) && Owned(s, st) && K.Grew(st, st', g) && n in g && n in Used(st'.blocks) && Used(st'.blocks)[n] == 0
    requires s' == AddRoot(s, n)
    ensures Forest(s') && Owned(s', st')
  {
    AddRootForest(s, n, s');
  }

  /** What `delete_mm` demands: the space is not the kernel's, no kernel entry was copied in, and every
      page maps a frame of its own, a single-frame block in use. */
  ghost predicate Deletable(s: Space, st: State, r: nat) {
    && r in s.roots && r != s.kernel && Unshared(s, r) && MappedOnce(s, r)
    && forall p, x :: IsPage(p) && Walk(s.ts, r, p) == Some(x) ==> x in Used(st.blocks) && Used(st.blocks)[x] == 0
  }

  /** A new space can be deleted; that gives back its root alone. */
  lemma NewDeletable(s: Space, st: State, n: nat)
    requires Forest(s) && n !in s.pos && n in Used(st.blocks) && Used(st.blocks)[n] == 0
    ensures Deletable(AddRoot(s, n), st, n)
  {
    var s' := AddRoot(s, n);
    forall path | path != [] && IsPath(path) ensures Walk(s'.ts, n, path) == None {
      AddRootWalk(s, n, s', n, path);
    }
    ZeroTableEmpty();
    assert s.kernel in s.pos;
  }

  lemma KeysAgree(s: Space)
    requires Forest(s)
    ensures s.pos.Keys == s.ts.Keys
  {
  }

  /** Where the translations of an updated space come from. */
  lemma UpdatedFrom(s: Space, s': Space, r: nat, p: seq<nat>, to: Option<nat>, q: seq<nat>, x: nat)
    requires r in s.roots && IsPage(p) && IsPage(q) && Updates(s, s', r, p, to) && Walk(s'.ts, r, q) == Some(x)
    ensures if q == p then to == Some(x) else Walk(s.ts, r, q) == Some(x)
  {
    if q == p {
      assert Walk(s'.ts, r, Init(p)).Some?;
      assert SameSlot(s', r, r, p);
    }
  }

  /** Mapping a single used frame that the space does not map yet, and that is no table, keeps the space
      deletable. */
  lemma MapKeepsDeletable(s: Space, st: State, s': Space, st': State, r: nat, p: seq<nat>, frame: nat, attr: nat)
    requires Forest(s) && Forest(s') && Deletable(s, st, r) && IsPage(p)
    requires Mapped(s, s', r, p, frame, attr, true) && KeepsUnshared(s, s')
    requires Accounted(Used(st.blocks), Used(st'.blocks), s.ts.Keys, s'.ts.Keys)
    requires frame in Used(st.blocks) && Used(st.blocks)[frame] == 0 && frame !in s.pos
    requires forall q :: IsPage(q) ==> Walk(s.ts, r, q) != Some(frame)
    ensures Deletable(s', st', r)
  {
    hide Forest, Walk, Unshared, Used;
    var to := if Present(attr) then Some(frame) else None;
    assert Updates(s, s', r, p, to) && r in s'.roots && r != s'.kernel && Unshared(s', r);
    KeysAgree(s);
    KeysAgree(s');
    hide KeepsUnshared, Updates, Mapped;
    forall q, x | IsPage(q) && Walk(s'.ts, r, q) == Some(x)
      ensures x in Used(st'.blocks) && Used(st'.blocks)[x] == 0 && x !in s'.pos
      ensures if q == p then x == frame else Walk(s.ts, r, q) == Some(x)
    {
      UpdatedFrom(s, s', r, p, to, q, x);
    }
  }

  /** Unmapping keeps the space deletable. */
  lemma UnmapKeepsDeletable(s: Space, st: State, s': Space, r: nat, p: seq<nat>)
    requires Forest(s) && Forest(s') && Deletable(s, st, r) && IsPage(p) && s'.ts.Keys == s.ts.Keys
    requires Updates(s, s', r, p, None) && KeepsUnshared(s, s')
    ensures Deletable(s', st, r)
  {
    hide Forest, Walk, Unshared, Used;
    assert r in s'.roots && r != s'.kernel && Unshared(s', r);
    KeysAgree(s);
    KeysAgree(s');
    hide KeepsUnshared, Updates;
    forall q, x | IsPage(q) && Walk(s'.ts, r, q) == Some(x)
      ensures x in Used(st.blocks) && Used(st.blocks)[x] == 0 && x !in s'.pos && Walk(s.ts, r, q) == Some(x)
    {
      UpdatedFrom(s, s', r, p, None, q, x);
    }
  }

  lemma TableInMemory(s: Space, t: nat)
    requires Forest(s) && t in s.pos
    ensures t in s.ts
  {
  }

  lemma SpaceFrameUsed(s: Space, st: State, r: nat, x: nat)
    requires Forest(s) && Owned(s, st) && Deletable(s, st, r) && x in SpaceFrames(s.ts, r)
    ensures x in Used(st.blocks) && Used(st.blocks)[x] == 0
  {
    hide Forest, Unshared, MappedOnce, SpaceFrames, Walk;
    SpaceReachable(s.ts, r, x);
    var path :| ReachedBy(s.ts, r, TOP_LEVEL, path, x);
    if |path| <= 3 {
      UnsharedWalk(s, r, path);
      TableInMemory(s, x);
    } else {
      assert IsPage(path);
    }
  }

  lemma SpaceFreeable(s: Space, st: State, n: nat, r: nat)
    requires Inv(st, n) && Forest(s) && Owned(s, st) && Deletable(s, st, r)
    ensures Freeable(st, n, SpaceFrames(s.ts, r)) && ReadableTree(s.ts, r, TOP_LEVEL)
  {
    SpaceOnce(s, r);
    WholeNoDup(s.ts, r, TOP_LEVEL);
    forall x | x in SpaceFrames(s.ts, r) ensures x in Used(st.blocks) && Used(st.blocks)[x] == 0 {
      SpaceFrameUsed(s, st, r, x);
    }
    assert TableOk(s, r);
    TreeReadable(s, r, TOP_LEVEL);
  }

  /** After the deletion no remaining table lies in a freed frame. */
  lemma SpaceRemoved(s: Space, st: State, st': State, n: nat, r: nat, s': Space)
    requires Forest(s) && Owned(s, st) && Deletable(s, st, r) && s' == RemoveRoot(s, r)
    requires GivenBack(st, st', n, SpaceFrames(s.ts, r))
    ensures Forest(s') && Owned(s', st')
  {
    RemoveForest(s, r, s');
  }

  // ----- spaces and pools on one allocator -----

  /** Free frames, tables, pool pages and mapped frames are four different things, and pool pages are in use. */
  ghost predicate Separate(s: Space, st: State, pages: set<nat>) {
    && s.ts.Keys !! FreeFrames(st.blocks) && pages !! FreeFrames(st.blocks) && pages !! s.ts.Keys
    && pages <= Used(st.blocks).Keys
    && forall r, p, x :: r in s.roots && IsPage(p) && Walk(s.ts, r, p) == Some(x) ==>
         x !in FreeFrames(st.blocks) && x !in s.ts && x !in pages
  }

  /** Mapping a frame that is none of the three others. */
  lemma MapKeepsSeparate(s: Space, st: State, s': Space, st': State, pages: set<nat>, r: nat, p: seq<nat>, frame: nat,
                         attr: nat, ok: bool)
    requires Separate(s, st, pages) && IsPage(p) && Mapped(s, s', r, p, frame, attr, ok)
    requires Accounted(Used(st.blocks), Used(st'.blocks), s.ts.Keys, s'.ts.Keys)
    requires Drawn(FreeFrames(st.blocks), FreeFrames(st'.blocks), s.ts.Keys, s'.ts.Keys)
    requires frame !in FreeFrames(st.blocks) && frame !in s.ts && frame !in pages
    ensures Separate(s', st', pages)
  {
    hide FreeFrames, Used, Walk, SameSlot;
    forall q, p', x | q in s'.roots && IsPage(p') && Walk(s'.ts, q, p') == Some(x)
      ensures x !in FreeFrames(st'.blocks) && x !in s'.ts && x !in pages
    {
      assert x == frame || (q in s.roots && Walk(s.ts, q, p') == Some(x));
    }
  }

  lemma UnmapKeepsSeparate(s: Space, st: State, s': Space, pages: set<nat>, r: nat, p: seq<nat>)
    requires Separate(s, st, pages) && IsPage(p) && Updates(s, s', r, p, None) && s'.ts.Keys == s.ts.Keys
    ensures Separate(s', st, pages)
  {
    hide FreeFrames, Used, Walk, SameSlot;
    forall q, p', x | q in s'.roots && IsPage(p') && Walk(s'.ts, q, p') == Some(x)
      ensures x !in FreeFrames(st.blocks) && x !in s'.ts && x !in pages
    {
      assert Walk(s.ts, q, p') == Some(x);
    }
  }

  /** `kmalloc` makes pool pages of free frames. */
  lemma GrowKeepsSeparate(s: Space, st: State, st': State, pages: set<nat>, grown: set<nat>)
    requires Separate(s, st, pages) && K.Grew(st, st', grown)
    ensures Separate(s, st', pages + grown)
  {
    hide FreeFrames, Used, Walk;
  }

  /** `create_mm` makes one more of them a root. */
  lemma CreateKeepsSeparate(s: Space, st: State, st': State, pages: set<nat>, grown: set<nat>, n: nat)
    requires Separate(s, st, pages) && Forest(s) && K.Grew(st, st', Plus(grown, n)) && n in FreeFrames(st.blocks)
    requires n !in grown
    ensures Separate(AddRoot(s, n), st', pages + grown)
  {
    var s' := AddRoot(s, n);
    assert n !in s.pos;
    GrowKeepsSeparate(s, st, st', pages, Plus(grown, n));
    hide FreeFrames, Used, Walk, Forest;
    forall q, p, x | q in s'.roots && IsPage(p) && Walk(s'.ts, q, p) == Some(x)
      ensures x !in FreeFrames(st'.blocks) && x !in s'.ts && x !in pages + grown
    {
      AddRootWalk(s, n, s', q, p);
    }
  }

  /** No other space maps a frame that this one maps. */
  ghost predicate MappedAlone(s: Space, r: nat) {
    forall q, p, p', x :: q in s.roots && q != r && IsPage(p) && IsPage(p') && Walk(s.ts, r, p) == Some(x) ==>
      Walk(s.ts, q, p') != Some(x)
  }

  /** A frame given back is a table or mapped. */
  lemma DeadIs(s: Space, r: nat, x: nat)
    requires Forest(s) && r in s.roots && x in Elements(SpaceFrames(s.ts, r))
    ensures x in s.ts || exists p :: IsPage(p) && Walk(s.ts, r, p) == Some(x)
  {
    hide SpaceFrames;
    SpaceReachable(s.ts, r, x);
    var path :| ReachedBy(s.ts, r, TOP_LEVEL, path, x);
    if |path| <= 3 {
      WalkPos(s, r, path);
    } else {
      assert IsPage(path);
    }
  }

  lemma DeadApart(s: Space, st: State, pages: set<nat>, r: nat)
    requires Separate(s, st, pages) && Forest(s) && r in s.roots && MappedAlone(s, r)
    ensures pages !! Elements(SpaceFrames(s.ts, r))
    ensures forall q, p, x :: q in s.roots && q != r && IsPage(p) && Walk(s.ts, q, p) == Some(x) ==>
      x !in Elements(SpaceFrames(s.ts, r))
  {
    hide Forest, SpaceFrames, Walk, Elements, FreeFrames, Used;
    forall x | x in Elements(SpaceFrames(s.ts, r))
      ensures x !in pages
      ensures forall q, p :: q in s.roots && q != r && IsPage(p) ==> Walk(s.ts, q, p) != Some(x)
    {
      DeadIs(s, r, x);
    }
  }

  /** Deleting a space that shares no mapped frame frees no pool page, and nothing that is still mapped. */
  lemma DeleteKeepsSeparate(s: Space, st: State, st': State, n: nat, pages: set<nat>, r: nat)
    requires Separate(s, st, pages) && Forest(s) && Deletable(s, st, r) && MappedAlone(s, r)
    requires GivenBack(st, st', n, SpaceFrames(s.ts, r))
    ensures Separate(RemoveRoot(s, r), st', pages)
  {
    var s' := RemoveRoot(s, r);
    hide FreeFrames, Used, Walk, Forest, SpaceFrames, Elements, MappedOnce, Unshared, MappedAlone, Inv;
    var dead := Elements(SpaceFrames(s.ts, r));
    DeadApart(s, st, pages, r);
    assert s'.ts.Keys == s.ts.Keys - dead && s'.roots == s.roots - {r};
    var free', used' := FreeFrames(st'.blocks), Used(st'.blocks).Keys;
    assert free' == FreeFrames(st.blocks) + dead && used' == Used(st.blocks).Keys - dead;
    assert s'.ts.Keys !! free' && pages !! free' && pages !! s'.ts.Keys && pages <= used';
    hide GivenBack;
    forall q, p, x | q in s'.roots && IsPage(p) && Walk(s'.ts, q, p) == Some(x)
      ensures x !in FreeFrames(st'.blocks) && x !in s'.ts && x !in pages
    {
      RemoveWalk(s, r, s', q, p);
    }
  }

  /** While their pages stay in use, the pools stand. */
  lemma PoolsStand(mem: seq<nat>, chain: seq<P.Page>, pools: nat, tail: nat, st: State, s': Space, st': State)
    requires K.PoolState(mem, chain, pools, tail, st) && Separate(s', st', K.FramesOf(chain))
    ensures K.PoolState(mem, chain, pools, tail, st')
  {
    forall i | 0 <= i < |chain| ensures chain[i].frame in K.FramesOf(chain) {
    }
  }

  /** Everything about creating one missing table. */
  lemma LinkDone(s: Space, st: State, r: nat, path: seq<nat>, t: nat, i: nat, c: nat, e: nat, st': State, s': Space)
    requires Forest(s) && Owned(s, st) && TookOne(st, st', c) && r in s.roots && IsPath(path) && |path| < 3 && i < ENTRIES
    requires Walk(s.ts, r, path) == Some(t) && t in s.pos && s.pos[t].path == path
    requires t in s.ts && i < |s.ts[t]| && !Present(s.ts[t][i])
    requires e == MakeEntry(c, LINK_ATTR) && s' == LinkTable(s, t, i, c, e)
    ensures Forest(s') && Owned(s', st') && Extends(s, s') && c !in s.ts && s'.ts.Keys == s.ts.Keys + {c}
    ensures Walk(s'.ts, r, path + [i]) == Some(c) && forall j :: Child(s'.ts, c, j).None?
    ensures KeepsUnshared(s, s')
  {
    LinkUnshared(s, t, i, c, e, s');
    EntryParts(c, LINK_ATTR);
    assert Present(LINK_ATTR);
    LinkForest(s, t, i, c, e, s');
    LinkExtends(s, t, i, c, e, s');
    ZeroTableEmpty();
    WalkStep(s'.ts, r, path, i);
  }

  /** Entry `i` of table `t` is unchanged, or a link on the way to page `p` that was not there. */
  ghost predicate WordKept(ts0: Tables, ts: Tables, r: nat, p: seq<nat>, t: nat, i: nat)
    requires IsPage(p) && t in ts0 && i < |ts0[t]|
  {
    && t in ts && i < |ts[t]|
    && (ts[t][i] == ts0[t][i] || (!Present(ts0[t][i]) && OnTheWay(ts, r, p, t, i)))
  }

  ghost predicate LinksMade(ts0: Tables, ts: Tables, r: nat, p: seq<nat>)
    requires IsPage(p)
  {
    forall t, i :: t in ts0 && 0 <= i < |ts0[t]| ==> WordKept(ts0, ts, r, p, t, i)
  }

  /** Entry `i` of table `t` is read on one of the first three levels of the walk to `p`. */
  ghost predicate OnTheWay(ts: Tables, r: nat, p: seq<nat>, t: nat, i: nat)
    requires IsPage(p)
  {
    exists k :: 0 <= k < 3 && Walk(ts, r, p[..k]) == Some(t) && i == p[k]
  }

  lemma WayExtends(s: Space, s': Space, r: nat, p: seq<nat>, t: nat, i: nat)
    requires IsPage(p) && r in s.roots && Extends(s, s') && OnTheWay(s.ts, r, p, t, i)
    ensures OnTheWay(s'.ts, r, p, t, i)
  {
    var k :| 0 <= k < 3 && Walk(s.ts, r, p[..k]) == Some(t) && i == p[k];
    assert IsPath(p[..k]) && Walk(s'.ts, r, p[..k]) == Some(t);
  }

  lemma LinksStep(ts0: Tables, s: Space, s': Space, r: nat, p: seq<nat>, k: nat, t: nat, c: nat, e: nat)
    requires IsPage(p) && r in s.roots && Extends(s, s') && k < 3 && Walk(s.ts, r, p[..k]) == Some(t)
    requires t in s.ts && p[k] < |s.ts[t]| && !Present(s.ts[t][p[k]]) && c !in s.ts
    requires s'.ts == SetEntry(s.ts, t, p[k], e)[c := ZeroTable()]
    requires LinksMade(ts0, s.ts, r, p)
    ensures LinksMade(ts0, s'.ts, r, p)
  {
    assert IsPath(p[..k]) && Walk(s'.ts, r, p[..k]) == Some(t);
    assert OnTheWay(s'.ts, r, p, t, p[k]);
    forall u, i | u in ts0 && 0 <= i < |ts0[u]|
      ensures WordKept(ts0, s'.ts, r, p, u, i)
    {
      assert WordKept(ts0, s.ts, r, p, u, i) && u != c;
      if OnTheWay(s.ts, r, p, u, i) { WayExtends(s, s', r, p, u, i); }
      if u == t && i == p[k] {
        assert !Present(ts0[u][i]);
      } else {
        assert s'.ts[u][i] == s.ts[u][i];
      }
    }
  }

  /** From `s0` and `st0` on, the first `k` tables towards page `p` have been found or made, the last of
      them `t`. */
  ghost predicate Towards(s0: Space, st0: State, s: Space, st: State, r: nat, p: seq<nat>, k: nat, t: nat)
    requires IsPage(p) && k <= 3
  {
    && Extends(s0, s) && KeepsUnshared(s0, s) && Walk(s.ts, r, p[..k]) == Some(t)
    && Accounted(Used(st0.blocks), Used(st.blocks), s0.ts.Keys, s.ts.Keys)
    && Drawn(FreeFrames(st0.blocks), FreeFrames(st.blocks), s0.ts.Keys, s.ts.Keys)
    && LinksMade(s0.ts, s.ts, r, p)
    && var d := Depth(s0.ts, r, p);
       if k <= d then s == s0 && st == st0
       else |FreeFrames(st.blocks)| == |FreeFrames(st0.blocks)| - (k - d) && forall j :: Child(s.ts, t, j).None?
  }

  /** The last-level entry that `p` leads to is `e`, and any other word of a table that was there is unchanged or
      a new link on the way. */
  ghost predicate WordWritten(ts0: Tables, ts: Tables, r: nat, p: seq<nat>, e: nat)
    requires IsPage(p)
  {
    && Walk(ts, r, p[..3]).Some?
    && var t := Walk(ts, r, p[..3]).value;
       && t in ts && p[3] < |ts[t]| && ts[t][p[3]] == e
       && forall u, i :: u in ts0 && 0 <= i < |ts0[u]| && !(u == t && i == p[3]) ==>
            WordKept(ts0, ts, r, p, u, i)
  }

  lemma LeafWritten(s0: Space, s: Space, r: nat, p: seq<nat>, t: nat, e: nat, s': Space)
    requires Forest(s) && r in s.roots && IsPage(p) && Walk(s.ts, r, p[..3]) == Some(t) && LinksMade(s0.ts, s.ts, r, p)
    requires t in s.ts && p[3] < |s.ts[t]| && s' == s.(ts := SetEntry(s.ts, t, p[3], e))
    ensures WordWritten(s0.ts, s'.ts, r, p, e)
  {
    WalkPos(s, r, p[..3]);
    forall k | 0 <= k <= 3 ensures Walk(s'.ts, r, p[..k]) == Walk(s.ts, r, p[..k]) {
      assert IsPath(p[..k]);
      LeafWalk(s, t, p[3], e, s', r, p[..k]);
    }
    forall u, i | u in s0.ts && 0 <= i < |s0.ts[u]| && !(u == t && i == p[3])
      ensures WordKept(s0.ts, s'.ts, r, p, u, i)
    {
      assert WordKept(s0.ts, s.ts, r, p, u, i) && s'.ts[u][i] == s.ts[u][i];
      if OnTheWay(s.ts, r, p, u, i) {
        var k :| 0 <= k < 3 && Walk(s.ts, r, p[..k]) == Some(u) && i == p[k];
        assert Walk(s'.ts, r, p[..k]) == Some(u);
      }
    }
  }

  /** With attributes 7, `map_page` makes a page that is writable and open to user mode. */
  lemma MappedOpen(ts0: Tables, s: Space, r: nat, p: seq<nat>, frame: nat)
    requires Forest(s) && r in s.roots && IsPage(p) && WordWritten(ts0, s.ts, r, p, frame + 7) && frame % 4096 == 0
    ensures Granted(s.ts, r, p, 2) && Granted(s.ts, r, p, 4)
  {
    assert p == p[..3] + [p[3]];
    WalkStep(s.ts, r, p[..3], p[3]);
    LowBits(frame + 7);
    RightsExact(s, r, p, 2);
    RightsExact(s, r, p, 4);
  }

  /** There is a frame for the next table if that is missing. */
  lemma TowardsRoom(s0: Space, st0: State, s: Space, st: State, r: nat, p: seq<nat>, k: nat, t: nat)
    requires IsPage(p) && k < 3 && Towards(s0, st0, s, st, r, p, k, t)
    requires |FreeFrames(st0.blocks)| >= Missing(s0.ts, r, p)
    ensures Walk(s.ts, r, p[..k]) == Some(t) && IsPath(p[..k])
    ensures Child(s.ts, t, p[k]).Some? || FreeFrames(st.blocks) != {}
  {
    var k' := k + 1;
    Prefix(p, k);
    WalkStep(s.ts, r, p[..k], p[k]);
    DepthWalk(s0.ts, r, p, k');
  }

  /** The next table was there. */
  lemma TowardsFound(s0: Space, st0: State, s: Space, st: State, r: nat, p: seq<nat>, k: nat, k': nat, t: nat, c: nat)
    requires IsPage(p) && k < 3 && k' == k + 1 && Towards(s0, st0, s, st, r, p, k, t)
    requires Walk(s.ts, r, p[..k] + [p[k]]) == Some(c) && Child(s.ts, t, p[k]).Some?
    ensures Towards(s0, st0, s, st, r, p, k', c)
  {
    Prefix(p, k);
    DepthWalk(s0.ts, r, p, k');
    hide Extends, KeepsUnshared, Walk, Missing, FreeFrames, Used, Drawn, Accounted, LinksMade;
  }

  /** The next table was made. */
  lemma TowardsMade(s0: Space, st0: State, s: Space, st: State, r: nat, p: seq<nat>, k: nat, k': nat, t: nat, s': Space,
                    st': State, c: nat, e: nat)
    requires IsPage(p) && k < 3 && k' == k + 1 && Towards(s0, st0, s, st, r, p, k, t) && Child(s.ts, t, p[k]).None?
    requires Extends(s, s') && KeepsUnshared(s, s') && Walk(s'.ts, r, p[..k] + [p[k]]) == Some(c)
    requires c !in s.ts && s'.ts.Keys == s.ts.Keys + {c} && TookOne(st, st', c) && forall j :: Child(s'.ts, c, j).None?
    requires t in s.ts && p[k] < |s.ts[t]| && r in s.roots && s'.ts == SetEntry(s.ts, t, p[k], e)[c := ZeroTable()]
    ensures Towards(s0, st0, s', st', r, p, k', c)
  {
    LinksStep(s0.ts, s, s', r, p, k, t, c, e);
    Prefix(p, k);
    WalkStep(s.ts, r, p[..k], p[k]);
    DepthWalk(s0.ts, r, p, k');
    hide Extends, KeepsUnshared, Walk, Missing, FreeFrames, Used, TookOne, Drawn, Accounted, LinksMade;
    ExtendsTrans(s0, s, s');
    UnsharedTrans(s0, s, s');
    TakenStep(st0, st, st', s0.ts.Keys, s.ts.Keys, s'.ts.Keys, c);
  }

  lemma TakenStep(st0: State, st: State, st': State, k0: set<nat>, k: set<nat>, k': set<nat>, c: nat)
    requires Accounted(Used(st0.blocks), Used(st.blocks), k0, k) && Drawn(FreeFrames(st0.blocks), FreeFrames(st.blocks), k0, k)
    requires TookOne(st, st', c) && c !in k && k' == k + {c}
    ensures Accounted(Used(st0.blocks), Used(st'.blocks), k0, k')
    ensures Drawn(FreeFrames(st0.blocks), FreeFrames(st'.blocks), k0, k')
    ensures |FreeFrames(st'.blocks)| == |FreeFrames(st.blocks)| - 1
  {
    hide FreeFrames, Used;
    AccountedStep(Used(st0.blocks), Used(st.blocks), Used(st'.blocks), k0, k, k', c);
    DrawnStep(FreeFrames(st0.blocks), FreeFrames(st.blocks), FreeFrames(st'.blocks), k0, k, k', c);
  }

  class AddressSpaces {
    const pmm: FrameAllocator
    const kernel: nat
    var tables: Tables
    ghost var pos: map<nat, Pos>
    ghost var roots: set<nat>

    ghost function Now(): Space
      reads this
    {
      Space(tables, pos, roots, kernel)
    }

    ghost predicate Valid()
      reads this, pmm, pmm.frames, pmm.freeRegion
    {
      pmm.Valid() && Forest(Now()) && Owned(Now(), pmm.st)
    }

    /** An empty kernel space whose root lies outside the free frames. */
    constructor (pmm: FrameAllocator, kernel: nat)
      requires pmm.Valid() && kernel !in FreeFrames(pmm.st.blocks)
      ensures Valid() && this.pmm == pmm && this.kernel == kernel && roots == {kernel}
    {
      this.pmm := pmm;
      this.kernel := kernel;
      tables := map[kernel := ZeroTable()];
      pos := map[kernel := Pos(kernel, [], kernel)];
      roots := {kernel};
      new;
      KernelSpaceForest(kernel);
    }

    /** A table on the way from a root can be read. */
    lemma Readable(r: nat, path: seq<nat>)
      requires Forest(Now()) && r in roots && IsPath(path) && |path| <= 3 && Walk(tables, r, path).Some?
      ensures Walk(tables, r, path).value in tables && |tables[Walk(tables, r, path).value]| == ENTRIES
    {
      WalkPos(Now(), r, path);
      assert TableOk(Now(), Walk(tables, r, path).value);
    }

    /** `virt_to_phys`. */
    method VirtToPhys(pml4: nat, virt: nat) returns (phys: nat)
      requires Valid() && pml4 / PAGE_SIZE in roots
      ensures phys == match Walk(tables, pml4 / PAGE_SIZE, PageOf(virt))
                      case None => INVALID_ADDRESS
                      case Some(f) => f * PAGE_SIZE + virt % PAGE_SIZE
      ensures phys == INVALID_ADDRESS <==>
        var f := Walk(tables, pml4 / PAGE_SIZE, PageOf(virt));
        f.None? || (f.value == FRAME_LIMIT - 1 && virt % PAGE_SIZE == PAGE_SIZE - 1)
    {
      var p := PageOf(virt);
      var t := pml4 / PAGE_SIZE;
      ghost var r := t;
      WalkFour(tables, r, p);
      Readable(r, []);
      if !Present(tables[t][p[0]]) { return INVALID_ADDRESS; }
      t := FrameOf(tables[t][p[0]]);
      Readable(r, p[..1]);
      if !Present(tables[t][p[1]]) { return INVALID_ADDRESS; }
      t := FrameOf(tables[t][p[1]]);
      Readable(r, p[..2]);
      if !Present(tables[t][p[2]]) { return INVALID_ADDRESS; }
      t := FrameOf(tables[t][p[2]]);
      Readable(r, p[..3]);
      if !Present(tables[t][p[3]]) { return INVALID_ADDRESS; }
      return FrameOf(tables[t][p[3]]) * PAGE_SIZE + virt % PAGE_SIZE;
    }

    /** The step of `map_page` that creates the table below entry `i` of `t` when it is missing. */
    method EnsureTable(ghost r: nat, ghost path: seq<nat>, t: nat, i: nat) returns (c: nat)
      requires Valid() && r in roots && IsPath(path) && |path| < 3 && i < ENTRIES && Walk(tables, r, path) == Some(t)
      requires Child(tables, t, i).Some? || FreeFrames(pmm.st.blocks) != {}
      modifies this, pmm, pmm.frames, pmm.freeRegion
      ensures Valid() && Extends(old(Now()), Now()) && KeepsUnshared(old(Now()), Now())
      ensures Walk(tables, r, path + [i]) == Some(c)
      ensures old(Child(tables, t, i)).Some? ==> Now() == old(Now()) && pmm.st == old(pmm.st)
      ensures old(Child(tables, t, i)).None? ==>
        && t in old(tables) && i < |old(tables)[t]|
        && c !in old(tables) && tables.Keys == old(tables.Keys) + {c} && TookOne(old(pmm.st), pmm.st, c)
        && tables == SetEntry(old(tables), t, i, 4096 * c + 7)[c := ZeroTable()]
        && forall j :: Child(tables, c, j).None?
    {
      hide FrameAllocator.Valid, Forest, Owned, Extends, TookOne, Walk, Unshared;
      Readable(r, path);
      WalkPos(Now(), r, path);
      WalkStep(tables, r, path, i);
      if !Present(tables[t][i]) {
        ghost var s, st := Now(), pmm.st;
        var addr := AllocOne(pmm);
        c := addr / PAGE_SIZE;
        var e := MakeEntry(c, LINK_ATTR);
        tables := SetEntry(tables, t, i, e)[c := ZeroTable()];
        pos := pos[c := Pos(pos[t].root, pos[t].path + [i], t)];
        LinkDone(s, st, r, path, t, i, c, e, pmm.st, Now());
      } else {
        c := FrameOf(tables[t][i]);
        ExtendsSame(Now());
      }
    }

    /** The state after the first `k` steps of `map_page` towards page `p`: nothing has changed while
        the tables were there, and every further step has created one empty table. */
    ghost predicate Progress(s0: Space, st0: State, r: nat, p: seq<nat>, k: nat, t: nat)
      requires IsPage(p) && k <= 3
      reads this, pmm, pmm.frames, pmm.freeRegion
    {
      Valid() && r in roots && Towards(s0, st0, Now(), pmm.st, r, p, k, t)
    }

    method EnsureLevel(ghost s0: Space, ghost st0: State, r: nat, p: seq<nat>, k: nat, ghost k': nat, t: nat) returns (c: nat)
      requires IsPage(p) && k < 3 && k' == k + 1 && Progress(s0, st0, r, p, k, t)
      requires |FreeFrames(st0.blocks)| >= Missing(s0.ts, r, p)
      modifies this, pmm, pmm.frames, pmm.freeRegion
      ensures Progress(s0, st0, r, p, k', c)
    {
      ghost var s1, st1 := Now(), pmm.st;
      TowardsRoom(s0, st0, s1, st1, r, p, k, t);
      hide FrameAllocator.Valid, Forest, Owned, Towards, Walk, Missing, Extends, KeepsUnshared;
      c := EnsureTable(r, p[..k], t, p[k]);
      if Child(s1.ts, t, p[k]).Some? {
        TowardsFound(s0, st0, s1, st1, r, p, k, k', t, c);
      } else {
        TowardsMade(s0, st0, s1, st1, r, p, k, k', t, Now(), pmm.st, c, 4096 * c + 7);
      }
    }

    /** `map_page`. A false result means the page was mapped already, and nothing has changed; a true
        result sets exactly this page, and costs exactly the missing tables. */
    method MapPage(pml4: nat, frame: nat, page: nat, attr: nat) returns (ok: bool)
      requires Valid() && pml4 / PAGE_SIZE in roots && frame % PAGE_SIZE == 0 && attr < PAGE_SIZE
      requires |FreeFrames(pmm.st.blocks)| >= Missing(tables, pml4 / PAGE_SIZE, PageOf(page))
      modifies this, pmm, pmm.frames, pmm.freeRegion
      ensures Valid()
      ensures Mapped(old(Now()), Now(), pml4 / PAGE_SIZE, PageOf(page), frame / PAGE_SIZE, attr, ok)
      ensures KeepsUnshared(old(Now()), Now())
      ensures ok ==> WordWritten(old(tables), tables, pml4 / 4096, PageOf(page), frame + attr)
      ensures !ok ==> pmm.st == old(pmm.st)
      ensures TablesTaken(old(pmm.st), pmm.st, old(tables.Keys), tables.Keys,
                          old(Missing(tables, pml4 / PAGE_SIZE, PageOf(page))))
    {
      ghost var s0, st0 := Now(), pmm.st;
      var r, p := pml4 / PAGE_SIZE, PageOf(page);
      var t := EnsureTables(r, p);
      ok := WriteLeaf(s0, st0, r, p, t, frame, attr);
    }

    /** The three creation steps of `map_page`. */
    method EnsureTables(r: nat, p: seq<nat>) returns (t: nat)
      requires Valid() && r in roots && IsPage(p) && |FreeFrames(pmm.st.blocks)| >= Missing(tables, r, p)
      modifies this, pmm, pmm.frames, pmm.freeRegion
      ensures Progress(old(Now()), old(pmm.st), r, p, 3, t)
    {
      ghost var s0, st0 := Now(), pmm.st;
      StartProgress(r, p);
      t := EnsureLevel(s0, st0, r, p, 0, 1, r);
      t := EnsureLevel(s0, st0, r, p, 1, 2, t);
      t := EnsureLevel(s0, st0, r, p, 2, 3, t);
    }

    lemma EndProgress(s0: Space, st0: State, r: nat, p: seq<nat>, t: nat)
      requires IsPage(p) && Progress(s0, st0, r, p, 3, t)
      ensures KeepsUnshared(s0, Now()) && Extends(s0, Now()) && Walk(tables, r, p[..3]) == Some(t)
      ensures TablesTaken(st0, pmm.st, s0.ts.Keys, tables.Keys, Missing(s0.ts, r, p))
      ensures Walk(s0.ts, r, p) == Walk(tables, r, p) && (Walk(s0.ts, r, p).Some? ==> Now() == s0 && pmm.st == st0)
      ensures LinksMade(s0.ts, tables, r, p)
    {
      assert Walk(s0.ts, r, p) == Walk(tables, r, p);
      MappedIsDeep(s0.ts, r, p);
    }

    lemma StartProgress(r: nat, p: seq<nat>)
      requires Valid() && r in roots && IsPage(p)
      ensures Progress(Now(), pmm.st, r, p, 0, r)
    {
      assert p[..0] == [];
    }

    /** The end of `map_page`. */
    method WriteLeaf(ghost s0: Space, ghost st0: State, r: nat, p: seq<nat>, t: nat, frame: nat, attr: nat) returns (ok: bool)
      requires IsPage(p) && Progress(s0, st0, r, p, 3, t) && frame % PAGE_SIZE == 0 && attr < PAGE_SIZE
      modifies `tables
      ensures Valid()
      ensures Mapped(s0, Now(), r, p, frame / PAGE_SIZE, attr, ok) && KeepsUnshared(s0, Now())
      ensures ok ==> WordWritten(s0.ts, tables, r, p, frame + attr)
      ensures !ok ==> pmm.st == st0
      ensures TablesTaken(st0, pmm.st, s0.ts.Keys, tables.Keys, Missing(s0.ts, r, p))
    {
      hide FrameAllocator.Valid, Forest, TablesTaken, Walk, Missing, Updates, KeepsUnshared, Towards, Extends, WordWritten, LinksMade;
      ghost var s3 := Now();
      EndProgress(s0, st0, r, p, t);
      WalkFour(tables, r, p);
      Readable(r, p[..3]);
      if Present(tables[t][p[3]]) {
        return false;
      }
      var e := frame + attr;
      EntryParts(frame / PAGE_SIZE, attr);
      assert e == MakeEntry(frame / PAGE_SIZE, attr);
      ghost var to := if Present(attr) then Some(frame / PAGE_SIZE) else None;
      tables := SetEntry(tables, t, p[3], e);
      assert tables.Keys == s3.ts.Keys;
      LeafStep(s0, s3, r, p, t, e, to, Now());
      LeafWritten(s0, s3, r, p, t, e, Now());
      UnsharedTrans(s0, s3, Now());
      return true;
    }

    /** `unmap_page`: returns the address the page was mapped to, and unmaps exactly that page. No table
        is given back. */
    method UnmapPage(pml4: nat, page: nat) returns (phys: nat)
      requires Valid() && pml4 / PAGE_SIZE in roots
      modifies `tables
      ensures Valid() && tables.Keys == old(tables.Keys)
      ensures phys == AddressOf(old(Walk(tables, pml4 / PAGE_SIZE, PageOf(page))))
      ensures phys == INVALID_ADDRESS <==> old(Walk(tables, pml4 / PAGE_SIZE, PageOf(page))).None?
      ensures Updates(old(Now()), Now(), pml4 / PAGE_SIZE, PageOf(page), None) && KeepsUnshared(old(Now()), Now())
      ensures phys == INVALID_ADDRESS ==> tables == old(tables)
      ensures phys != INVALID_ADDRESS ==> WordWritten(old(tables), tables, pml4 / 4096, PageOf(page), 0)
    {
      ghost var s, r := Now(), pml4 / PAGE_SIZE;
      var p := PageOf(page);
      hide FrameAllocator.Valid, Forest, Updates, KeepsUnshared, PageOf, WordWritten, Owned;
      var t := pml4 / PAGE_SIZE;
      WalkFour(tables, r, p);
      Readable(r, []);
      if !Present(tables[t][p[0]]) { NothingToUnmap(s, r, p); return INVALID_ADDRESS; }
      t := FrameOf(tables[t][p[0]]);
      Readable(r, p[..1]);
      if !Present(tables[t][p[1]]) { NothingToUnmap(s, r, p); return INVALID_ADDRESS; }
      t := FrameOf(tables[t][p[1]]);
      Readable(r, p[..2]);
      if !Present(tables[t][p[2]]) { NothingToUnmap(s, r, p); return INVALID_ADDRESS; }
      t := FrameOf(tables[t][p[2]]);
      Readable(r, p[..3]);
      if !Present(tables[t][p[3]]) { NothingToUnmap(s, r, p); return INVALID_ADDRESS; }
      phys := ClearLeaf(r, p, t);
    }

    /** The end of `unmap_page`. */
    method ClearLeaf(ghost r: nat, p: seq<nat>, t: nat) returns (phys: nat)
      requires Valid() && r in roots && IsPage(p) && Walk(tables, r, p[..3]) == Some(t) && Walk(tables, r, p).Some?
      modifies `tables
      ensures Valid() && tables.Keys == old(tables.Keys)
      ensures phys == AddressOf(old(Walk(tables, r, p))) != INVALID_ADDRESS
      ensures Updates(old(Now()), Now(), r, p, None) && KeepsUnshared(old(Now()), Now())
      ensures WordWritten(old(tables), tables, r, p, 0)
    {
      hide FrameAllocator.Valid, Forest, Updates, KeepsUnshared, WordWritten, Extends;
      ghost var s := Now();
      AddressExact(Walk(tables, r, p));
      WalkFour(tables, r, p);
      Readable(r, p[..3]);
      ExtendsSame(s);
      phys := FrameOf(tables[t][p[3]]) * PAGE_SIZE;
      tables := SetEntry(tables, t, p[3], 0);
      assert tables.Keys == s.ts.Keys;
      LeafStep(s, s, r, p, t, 0, None, Now());
      LeafWritten(s, s, r, p, t, 0, Now());
    }

    /** `map_kernel_for_user_mm`. */
    method MapKernelForUserMm(pml4: nat)
      requires Valid() && pml4 / PAGE_SIZE in roots
      modifies `tables
      ensures Valid() && KernelCopied(old(Now()), Now(), pml4 / PAGE_SIZE, ENTRIES)
      ensures kernel in old(tables) && forall t, i :: t in old(tables) && 0 <= i < 512 ==>
        && t in tables && |tables[t]| == |old(tables)[t]| == 512
        && tables[t][i] == if t == pml4 / 4096 && i >= 256 then old(tables)[kernel][i] else old(tables)[t][i]
    {
      var user := pml4 / PAGE_SIZE;
      ghost var s := Now();
      assert TableOk(s, user) && TableOk(s, kernel);
      for i := KERNEL_HALF to ENTRIES
        invariant KernelCopied(s, Now(), user, i)
      {
        tables := SetEntry(tables, user, i, tables[kernel][i]);
      }
      CopyForest(s, user, Now());
    }

    /** `free_page_table`. */
    method FreePageTable(table: nat, level: nat)
      requires pmm.Valid() && level <= 3 && ReadableTree(tables, table, level)
      requires Freeable(pmm.st, pmm.frames.Length, Whole(tables, table, level))
      modifies pmm, pmm.frames, pmm.freeRegion
      ensures pmm.Valid() && pmm.st == FreeAll(old(pmm.st), Whole(tables, table, level))
      decreases level, 1
    {
      hide Released, Whole, Below, FreeAll, Freeable, ReadableTree;
      ghost var st, n := pmm.st, pmm.frames.Length;
      ReleaseStart(st, tables, table, level);
      for i := 0 to ENTRIES
        invariant pmm.Valid() && pmm.st == FreeAll(st, Released(tables, table, level, i))
      {
        ghost var next := i + 1;
        ReleaseStep(st, n, tables, table, level, i, next, pmm.st);
        FreeEntry(table, level, i);
      }
      ReleaseEnd(st, n, tables, table, level, pmm.st);
      FreeFrameAt(table);
    }

    /** The body of its loop. */
    method FreeEntry(table: nat, level: nat, i: nat)
      requires pmm.Valid() && level <= 3 && ReadableTree(tables, table, level) && i < ENTRIES
      requires Freeable(pmm.st, pmm.frames.Length, Below(tables, table, level, i))
      modifies pmm, pmm.frames, pmm.freeRegion
      ensures pmm.Valid() && pmm.st == FreeAll(old(pmm.st), Below(tables, table, level, i))
      decreases level, 0
    {
      if !Present(tables[table][i]) { return; }
      var child := FrameOf(tables[table][i]);
      if level > 0 {
        var below := level - 1;
        BelowIsWhole(tables, table, level, i, child, below);
        FreePageTable(child, below);
      } else {
        FreeFrameAt(child);
      }
    }

    /** `free_frame` on a single frame. */
    method FreeFrameAt(frame: nat)
      requires pmm.Valid() && Freeable(pmm.st, pmm.frames.Length, [frame])
      modifies pmm, pmm.frames, pmm.freeRegion
      ensures pmm.Valid() && pmm.st == FreeAll(old(pmm.st), [frame])
    {
      assert frame in [frame];
      var addr := frame * PAGE_SIZE;
      assert addr / PAGE_SIZE == frame;
      pmm.FreeFrame(addr);
      assert [frame][..0] == [];
    }

    /** `create_mm`: the record and the root of a new empty space, or NULL and INVALID_ADDRESS exactly when
        no frame is free, or the only one is and no pool has room for the record; then the root frame is
        given back. `grown` are the pools that `kmalloc` added, and the record is block `j` of pool `k`. */
    method CreateMm(pool: K.KernelPool)
      returns (mm: nat, pml4: nat, ghost grown: seq<P.Page>, ghost k: nat, ghost j: nat)
      requires Valid() && pool.pmm == pmm && pool.Valid()
      modifies this, pmm, pmm.frames, pmm.freeRegion, pool, pool.heap.mem
      ensures Valid() && (pml4 == INVALID_ADDRESS <==> mm == 0)
      ensures mm == 0 <==>
        var free := FreeFrames(old(pmm.st).blocks);
        free == {} || (|free| == 1 && K.NoneFits(old(pool.chain), H.Need(MM_SIZE)))
      ensures mm == 0 ==> pool.Valid()
      ensures mm == 0 ==> Now() == old(Now()) && K.Grew(old(pmm.st), pmm.st, K.FramesOf(grown))
      ensures mm == 0 ==> pool.chain == old(pool.chain) + grown
      ensures mm != 0 ==> K.FirstFound(old(pool.chain), grown, k, j, H.Need(MM_SIZE), mm)
      ensures mm != 0 && K.ServedSafely(old(pool.chain), old(pmm.st), H.Need(MM_SIZE)) ==>
        pool.Valid() && K.Served(old(pool.chain) + grown, pool.chain, k, j, H.Need(MM_SIZE), mm)
      ensures mm != 0 ==>
        var n: nat := pml4 / PAGE_SIZE;
        && n in FreeFrames(old(pmm.st).blocks) && Now() == AddRoot(old(Now()), n)
        && n in tables && |tables[n]| == 512 && (forall i :: 0 <= i < 512 ==> tables[n][i] == 0)
        && K.Grew(old(pmm.st), pmm.st, Plus(K.FramesOf(grown), n))
    {
      hide FrameAllocator.Valid, K.PoolState, Forest, Owned, K.Grew, TookOne, K.Served, K.FirstFound, K.CutIn;
      ghost var st0, s := pmm.st, Now();
      mm, pml4, grown, k, j := 0, INVALID_ADDRESS, [], 0, 0;
      var page := AllocOne(pmm);
      if page == INVALID_ADDRESS {
        K.GrewNothing(st0);
        return;
      }
      var n := page / PAGE_SIZE;
      ghost var st1, before := pmm.st, pool.chain;
      K.HeldTook(pool.heap.mem[..], before, pool.pools, pool.tail, st0, st1, n);
      OnlyOne(st0, st1, n);
      ghost var words;
      mm, grown, k, j, words := pool.Kmalloc(MM_SIZE);
      ghost var st2, g := pmm.st, K.FramesOf(grown);
      GrewAfter(st0, st1, st2, n, g);
      if mm == 0 {
        K.ApartFrom(before, grown, n);
        GiveBackRoot(pool, page, st0, g);
      } else {
        pml4 := page;
        tables := tables[n := ZeroTable()];
        pos := pos[n := Pos(n, [], n)];
        roots := roots + {n};
        OwnedRoot(s, st0, st2, Plus(g, n), n, Now());
        ZeroTableEmpty();
      }
    }

    /** The failure path of `create_mm`. */
    method GiveBackRoot(pool: K.KernelPool, page: nat, ghost st0: State, ghost g: set<nat>)
      requires pool.pmm == pmm && pool.Valid() && pmm.Valid() && Forest(Now()) && Owned(Now(), st0)
      requires var n: nat := page / PAGE_SIZE;
        && n !in g && K.Grew(st0, pmm.st, Plus(g, n)) && n in Used(pmm.st.blocks) && Used(pmm.st.blocks)[n] == 0
        && forall i :: 0 <= i < |pool.chain| ==> pool.chain[i].frame != n
      modifies pmm, pmm.frames, pmm.freeRegion
      ensures Valid() && pool.Valid() && K.Grew(st0, pmm.st, g)
    {
      hide FrameAllocator.Valid, K.PoolState, Forest, Owned, K.Grew;
      ghost var st2, n := pmm.st, page / PAGE_SIZE;
      pmm.FreeFrame(page);
      SingleRange(n);
      GrewBack(st0, st2, n, g, pmm.st);
      OwnedGrew(Now(), st0, pmm.st, g);
      K.HeldFreed(pool.heap.mem[..], pool.chain, pool.pools, pool.tail, st2, pmm.st, n);
    }

    /** `delete_mm` up to the release of its record: every table and every mapped frame of the space is
        given back once, and nothing else; the other spaces are untouched. */
    method DeleteMm(pml4: nat)
      requires Valid() && Deletable(Now(), pmm.st, pml4 / PAGE_SIZE)
      modifies this, pmm, pmm.frames, pmm.freeRegion
      ensures Valid() && Now() == RemoveRoot(old(Now()), pml4 / PAGE_SIZE)
      ensures GivenBack(old(pmm.st), pmm.st, pmm.frames.Length, old(SpaceFrames(tables, pml4 / PAGE_SIZE)))
      ensures FreedReached(old(tables), pml4 / 4096, old(pmm.st), pmm.st)
    {
      hide FrameAllocator.Valid, Forest, Owned, GivenBack, Freeable, Deletable, Whole, Elements, ReadableTree, FreeAll, FreedReached;
      ghost var s, st := Now(), pmm.st;
      var r := pml4 / PAGE_SIZE;
      var dead := SpaceFrames(tables, r);
      pmm.InvOfValid();
      SpaceFreeable(s, st, pmm.frames.Length, r);
      FreePageTable(r, TOP_LEVEL);
      FreeAllExact(st, pmm.frames.Length, dead);
      SpaceRemoved(s, st, pmm.st, pmm.frames.Length, r, RemoveRoot(s, r));
      FreedExactly(s.ts, r, st, pmm.st, pmm.frames.Length);
      tables, pos, roots := tables - Elements(dead), pos - Elements(dead), roots - {r};
    }
  }
}
