/** Whole address spaces: creating one, copying the kernel half into it, and deleting it without
    harming any other. */
module Spaces {
  import opened Machine
  import opened Buddy
  import opened PageTables
  import opened Teardown

  // ----- creation -----

  function AddRoot(s: Space, n: nat): Space {
    s.(ts := s.ts[n := ZeroTable()], pos := s.pos[n := Pos(n, [], n)], roots := s.roots + {n})
  }

  lemma AddRootForest(s: Space, n: nat, s': Space)
    requires Forest(s) && n !in s.pos && s' == AddRoot(s, n)
    ensures Forest(s')
  {
    ZeroTableEmpty();
    forall u | u in s'.pos ensures TableOk(s', u) {
      if u != n {
        assert TableOk(s, u);
        forall j | 0 <= j < ENTRIES ensures LinkOk(s', u, j) {
          assert LinkOk(s, u, j) && Child(s'.ts, u, j) == Child(s.ts, u, j);
        }
      }
    }
  }

  /** A new space translates nothing and changes no walk of any other space. */
  lemma {:induction false} AddRootWalk(s: Space, n: nat, s': Space, r: nat, path: seq<nat>)
    requires Forest(s) && n !in s.pos && s' == AddRoot(s, n) && IsPath(path)
    ensures r in s.roots ==> Walk(s'.ts, r, path) == Walk(s.ts, r, path)
    ensures path != [] ==> Walk(s'.ts, n, path) == None
    decreases |path|
  {
    ZeroTableEmpty();
    if path != [] {
      var q := Init(path);
      AddRootWalk(s, n, s', r, q);
      if r in s.roots && Walk(s.ts, r, q).Some? { WalkPos(s, r, q); }
    }
  }

  // ----- the kernel half -----

  /** `map_kernel_for_user_mm` after the entries below `i` are copied. */
  ghost predicate KernelCopied(s: Space, s': Space, r: nat, i: nat) {
    && s' == s.(ts := s'.ts) && s'.ts.Keys == s.ts.Keys
    && r in s.ts && s.kernel in s.ts && |s'.ts[r]| == |s.ts[r]| == |s.ts[s.kernel]| == ENTRIES
    && (forall t :: t in s.ts && t != r ==> s'.ts[t] == s.ts[t])
    && (forall j :: 0 <= j < ENTRIES ==> s'.ts[r][j] == if KERNEL_HALF <= j < i then s.ts[s.kernel][j] else s.ts[r][j])
  }

  lemma CopyForest(s: Space, r: nat, s': Space)
    requires Forest(s) && r in s.roots && KernelCopied(s, s', r, ENTRIES)
    ensures Forest(s')
  {
    assert TableOk(s, s.kernel) && TableOk(s, r);
    assert forall j :: 0 <= j < ENTRIES ==> Child(s'.ts, s.kernel, j) == Child(s.ts, s.kernel, j);
    forall u | u in s'.pos ensures TableOk(s', u) {
      assert TableOk(s, u);
      forall j | 0 <= j < ENTRIES ensures LinkOk(s', u, j) {
        assert LinkOk(s, u, j) && LinkOk(s, s.kernel, j);
        if u == r && j >= KERNEL_HALF {
          assert Child(s'.ts, u, j) == Child(s.ts, s.kernel, j);
        } else {
          assert Child(s'.ts, u, j) == Child(s.ts, u, j);
        }
      }
    }
  }

  /** Afterwards the upper half of the space translates like the kernel, and nothing else changes. */
  lemma {:induction false} CopyWalk(s: Space, r: nat, s': Space, r': nat, path: seq<nat>)
    requires Forest(s) && r in s.roots && r' in s.roots && KernelCopied(s, s', r, ENTRIES) && IsPath(path)
    ensures Walk(s'.ts, r', path) ==
      Walk(s.ts, if r' == r && path != [] && path[0] >= KERNEL_HALF then s.kernel else r', path)
    decreases |path|
  {
    if path != [] {
      var q, i := Init(path), Last(path);
      assert TableOk(s, r) && TableOk(s, s.kernel);
      CopyWalk(s, r, s', r', q);
      if q == [] {
        assert path == [i];
      } else {
        assert q[0] == path[0];
        var r0 := if r' == r && path[0] >= KERNEL_HALF then s.kernel else r';
        if Walk(s.ts, r0, q).Some? {
          WalkPos(s, r0, q);
          var t := Walk(s.ts, r0, q).value;
          assert t != r;
        }
      }
    }
  }

  // ----- deletion -----

  lemma SpaceReachable(ts: Tables, r: nat, x: nat)
    ensures x in SpaceFrames(ts, r) <==> exists path :: ReachedBy(ts, r, TOP_LEVEL, path, x)
  {
    WholeIsReachable(ts, r, TOP_LEVEL, x);
  }

  /** A walk of up to four levels from `r` ends in frame `x`: a table, or a mapped frame. */
  ghost predicate IsReached(ts: Tables, r: nat, x: nat) {
    exists path :: |path| <= 4 && (forall k :: 0 <= k < |path| ==> path[k] < 512) && Walk(ts, r, path) == Some(x)
  }

  lemma ReachedExact(ts: Tables, r: nat, x: nat)
    ensures x in SpaceFrames(ts, r) <==> IsReached(ts, r, x)
  {
    SpaceReachable(ts, r, x);
    hide SpaceFrames;
    if x in SpaceFrames(ts, r) {
      var path :| ReachedBy(ts, r, TOP_LEVEL, path, x);
      assert |path| <= 4 && Walk(ts, r, path) == Some(x);
    }
    if IsReached(ts, r, x) {
      var path :| |path| <= 4 && (forall k :: 0 <= k < |path| ==> path[k] < 512) && Walk(ts, r, path) == Some(x);
      assert ReachedBy(ts, r, TOP_LEVEL, path, x);
    }
  }

  /** Every frame that a walk from `r` reaches has become free, and nothing else. */
  ghost predicate FreedReached(ts: Tables, r: nat, st: State, st': State) {
    forall x :: x in FreeFrames(st'.blocks) <==> x in FreeFrames(st.blocks) || IsReached(ts, r, x)
  }

  lemma FreedExactly(ts: Tables, r: nat, st: State, st': State, n: nat)
    requires GivenBack(st, st', n, SpaceFrames(ts, r))
    ensures FreedReached(ts, r, st, st')
  {
    hide SpaceFrames, FreeFrames, IsReached, Walk;
    forall x ensures x in FreeFrames(st'.blocks) <==> x in FreeFrames(st.blocks) || IsReached(ts, r, x) {
      ReachedExact(ts, r, x);
    }
  }

  /** Each page maps its own frame, and no mapped frame is a table. */
  ghost predicate MappedOnce(s: Space, r: nat) {
    && (forall p, q, x :: IsPage(p) && IsPage(q) && Walk(s.ts, r, p) == Some(x) && Walk(s.ts, r, q) == Some(x) ==> p == q)
    && (forall p, x :: IsPage(p) && Walk(s.ts, r, p) == Some(x) ==> x !in s.pos)
  }

  lemma SpaceOnce(s: Space, r: nat)
    requires Forest(s) && r in s.roots && MappedOnce(s, r)
    ensures OncePerPath(s.ts, r, TOP_LEVEL)
  {
    forall p, q, x | ReachedBy(s.ts, r, TOP_LEVEL, p, x) && ReachedBy(s.ts, r, TOP_LEVEL, q, x) ensures p == q {
      if |p| <= 3 { WalkPos(s, r, p); }
      if |q| <= 3 { WalkPos(s, r, q); }
    }
  }

  /** No entry of the root was copied from the kernel. */
  ghost predicate Unshared(s: Space, r: nat) {
    forall i, c :: 0 <= i < ENTRIES && Child(s.ts, r, i) == Some(c) ==> c in s.pos && s.pos[c].root == r
  }

  /** In terms of the entries: a root shares nothing exactly if no present entry of its upper half equals the
      kernel's. */
  lemma UnsharedExact(s: Space, r: nat)
    requires Forest(s) && r in s.roots && r != s.kernel
    ensures Unshared(s, r) <==>
      forall i :: KERNEL_HALF <= i < ENTRIES && Child(s.ts, r, i).Some? ==> Child(s.ts, r, i) != Child(s.ts, s.kernel, i)
  {
    assert TableOk(s, r) && TableOk(s, s.kernel);
    forall i | 0 <= i < ENTRIES && Child(s.ts, r, i).Some?
      ensures
        var c := Child(s.ts, r, i).value;
        c in s.pos && (s.pos[c].root == r <==> !(i >= KERNEL_HALF && Child(s.ts, s.kernel, i) == Some(c)))
    {
      assert LinkOk(s, r, i) && LinkOk(s, s.kernel, i);
    }
  }

  /** After the kernel half is copied into it, a space shares nothing exactly if the kernel's upper half is
      empty. */
  lemma CopiedUnsharedExact(s: Space, s': Space, r: nat)
    requires Forest(s) && r in s.roots && r != s.kernel && KernelCopied(s, s', r, ENTRIES)
    ensures Unshared(s', r) <==> forall i :: KERNEL_HALF <= i < ENTRIES ==> Child(s.ts, s.kernel, i).None?
  {
    CopyForest(s, r, s');
    UnsharedExact(s', r);
    forall i | KERNEL_HALF <= i < ENTRIES
      ensures Child(s'.ts, r, i) == Child(s'.ts, s'.kernel, i) == Child(s.ts, s.kernel, i)
    {
    }
  }

  /** Mapping and unmapping copy nothing from the kernel's root. */
  ghost predicate KeepsUnshared(s: Space, s': Space) {
    forall r :: r in s.roots && Unshared(s, r) ==> Unshared(s', r)
  }

  lemma LinkUnshared(s: Space, t: nat, i: nat, n: nat, e: nat, s': Space)
    requires Forest(s) && t in s.pos && i < ENTRIES && n !in s.pos && FrameOf(e) == n && s' == LinkTable(s, t, i, n, e)
    ensures KeepsUnshared(s, s')
  {
    forall r | r in s.roots && Unshared(s, r) ensures Unshared(s', r) {
      forall j, c | 0 <= j < ENTRIES && Child(s'.ts, r, j) == Some(c) ensures c in s'.pos && s'.pos[c].root == r {
        if r != t || j != i { assert Child(s.ts, r, j) == Some(c); }
      }
    }
  }

  lemma LeafUnshared(s: Space, t: nat, i: nat, e: nat, s': Space)
    requires Forest(s) && t in s.pos && i < ENTRIES && |s.pos[t].path| == 3 && s' == s.(ts := SetEntry(s.ts, t, i, e))
    ensures KeepsUnshared(s, s')
  {
    forall r | r in s.roots && Unshared(s, r) ensures Unshared(s', r) {
      forall j, c | 0 <= j < ENTRIES && Child(s'.ts, r, j) == Some(c) ensures c in s'.pos && s'.pos[c].root == r {
        assert Child(s.ts, r, j) == Some(c);
      }
    }
  }

  lemma {:induction false} UnsharedWalk(s: Space, r: nat, path: seq<nat>)
    requires Forest(s) && r in s.roots && r != s.kernel && Unshared(s, r) && IsPath(path) && |path| <= 3
    requires Walk(s.ts, r, path).Some?
    ensures var t := Walk(s.ts, r, path).value;
      t in s.pos && s.pos[t].root == r && s.pos[t].path == path
      && (path != [] ==> Walk(s.ts, r, Init(path)) == Some(s.pos[t].parent))
    decreases |path|
  {
    WalkPos(s, r, path);
    if path != [] {
      var q, i := Init(path), Last(path);
      UnsharedWalk(s, r, q);
      var u := Walk(s.ts, r, q).value;
      assert TableOk(s, u) && LinkOk(s, u, i);
    }
  }

  /** `x` is a table of some other address space. */
  ghost predicate NeededElsewhere(s: Space, r: nat, x: nat) {
    exists r', path :: r' in s.roots && r' != r && |path| <= 3 && IsPath(path) && Walk(s.ts, r', path) == Some(x)
  }

  /** Deleting a space spares the tables of all the others if and only if no kernel entry was copied
      into its root. */
  lemma DeleteSpares(s: Space, r: nat)
    requires Forest(s) && r in s.roots && r != s.kernel && MappedOnce(s, r)
    ensures (forall x :: x in SpaceFrames(s.ts, r) && x in s.pos ==> !NeededElsewhere(s, r, x)) <==> Unshared(s, r)
  {
    if Unshared(s, r) {
      forall x | x in SpaceFrames(s.ts, r) && x in s.pos ensures !NeededElsewhere(s, r, x) {
        SpaceReachable(s.ts, r, x);
        var path :| ReachedBy(s.ts, r, TOP_LEVEL, path, x);
        UnsharedWalk(s, r, path);
        forall r', q | r' in s.roots && r' != r && |q| <= 3 && IsPath(q) ensures Walk(s.ts, r', q) != Some(x) {
          if Walk(s.ts, r', q) == Some(x) { WalkPos(s, r', q); }
        }
      }
    } else {
      var i, c :| 0 <= i < ENTRIES && Child(s.ts, r, i) == Some(c) && !(c in s.pos && s.pos[c].root == r);
      SharedIsReleased(s, r, i, c);
    }
  }

  /** A copied kernel entry makes deletion release a table that the kernel still uses. */
  lemma SharedIsReleased(s: Space, r: nat, i: nat, c: nat)
    requires Forest(s) && r in s.roots && r != s.kernel && i < ENTRIES
    requires Child(s.ts, r, i) == Some(c) && !(c in s.pos && s.pos[c].root == r)
    ensures c in SpaceFrames(s.ts, r) && c in s.pos && NeededElsewhere(s, r, c)
  {
    assert TableOk(s, r) && LinkOk(s, r, i);
    WalkHead(s.ts, r, i, []);
    WalkHead(s.ts, s.kernel, i, []);
    assert ReachedBy(s.ts, r, TOP_LEVEL, [i] + [], c);
    SpaceReachable(s.ts, r, c);
    assert IsPath([i] + []) && Walk(s.ts, s.kernel, [i] + []) == Some(c);
  }

  /** Deleting a space after the kernel half was copied into it spares what others need exactly if there
      was nothing to copy. */
  lemma CopyThenDelete(s: Space, s': Space, r: nat)
    requires Forest(s) && r in s.roots && r != s.kernel && KernelCopied(s, s', r, ENTRIES) && MappedOnce(s', r)
    ensures (forall x :: x in SpaceFrames(s'.ts, r) && x in s'.pos ==> !NeededElsewhere(s', r, x)) <==>
            forall i :: KERNEL_HALF <= i < ENTRIES ==> Child(s.ts, s.kernel, i).None?
  {
    CopyForest(s, r, s');
    CopiedUnsharedExact(s, s', r);
    DeleteSpares(s', r);
  }

  function RemoveRoot(s: Space, r: nat): Space {
    var dead := Elements(SpaceFrames(s.ts, r));
    s.(ts := s.ts - dead, pos := s.pos - dead, roots := s.roots - {r})
  }

  lemma SurvivorLink(s: Space, r: nat, s': Space, u: nat, j: nat)
    requires Forest(s) && r in s.roots && r != s.kernel && MappedOnce(s, r) && Unshared(s, r)
    requires s' == RemoveRoot(s, r) && u in s'.pos && j < ENTRIES
    ensures LinkOk(s', u, j)
  {
    assert TableOk(s, u) && LinkOk(s, u, j);
    hide SpaceFrames, MappedOnce, Unshared, TableOk;
    assert Child(s'.ts, u, j) == Child(s.ts, u, j);
    if Child(s.ts, u, j).Some? && |s.pos[u].path| < 3 {
      var c := Child(s.ts, u, j).value;
      if c in SpaceFrames(s.ts, r) { DeadParent(s, r, u, j, c); }
      if s.kernel in SpaceFrames(s.ts, r) { DeadRoot(s, r, s.kernel); }
      assert Child(s'.ts, s.kernel, j) == Child(s.ts, s.kernel, j);
    }
  }

  /** After deletion the remaining tables are still a forest: no surviving table links to a freed one. */
  lemma RemoveForest(s: Space, r: nat, s': Space)
    requires Forest(s) && r in s.roots && r != s.kernel && MappedOnce(s, r) && Unshared(s, r)
    requires s' == RemoveRoot(s, r)
    ensures Forest(s')
  {
    forall u | u in s'.pos ensures TableOk(s', u) {
      assert TableOk(s, u);
      forall j | 0 <= j < ENTRIES ensures LinkOk(s', u, j) { SurvivorLink(s, r, s', u, j); }
    }
    forall x | x in s'.roots ensures x in s'.pos && s'.pos[x] == Pos(x, [], x) {
      if x in SpaceFrames(s.ts, r) { DeadRoot(s, r, x); }
    }
  }

  lemma ForeignTable(s: Space, r: nat, r': nat, path: seq<nat>, t: nat)
    requires Forest(s) && r in s.roots && r != s.kernel && MappedOnce(s, r) && Unshared(s, r)
    requires r' in s.roots && r' != r && IsPath(path) && |path| <= 3 && Walk(s.ts, r', path) == Some(t)
    ensures t !in SpaceFrames(s.ts, r)
  {
    WalkPos(s, r', path);
    if t in SpaceFrames(s.ts, r) { DeadRoot(s, r, t); }
  }

  /** Every walk of every other space is unchanged by the deletion. */
  lemma {:induction false} RemoveWalk(s: Space, r: nat, s': Space, r': nat, path: seq<nat>)
    requires Forest(s) && r in s.roots && r != s.kernel && MappedOnce(s, r) && Unshared(s, r)
    requires s' == RemoveRoot(s, r) && r' in s'.roots && IsPath(path)
    ensures Walk(s'.ts, r', path) == Walk(s.ts, r', path)
    decreases |path|
  {
    if path != [] {
      var q := Init(path);
      RemoveWalk(s, r, s', r', q);
      if Walk(s.ts, r', q).Some? {
        var t := Walk(s.ts, r', q).value;
        ForeignTable(s, r, r', q, t);
        assert Child(s'.ts, t, Last(path)) == Child(s.ts, t, Last(path));
      }
    }
  }

  lemma DeadRoot(s: Space, r: nat, t: nat)
    requires Forest(s) && r in s.roots && r != s.kernel && MappedOnce(s, r) && Unshared(s, r)
    requires t in s.pos && t in SpaceFrames(s.ts, r)
    ensures s.pos[t].root == r
  {
    SpaceReachable(s.ts, r, t);
    var path :| ReachedBy(s.ts, r, TOP_LEVEL, path, t);
    UnsharedWalk(s, r, path);
  }

  /** The table that links to a released table is released too. */
  lemma DeadParent(s: Space, r: nat, u: nat, j: nat, c: nat)
    requires Forest(s) && r in s.roots && r != s.kernel && MappedOnce(s, r) && Unshared(s, r)
    requires u in s.pos && j < ENTRIES && |s.pos[u].path| < 3 && Child(s.ts, u, j) == Some(c)
    requires c in SpaceFrames(s.ts, r)
    ensures u in SpaceFrames(s.ts, r)
  {
    hide SpaceFrames;
    assert TableOk(s, u) && LinkOk(s, u, j);
    SpaceReachable(s.ts, r, c);
    var path :| ReachedBy(s.ts, r, TOP_LEVEL, path, c);
    UnsharedWalk(s, r, path);
    assert path != [];
    assert ReachedBy(s.ts, r, TOP_LEVEL, Init(path), u);
    SpaceReachable(s.ts, r, u);
  }

  lemma {:induction false} TreeReadable(s: Space, t: nat, level: nat)
    requires Forest(s) && t in s.pos && level == 3 - |s.pos[t].path|
    ensures ReadableTree(s.ts, t, level)
    decreases level
  {
    assert TableOk(s, t);
    if level > 0 {
      var l: nat := level - 1;
      forall i, c | 0 <= i < ENTRIES && Child(s.ts, t, i) == Some(c) ensures ReadableTree(s.ts, c, l) {
        assert LinkOk(s, t, i);
        assert TableOk(s, c);
        TreeReadable(s, c, l);
      }
    }
  }
}
