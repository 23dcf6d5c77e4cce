/** The recursive release of an address space: which frames it gives back, and that it gives each
    back once. */
module Teardown {
  import opened Machine
  import opened Buddy
  import opened BuddyProofs
  import opened BuddyTheorems
  import opened SingleFrames
  import opened PageTables

  // ----- giving a list of single frames back -----

  function FreeOne(st: State, f: nat): State {
    if |st.lists| == MAX_ORDER + 1 && f in st.blocks && st.blocks[f].order <= MAX_ORDER then Free(st, f) else st
  }

  function FreeAll(st: State, fs: seq<nat>): State {
    if fs == [] then st else FreeOne(FreeAll(st, fs[..|fs| - 1]), fs[|fs| - 1])
  }

  lemma {:induction false} FreeAllAppend(st: State, a: seq<nat>, b: seq<nat>)
    ensures FreeAll(st, a + b) == FreeAll(FreeAll(st, a), b)
  {
    if b == [] {
      assert a + b == a;
    } else {
      var b' := b[..|b| - 1];
      FreeAllAppend(st, a, b');
      assert (a + b)[..|a + b| - 1] == a + b';
    }
  }

  function Elements(fs: seq<nat>): set<nat> {
    set x | x in fs
  }

  /** Distinct frames, each a single-frame block in use. */
  ghost predicate Freeable(st: State, n: nat, fs: seq<nat>) {
    && Inv(st, n) && NoDup(fs)
    && forall x :: x in fs ==> x in Used(st.blocks) && Used(st.blocks)[x] == 0
  }

  lemma FreeOneExact(s: State, n: nat, x: nat)
    requires Inv(s, n) && x in Used(s.blocks) && Used(s.blocks)[x] == 0
    ensures Inv(FreeOne(s, x), n) && x !in FreeFrames(s.blocks)
    ensures Used(FreeOne(s, x).blocks) == Used(s.blocks) - {x}
    ensures FreeFrames(FreeOne(s, x).blocks) == FreeFrames(s.blocks) + {x}
  {
    FreeInv(s, n, x);
    FreeExact(s, n, x);
    SingleRange(x);
  }

  /** `r` is `st` with exactly the frames of `fs` given back. */
  ghost predicate GivenBack(st: State, r: State, n: nat, fs: seq<nat>) {
    && Inv(r, n)
    && Used(r.blocks) == Used(st.blocks) - Elements(fs)
    && FreeFrames(r.blocks) == FreeFrames(st.blocks) + Elements(fs)
    && |FreeFrames(r.blocks)| == |FreeFrames(st.blocks)| + |fs|
  }

  lemma SetStep(u: map<nat, nat>, u': map<nat, nat>, f: set<nat>, f': set<nat>, a: seq<nat>, x: nat, fs: seq<nat>)
    requires u' == u - Elements(a) && f' == f + Elements(a) && x !in f' && fs == a + [x]
    ensures u' - {x} == u - Elements(fs) && f' + {x} == f + Elements(fs) && |f' + {x}| == |f'| + 1
  {
    assert Elements(fs) == Elements(a) + {x};
  }

  lemma GivenBackStep(st: State, s: State, n: nat, a: seq<nat>, x: nat, fs: seq<nat>)
    requires GivenBack(st, s, n, a) && x in Used(s.blocks) && Used(s.blocks)[x] == 0 && fs == a + [x]
    ensures GivenBack(st, FreeOne(s, x), n, fs)
  {
    FreeOneExact(s, n, x);
    SetStep(Used(st.blocks), Used(s.blocks), FreeFrames(st.blocks), FreeFrames(s.blocks), a, x, fs);
  }

  lemma {:induction false} FreeLoop(st: State, n: nat, fs: seq<nat>) returns (r: State)
    requires Freeable(st, n, fs)
    ensures r == FreeAll(st, fs) && GivenBack(st, r, n, fs)
  {
    if fs == [] {
      r := st;
    } else {
      var a, x := fs[..|fs| - 1], fs[|fs| - 1];
      assert fs == a + [x] && forall y :: y in a ==> y in fs;
      var s := FreeLoop(st, n, a);
      assert x in fs && x !in a && x !in Elements(a);
      GivenBackStep(st, s, n, a, x, fs);
      r := FreeOne(s, x);
    }
  }

  /** Every frame of the list becomes free, none is freed twice, and the free total rises by exactly
      their number. */
  lemma FreeAllExact(st: State, n: nat, fs: seq<nat>)
    requires Freeable(st, n, fs)
    ensures GivenBack(st, FreeAll(st, fs), n, fs)
  {
    var r := FreeLoop(st, n, fs);
  }

  // ----- the frames below a table -----

  /** What `free_page_table` gives back for entry `i` of table `t` of the given level. */
  function Below(ts: Tables, t: nat, level: nat, i: nat): seq<nat>
    decreases level, 0
  {
    match Child(ts, t, i)
    case None => []
    case Some(c) => if level > 0 then Released(ts, c, level - 1, ENTRIES) + [c] else [c]
  }

  /** What its first `i` iterations give back. */
  function Released(ts: Tables, t: nat, level: nat, i: nat): seq<nat>
    decreases level, i + 1
  {
    if i == 0 then [] else Released(ts, t, level, i - 1) + Below(ts, t, level, i - 1)
  }

  /** All of it, in the order of release. */
  function Whole(ts: Tables, t: nat, level: nat): seq<nat> {
    Released(ts, t, level, ENTRIES) + [t]
  }

  /** The level of a root table, as `delete_mm` passes it. */
  const TOP_LEVEL: nat := 3

  /** Everything that deleting the space of `root` gives back. */
  function SpaceFrames(ts: Tables, root: nat): seq<nat> {
    Whole(ts, root, TOP_LEVEL)
  }

  lemma {:induction false} WalkHead(ts: Tables, t: nat, i: nat, path: seq<nat>)
    ensures Walk(ts, t, [i] + path) == (match Child(ts, t, i) case None => None case Some(c) => Walk(ts, c, path))
    decreases |path|
  {
    if path == [] {
      assert [i] + path == [i] && Init([i]) == [] && Last([i]) == i;
    } else {
      WalkHead(ts, t, i, Init(path));
      assert Init([i] + path) == [i] + Init(path);
      assert Last([i] + path) == Last(path);
    }
  }

  /** A frame reachable from a table along at most `level + 1` indices. */
  ghost predicate ReachedBy(ts: Tables, t: nat, level: nat, path: seq<nat>, x: nat) {
    IsPath(path) && |path| <= level + 1 && Walk(ts, t, path) == Some(x)
  }

  /** Everything released is reachable, through one of the entries handled so far. */
  lemma {:induction false} ReleasedReached(ts: Tables, t: nat, level: nat, n: nat, x: nat) returns (path: seq<nat>)
    requires level <= 3 && n <= ENTRIES && x in Released(ts, t, level, n)
    ensures path != [] && path[0] < n && ReachedBy(ts, t, level, path, x)
    decreases level, n
  {
    var i := n - 1;
    if x in Released(ts, t, level, i) {
      path := ReleasedReached(ts, t, level, i, x);
    } else {
      assert x in Below(ts, t, level, i);
      var c := Child(ts, t, i).value;
      var rest := [];
      if x != c {
        rest := ReleasedReached(ts, c, level - 1, ENTRIES, x);
      }
      WalkHead(ts, t, i, rest);
      path := [i] + rest;
    }
  }

  /** Everything reachable is released. */
  lemma {:induction false} ReachedReleased(ts: Tables, t: nat, level: nat, n: nat, path: seq<nat>, x: nat)
    requires level <= 3 && n <= ENTRIES && path != [] && path[0] < n && ReachedBy(ts, t, level, path, x)
    ensures x in Released(ts, t, level, n)
    decreases level, n
  {
    var i := n - 1;
    if path[0] < i {
      ReachedReleased(ts, t, level, i, path, x);
    } else {
      var rest := path[1..];
      assert path == [i] + rest;
      WalkHead(ts, t, i, rest);
      var c := Child(ts, t, i).value;
      if rest != [] {
        var l: nat := level - 1;
        assert ReachedBy(ts, c, l, rest, x);
        ReachedReleased(ts, c, l, ENTRIES, rest, x);
        assert x in Released(ts, c, l, ENTRIES) + [c];
      }
      assert x in Below(ts, t, level, i);
    }
  }

  /** The released frames are exactly the table itself, the tables below it and the mapped frames. */
  lemma WholeIsReachable(ts: Tables, t: nat, level: nat, x: nat)
    requires level <= 3
    ensures x in Whole(ts, t, level) <==> exists path :: ReachedBy(ts, t, level, path, x)
  {
    if x in Whole(ts, t, level) {
      if x == t {
        assert ReachedBy(ts, t, level, [], x);
      } else {
        var path := ReleasedReached(ts, t, level, ENTRIES, x);
      }
    }
    if path :| ReachedBy(ts, t, level, path, x) {
      if path != [] { ReachedReleased(ts, t, level, ENTRIES, path, x); }
    }
  }

  // ----- each frame once -----

  /** Different paths from `t` lead to different frames. */
  ghost predicate OncePerPath(ts: Tables, t: nat, level: nat) {
    forall p, q, x :: ReachedBy(ts, t, level, p, x) && ReachedBy(ts, t, level, q, x) ==> p == q
  }

  lemma OnceBelow(ts: Tables, t: nat, level: nat, i: nat)
    requires 0 < level <= 3 && i < ENTRIES && OncePerPath(ts, t, level) && Child(ts, t, i).Some?
    ensures OncePerPath(ts, Child(ts, t, i).value, level - 1)
  {
    var c := Child(ts, t, i).value;
    var l := level - 1;
    forall p, q, x | ReachedBy(ts, c, l, p, x) && ReachedBy(ts, c, l, q, x) ensures p == q {
      WalkHead(ts, t, i, p);
      WalkHead(ts, t, i, q);
      assert ReachedBy(ts, t, level, [i] + p, x) && ReachedBy(ts, t, level, [i] + q, x);
      assert p == ([i] + p)[1..] && q == ([i] + q)[1..];
    }
  }

  lemma AppendNoDup(a: seq<nat>, b: seq<nat>)
    requires NoDup(a) && NoDup(b) && forall x :: x in a ==> x !in b
    ensures NoDup(a + b)
  {
    forall i, j | 0 <= i < j < |a + b| ensures (a + b)[i] != (a + b)[j] {
      if i < |a| <= j { assert a[i] in a && b[j - |a|] in b; }
    }
  }

  lemma {:induction false} ReleasedNoDup(ts: Tables, t: nat, level: nat, n: nat)
    requires level <= 3 && n <= ENTRIES && OncePerPath(ts, t, level)
    ensures NoDup(Released(ts, t, level, n)) && t !in Released(ts, t, level, n)
    decreases level, n
  {
    assert ReachedBy(ts, t, level, [], t);
    if t in Released(ts, t, level, n) {
      var path := ReleasedReached(ts, t, level, n, t);
      assert false;
    }
    if n > 0 {
      var i := n - 1;
      ReleasedNoDup(ts, t, level, i);
      BelowNoDup(ts, t, level, i);
      forall x | x in Released(ts, t, level, i) ensures x !in Below(ts, t, level, i) {
        BelowApart(ts, t, level, i, x);
      }
      AppendNoDup(Released(ts, t, level, i), Below(ts, t, level, i));
    }
  }

  lemma {:induction false} BelowNoDup(ts: Tables, t: nat, level: nat, i: nat)
    requires level <= 3 && i < ENTRIES && OncePerPath(ts, t, level)
    ensures NoDup(Below(ts, t, level, i))
    decreases level, 0
  {
    if Child(ts, t, i).Some? && level > 0 {
      var c := Child(ts, t, i).value;
      OnceBelow(ts, t, level, i);
      ReleasedNoDup(ts, c, level - 1, ENTRIES);
      AppendNoDup(Released(ts, c, level - 1, ENTRIES), [c]);
    }
  }

  lemma BelowReached(ts: Tables, t: nat, level: nat, i: nat, x: nat) returns (path: seq<nat>)
    requires level <= 3 && i < ENTRIES && x in Below(ts, t, level, i)
    ensures path != [] && path[0] == i && ReachedBy(ts, t, level, path, x)
  {
    var c := Child(ts, t, i).value;
    var rest := [];
    if x != c { rest := ReleasedReached(ts, c, level - 1, ENTRIES, x); }
    WalkHead(ts, t, i, rest);
    path := [i] + rest;
  }

  /** No frame is released both for entry `i` and for an earlier one. */
  lemma BelowApart(ts: Tables, t: nat, level: nat, i: nat, x: nat)
    requires level <= 3 && i < ENTRIES && OncePerPath(ts, t, level)
    requires x in Released(ts, t, level, i)
    ensures x !in Below(ts, t, level, i)
  {
    var p := ReleasedReached(ts, t, level, i, x);
    if x in Below(ts, t, level, i) {
      var q := BelowReached(ts, t, level, i, x);
      assert false;
    }
  }

  lemma WholeNoDup(ts: Tables, t: nat, level: nat)
    requires level <= 3 && OncePerPath(ts, t, level)
    ensures NoDup(Whole(ts, t, level))
  {
    ReleasedNoDup(ts, t, level, ENTRIES);
    AppendNoDup(Released(ts, t, level, ENTRIES), [t]);
  }

  // ----- one step at a time -----

  lemma FreeablePrefix(st: State, n: nat, a: seq<nat>, fs: seq<nat>)
    requires Freeable(st, n, fs) && a <= fs
    ensures Freeable(st, n, a)
  {
    forall i, j | 0 <= i < j < |a| ensures a[i] != a[j] { assert a[i] == fs[i] && a[j] == fs[j]; }
    forall x | x in a ensures x in fs {
      var i :| 0 <= i < |a| && a[i] == x;
      assert fs[i] == x;
    }
  }

  /** What is left to free stays freeable while the frames before it are freed. */
  lemma NoDupRest(a: seq<nat>, b: seq<nat>)
    requires NoDup(a + b)
    ensures NoDup(b) && forall x :: x in b ==> x in a + b && x !in a
  {
    var ab := a + b;
    forall i, j | 0 <= i < j < |b| ensures b[i] != b[j] { assert b[i] == ab[|a| + i] && b[j] == ab[|a| + j]; }
    forall x | x in b ensures x in ab && x !in a {
      var j :| 0 <= j < |b| && b[j] == x;
      assert ab[|a| + j] == x;
      forall i | 0 <= i < |a| ensures a[i] != x { assert ab[i] == a[i]; }
    }
  }

  lemma FreeableRest(st: State, n: nat, a: seq<nat>, b: seq<nat>)
    requires Freeable(st, n, a + b)
    ensures Freeable(FreeAll(st, a), n, b)
  {
    hide Inv, NoDup;
    FreeablePrefix(st, n, a, a + b);
    FreeAllExact(st, n, a);
    NoDupRest(a, b);
  }

  lemma {:induction false} ReleasedPrefix(ts: Tables, t: nat, level: nat, i: nat, j: nat)
    requires i <= j
    ensures Released(ts, t, level, i) <= Released(ts, t, level, j)
    decreases j
  {
    if i < j { ReleasedPrefix(ts, t, level, i, j - 1); }
  }

  /** The frames of entry `i` can be freed once those of the earlier entries are. */
  lemma BelowFreeable(st: State, n: nat, ts: Tables, t: nat, level: nat, i: nat)
    requires i < ENTRIES && Freeable(st, n, Whole(ts, t, level))
    ensures Freeable(FreeAll(st, Released(ts, t, level, i)), n, Below(ts, t, level, i))
  {
    var next := i + 1;
    ReleasedPrefix(ts, t, level, next, ENTRIES);
    assert Released(ts, t, level, next) <= Whole(ts, t, level);
    assert Released(ts, t, level, next) == Released(ts, t, level, i) + Below(ts, t, level, i);
    FreeablePrefix(st, n, Released(ts, t, level, next), Whole(ts, t, level));
    FreeableRest(st, n, Released(ts, t, level, i), Below(ts, t, level, i));
  }

  lemma ReleaseStart(st: State, ts: Tables, t: nat, level: nat)
    ensures FreeAll(st, Released(ts, t, level, 0)) == st
  {
  }

  /** One turn of the loop over the entries of a table. */
  lemma ReleaseStep(st: State, n: nat, ts: Tables, t: nat, level: nat, i: nat, next: nat, st': State)
    requires i < ENTRIES && next == i + 1 && Freeable(st, n, Whole(ts, t, level))
    requires st' == FreeAll(st, Released(ts, t, level, i))
    ensures Freeable(st', n, Below(ts, t, level, i))
    ensures FreeAll(st', Below(ts, t, level, i)) == FreeAll(st, Released(ts, t, level, next))
  {
    BelowFreeable(st, n, ts, t, level, i);
    FreeAllAppend(st, Released(ts, t, level, i), Below(ts, t, level, i));
  }

  lemma ReleaseEnd(st: State, n: nat, ts: Tables, t: nat, level: nat, st': State)
    requires Freeable(st, n, Whole(ts, t, level)) && st' == FreeAll(st, Released(ts, t, level, ENTRIES))
    ensures Freeable(st', n, [t]) && FreeAll(st', [t]) == FreeAll(st, Whole(ts, t, level))
  {
    FreeableRest(st, n, Released(ts, t, level, ENTRIES), [t]);
    FreeAllAppend(st, Released(ts, t, level, ENTRIES), [t]);
  }

  lemma BelowIsWhole(ts: Tables, t: nat, level: nat, i: nat, c: nat, below: nat)
    requires level == below + 1 && Child(ts, t, i) == Some(c)
    ensures Below(ts, t, level, i) == Whole(ts, c, below)
  {
  }

  /** Every table that the release reads is there. */
  ghost predicate ReadableTree(ts: Tables, t: nat, level: nat)
    decreases level
  {
    && t in ts && |ts[t]| == ENTRIES
    && (level > 0 ==> forall i, c :: 0 <= i < ENTRIES && Child(ts, t, i) == Some(c) ==> ReadableTree(ts, c, level - 1))
  }
}
