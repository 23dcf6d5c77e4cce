/** Four-level page tables as pure data: the walk of section 4.5 of the Intel 64 SDM, volume 3A, the
    position of every table frame in the trees, and what writing one entry does to every walk. */
module PageTables {
  import opened Machine

  const ENTRIES: nat := 512
  const KERNEL_HALF: nat := 256

  /** The frames that hold page tables, with their entries. */
  type Tables = map<nat, seq<nat>>

  // ----- entries -----

  predicate Present(e: nat) {
    e % 2 == 1
  }

  /** The frame an entry points to: `e & ~0xFFF`, as a frame number. */
  function FrameOf(e: nat): nat {
    e / PAGE_SIZE
  }

  function MakeEntry(frame: nat, attr: nat): nat {
    frame * PAGE_SIZE + attr
  }

  /** `address | attr` for a page-aligned address and attributes below bit 12. */
  lemma EntryParts(frame: nat, attr: nat)
    requires attr < PAGE_SIZE
    ensures FrameOf(MakeEntry(frame, attr)) == frame
    ensures Present(MakeEntry(frame, attr)) <==> Present(attr)
  {
  }

  function ZeroTable(): seq<nat> {
    seq(ENTRIES, i => 0)
  }

  function Child(ts: Tables, t: nat, i: nat): Option<nat> {
    if t in ts && i < |ts[t]| && Present(ts[t][i]) then Some(FrameOf(ts[t][i])) else None
  }

  // ----- walks -----

  /** A virtual page is its four table indices, top level first. */
  predicate IsPath(path: seq<nat>) {
    |path| <= 4 && forall k :: 0 <= k < |path| ==> path[k] < ENTRIES
  }

  predicate IsPage(p: seq<nat>) {
    |p| == 4 && IsPath(p)
  }

  function Init(path: seq<nat>): seq<nat>
    requires path != []
  {
    path[..|path| - 1]
  }

  function Last(path: seq<nat>): nat
    requires path != []
  {
    path[|path| - 1]
  }

  /** The frame reached from `root` along `path`: a table for up to three indices, the mapped frame
      for four. */
  function Walk(ts: Tables, root: nat, path: seq<nat>): Option<nat>
    decreases |path|
  {
    if path == [] then Some(root)
    else
      match Walk(ts, root, Init(path))
      case None => None
      case Some(t) => Child(ts, t, Last(path))
  }

  lemma WalkStep(ts: Tables, root: nat, path: seq<nat>, i: nat)
    ensures Walk(ts, root, path + [i]) ==
      (match Walk(ts, root, path) case None => None case Some(t) => Child(ts, t, i))
  {
    assert Init(path + [i]) == path;
  }

  // ----- the trees -----

  /** Where a table sits: the root of its tree, the indices that lead to it, and the one table that
      links to it (itself for a root). */
  datatype Pos = Pos(root: nat, path: seq<nat>, parent: nat)

  datatype Space = Space(ts: Tables, pos: map<nat, Pos>, roots: set<nat>, kernel: nat)

  /** A root may share an upper-half entry with the kernel's root. */
  ghost predicate KernelLink(s: Space, t: nat, i: nat, c: nat)
    requires t in s.pos && c in s.pos
  {
    && s.pos[t].path == [] && i >= KERNEL_HALF
    && Child(s.ts, s.kernel, i) == Some(c) && s.pos[c] == Pos(s.kernel, [i], s.kernel)
  }

  /** A present entry `i` of table `t` above the last level points to the table below it, of the same
      tree; only an upper-half entry of a root may point into the kernel's tree instead. Its low bits are
      7: present, writable and open to user mode. */
  ghost predicate LinkOk(s: Space, t: nat, i: nat)
    requires t in s.pos
  {
    var c := Child(s.ts, t, i);
    c.Some? && |s.pos[t].path| < 3 ==>
      && c.value in s.pos && s.ts[t][i] % 4096 == 7
      && (s.pos[c.value] == Pos(s.pos[t].root, s.pos[t].path + [i], t) || KernelLink(s, t, i, c.value))
  }

  ghost predicate TableOk(s: Space, t: nat)
    requires t in s.pos
  {
    && t in s.ts && |s.ts[t]| == ENTRIES
    && |s.pos[t].path| <= 3 && IsPath(s.pos[t].path)
    && (s.pos[t].path == [] ==> s.pos[t].root == t)
    && forall i :: 0 <= i < ENTRIES ==> LinkOk(s, t, i)
  }

  /** All trees are disjoint: a table frame has one position, so it is in one place of one tree. */
  ghost predicate Forest(s: Space) {
    && s.ts.Keys == s.pos.Keys
    && s.kernel in s.roots
    && (forall r :: r in s.roots ==> r in s.pos && s.pos[r] == Pos(r, [], r))
    && (forall t :: t in s.pos ==> TableOk(s, t))
  }

  /** A table reached from a root has the position that the walk spells, in the tree of that root, or
      below an upper-half entry possibly in the kernel's tree. */
  lemma {:induction false} WalkPos(s: Space, r: nat, path: seq<nat>)
    requires Forest(s) && r in s.roots && IsPath(path) && |path| <= 3
    requires Walk(s.ts, r, path).Some?
    ensures var t := Walk(s.ts, r, path).value;
      && t in s.pos && s.pos[t].path == path
      && (s.pos[t].root == r || (s.pos[t].root == s.kernel && path != [] && path[0] >= KERNEL_HALF))
    decreases |path|
  {
    if path != [] {
      var q, i := Init(path), Last(path);
      WalkPos(s, r, q);
      var t := Walk(s.ts, r, q).value;
      assert TableOk(s, t) && LinkOk(s, t, i);
      assert path == q + [i];
    }
  }

  /** A table is in one place of one tree: two walks that meet in a table follow the same indices, from
      the same root unless they go through the shared upper half. */
  lemma TreesDisjoint(s: Space, r: nat, r': nat, p: seq<nat>, p': seq<nat>)
    requires Forest(s) && r in s.roots && r' in s.roots && IsPath(p) && IsPath(p') && |p| <= 3 && |p'| <= 3
    requires Walk(s.ts, r, p).Some? && Walk(s.ts, r, p) == Walk(s.ts, r', p')
    ensures p == p' && (r == r' || (p != [] && p[0] >= KERNEL_HALF))
  {
    WalkPos(s, r, p);
    WalkPos(s, r', p');
  }

  // ----- writing one entry -----

  function SetEntry(ts: Tables, t: nat, i: nat, e: nat): Tables
    requires t in ts && i < |ts[t]|
  {
    var row: seq<nat> := ts[t][i := e];
    ts[t := row]
  }

  /** Linking a fresh zeroed table under an entry that was not present. */
  function LinkTable(s: Space, t: nat, i: nat, fresh_: nat, e: nat): Space
    requires t in s.ts && i < |s.ts[t]| && t in s.pos
  {
    s.(ts := SetEntry(s.ts, t, i, e)[fresh_ := ZeroTable()],
       pos := s.pos[fresh_ := Pos(s.pos[t].root, s.pos[t].path + [i], t)])
  }

  lemma ZeroTableEmpty()
    ensures |ZeroTable()| == ENTRIES == 512 && forall i :: 0 <= i < 512 ==> ZeroTable()[i] == 0
  {
  }

  /** A new table changes no walk except the one that now reaches the new table itself, which ended
      nowhere before. */
  lemma {:induction false} LinkWalk(s: Space, t: nat, i: nat, n: nat, e: nat, r: nat, path: seq<nat>)
    requires Forest(s) && t in s.pos && |s.pos[t].path| < 3 && i < ENTRIES && n !in s.pos
    requires !Present(s.ts[t][i]) && FrameOf(e) == n
    requires r in s.roots && IsPath(path)
    ensures var w, w' := Walk(s.ts, r, path), Walk(LinkTable(s, t, i, n, e).ts, r, path);
      w' == w || (w.None? && w' == Some(n) && |path| == |s.pos[t].path| + 1)
    decreases |path|
  {
    if path != [] {
      var q, j := Init(path), Last(path);
      LinkWalk(s, t, i, n, e, r, q);
      ZeroTableEmpty();
      if Walk(s.ts, r, q).Some? {
        WalkPos(s, r, q);
      }
    }
  }

  lemma LinkForest(s: Space, t: nat, i: nat, n: nat, e: nat, s': Space)
    requires Forest(s) && t in s.pos && |s.pos[t].path| < 3 && i < ENTRIES && n !in s.pos
    requires t in s.ts && i < |s.ts[t]| && !Present(s.ts[t][i]) && FrameOf(e) == n && s' == LinkTable(s, t, i, n, e)
    requires e % 4096 == 7
    ensures Forest(s')
  {
    ZeroTableEmpty();
    forall u | u in s'.pos ensures TableOk(s', u) {
      if u == n {
        assert TableOk(s, t);
      } else {
        assert TableOk(s, u);
        forall j | 0 <= j < ENTRIES ensures LinkOk(s', u, j) {
          assert LinkOk(s, u, j);
          if u != t || j != i { assert Child(s'.ts, u, j) == Child(s.ts, u, j); }
        }
      }
    }
  }

  /** Every walk that ended somewhere still ends there, and every page still translates the same. */
  ghost predicate Extends(s: Space, s': Space) {
    && s'.roots == s.roots && s'.kernel == s.kernel
    && (forall r, path :: r in s.roots && IsPath(path) && Walk(s.ts, r, path).Some? ==>
          Walk(s'.ts, r, path) == Walk(s.ts, r, path))
    && (forall r, p :: r in s.roots && IsPage(p) ==> Walk(s'.ts, r, p) == Walk(s.ts, r, p))
  }

  lemma LinkExtends(s: Space, t: nat, i: nat, n: nat, e: nat, s': Space)
    requires Forest(s) && t in s.pos && |s.pos[t].path| < 3 && i < ENTRIES && n !in s.pos
    requires t in s.ts && i < |s.ts[t]| && !Present(s.ts[t][i]) && FrameOf(e) == n && s' == LinkTable(s, t, i, n, e)
    ensures Extends(s, s')
  {
    forall r, path | r in s.roots && IsPath(path)
      ensures Walk(s.ts, r, path).Some? || |path| == 4 ==> Walk(s'.ts, r, path) == Walk(s.ts, r, path)
    {
      LinkWalk(s, t, i, n, e, r, path);
    }
  }

  /** Writing an entry of a last-level table. */
  lemma LeafForest(s: Space, t: nat, i: nat, e: nat, s': Space)
    requires Forest(s) && t in s.pos && |s.pos[t].path| == 3 && t in s.ts && i < |s.ts[t]|
    requires s' == s.(ts := SetEntry(s.ts, t, i, e))
    ensures Forest(s')
  {
    forall u | u in s'.pos ensures TableOk(s', u) {
      assert TableOk(s, u);
      forall j | 0 <= j < ENTRIES ensures LinkOk(s', u, j) {
        assert LinkOk(s, u, j);
        if u != t { assert Child(s'.ts, u, j) == Child(s.ts, u, j); }
      }
    }
  }

  /** It changes only the pages whose walk ends in that entry. */
  lemma {:induction false} LeafWalk(s: Space, t: nat, i: nat, e: nat, s': Space, r: nat, path: seq<nat>)
    requires Forest(s) && t in s.pos && |s.pos[t].path| == 3 && t in s.ts && i < |s.ts[t]|
    requires s' == s.(ts := SetEntry(s.ts, t, i, e)) && r in s.roots && IsPath(path)
    ensures |path| <= 3 ==> Walk(s'.ts, r, path) == Walk(s.ts, r, path)
    ensures |path| == 4 ==>
      Walk(s'.ts, r, path) == (if Walk(s.ts, r, Init(path)) == Some(t) && Last(path) == i
                               then (if Present(e) then Some(FrameOf(e)) else None)
                               else Walk(s.ts, r, path))
    decreases |path|
  {
    if path != [] {
      var q, j := Init(path), Last(path);
      LeafWalk(s, t, i, e, s', r, q);
      if Walk(s.ts, r, q).Some? { WalkPos(s, r, q); }
    }
  }

  // ----- rights -----

  /** The word that the walk to a page reads at level `k`, from 0 for the root. */
  function WordOn(ts: Tables, r: nat, p: seq<nat>, k: nat): nat
    requires k < |p|
  {
    match Walk(ts, r, p[..k])
    case None => 0
    case Some(t) => if t in ts && p[k] < |ts[t]| then ts[t][p[k]] else 0
  }

  /** Bit `b` is set on all four levels; 2 is the writable bit and 4 the user bit. */
  ghost predicate Granted(ts: Tables, r: nat, p: seq<nat>, b: nat)
    requires IsPage(p) && b > 0
  {
    forall k :: 0 <= k < 4 ==> WordOn(ts, r, p, k) / b % 2 == 1
  }

  lemma LinkWord(s: Space, r: nat, p: seq<nat>, k: nat)
    requires Forest(s) && r in s.roots && IsPage(p) && k < 3 && Walk(s.ts, r, p[..k + 1]).Some?
    ensures WordOn(s.ts, r, p, k) % 4096 == 7
  {
    var q := p[..k];
    assert p[..k + 1] == q + [p[k]];
    WalkStep(s.ts, r, q, p[k]);
    WalkPos(s, r, q);
    var t := Walk(s.ts, r, q).value;
    assert TableOk(s, t) && LinkOk(s, t, p[k]);
  }

  /** A page is writable, or open to user mode, exactly if the bit is set in its last-level entry. */
  lemma RightsExact(s: Space, r: nat, p: seq<nat>, b: nat)
    requires Forest(s) && r in s.roots && IsPage(p) && Walk(s.ts, r, p).Some? && (b == 2 || b == 4)
    ensures Granted(s.ts, r, p, b) <==> WordOn(s.ts, r, p, 3) / b % 2 == 1
  {
    forall k | 0 <= k < 3 ensures WordOn(s.ts, r, p, k) / b % 2 == 1 {
      PrefixEnds(s.ts, r, p, k + 1);
      LinkWord(s, r, p, k);
      LowBits(WordOn(s.ts, r, p, k));
    }
  }

  lemma LowBits(e: nat)
    requires e % 4096 == 7
    ensures e / 2 % 2 == 1 && e / 4 % 2 == 1
  {
  }

  /** A walk that ends somewhere passes through tables. */
  lemma {:induction false} PrefixEnds(ts: Tables, r: nat, p: seq<nat>, k: nat)
    requires k <= |p| && Walk(ts, r, p).Some?
    ensures Walk(ts, r, p[..k]).Some?
    decreases |p|
  {
    if k < |p| {
      PrefixEnds(ts, r, Init(p), k);
      assert Init(p)[..k] == p[..k];
    } else {
      assert p[..k] == p;
    }
  }

  // ----- address spaces as plain maps -----

  /** Two roots translate `p` through the same last-level table. For a lower-half page that happens
      only for the same root. */
  ghost predicate SameSlot(s: Space, r: nat, r': nat, p: seq<nat>)
    requires IsPage(p)
  {
    Walk(s.ts, r, Init(p)).Some? && Walk(s.ts, r', Init(p)) == Walk(s.ts, r, Init(p))
  }

  lemma SlotOwner(s: Space, r: nat, p: seq<nat>, r': nat, p': seq<nat>)
    requires Forest(s) && r in s.roots && r' in s.roots && IsPage(p) && IsPage(p')
    requires Walk(s.ts, r, Init(p)).Some? && Walk(s.ts, r', Init(p')) == Walk(s.ts, r, Init(p))
    ensures Init(p') == Init(p)
    ensures r' == r || p[0] >= KERNEL_HALF
  {
    WalkPos(s, r, Init(p));
    WalkPos(s, r', Init(p'));
    assert Init(p)[0] == p[0] && Init(p')[0] == p'[0];
  }

  /** The pages of an address space and the frames they map to. */
  ghost function Mapping(s: Space, r: nat): imap<seq<nat>, nat> {
    imap p | IsPage(p) && Walk(s.ts, r, p).Some? :: Walk(s.ts, r, p).value
  }

  /** `s'` is `s` with the translation of one page set (or cleared) in the space of `r` and in those
      that share its last-level table, and no other translation touched. */
  ghost predicate Updates(s: Space, s': Space, r: nat, p: seq<nat>, to: Option<nat>)
    requires IsPage(p)
  {
    && s'.roots == s.roots && s'.kernel == s.kernel
    && forall r', p' :: r' in s.roots && IsPage(p') ==>
         Walk(s'.ts, r', p') == if p' == p && SameSlot(s', r, r', p) then to else Walk(s.ts, r', p')
  }

  lemma LeafUpdates(s: Space, r: nat, p: seq<nat>, t: nat, e: nat, s': Space)
    requires Forest(s) && r in s.roots && IsPage(p) && Walk(s.ts, r, Init(p)) == Some(t)
    requires t in s.ts && Last(p) < |s.ts[t]| && s' == s.(ts := SetEntry(s.ts, t, Last(p), e))
    ensures Forest(s') && Updates(s, s', r, p, if Present(e) then Some(FrameOf(e)) else None)
  {
    WalkPos(s, r, Init(p));
    LeafForest(s, t, Last(p), e, s');
    hide Forest;
    forall r', p' | r' in s.roots && IsPage(p')
      ensures Walk(s'.ts, r', p') == if p' == p && SameSlot(s', r, r', p) then (if Present(e) then Some(FrameOf(e)) else None)
                                     else Walk(s.ts, r', p')
    {
      LeafWalk(s, t, Last(p), e, s', r', p');
      LeafWalk(s, t, Last(p), e, s', r', Init(p'));
      LeafWalk(s, t, Last(p), e, s', r, Init(p));
      if Walk(s.ts, r', Init(p')) == Some(t) {
        SlotOwner(s, r, p, r', p');
        assert p == Init(p) + [Last(p)] && p' == Init(p') + [Last(p')];
      }
    }
  }

  /** In terms of plain maps: one key of the updated space changes, and every lower-half page of any
      other space is untouched. */
  lemma UpdatesMapping(s: Space, s': Space, r: nat, p: seq<nat>, to: Option<nat>)
    requires Forest(s') && IsPage(p) && r in s.roots && Updates(s, s', r, p, to)
    requires Walk(s'.ts, r, Init(p)).Some?
    ensures to.Some? ==> Mapping(s', r) == Mapping(s, r)[p := to.value]
    ensures to.None? ==> Mapping(s', r) == Mapping(s, r) - {p}
    ensures forall r' :: r' in s.roots && r' != r && p[0] < KERNEL_HALF ==> Mapping(s', r') == Mapping(s, r')
  {
    hide Forest, Walk;
    assert SameSlot(s', r, r, p);
    assert Walk(s'.ts, r, p) == to;
    forall r' | r' in s.roots && r' != r && p[0] < KERNEL_HALF ensures Mapping(s', r') == Mapping(s, r') {
      forall p' | IsPage(p') ensures Walk(s'.ts, r', p') == Walk(s.ts, r', p') {
        if SameSlot(s', r, r', p) { SlotOwner(s', r, p, r', p); }
      }
    }
  }
}
