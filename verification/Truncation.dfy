/** What `vsnprintf` does in a buffer of any length: the position it reaches, the arguments it takes, and
    for which formats it always returns. */
module Truncation {
  import opened Machine
  import opened Numerals
  import opened Format

  /** One conversion at position `pos` of a buffer of length `limit`. Everything advances by its whole text
      whether or not that is written, but a `c` without room leaves its argument untaken, and a `p`
      without room leaves out the "0x". */
  function StepSpec(s: Spec, args: seq<Arg>, pos: nat, limit: nat): (r: Option<(nat, seq<Arg>)>)
    ensures r.Some? ==> pos <= r.value.0
  {
    if s.conv == 'c' && pos + 1 >= limit then Some((pos + 1, args))
    else
      match RenderSpec(s, args)
      case None => None
      case Some((t, rest)) => Some((pos + |t| - (if s.conv == 'p' && pos + 2 >= limit then 2 else 0), rest))
  }

  /** A plain character counts only if there is room for it and a terminator. */
  function StepPlain(pos: nat, limit: nat): nat {
    if pos + 1 < limit then pos + 1 else pos
  }

  /** The position at the end; None if an argument is not there or no string. */
  function RunAll(ds: seq<Directive>, args: seq<Arg>, pos: nat, limit: nat): Option<nat>
    decreases |ds|
  {
    if ds == [] then Some(pos)
    else if ds[0].Plain? then RunAll(ds[1..], args, StepPlain(pos, limit), limit)
    else
      match StepSpec(ds[0].spec, args, pos, limit)
      case None => None
      case Some((p, rest)) => RunAll(ds[1..], rest, p, limit)
  }

  /** The rest of a format, from index `i` on. */
  function RunFrom(f: string, i: nat, args: seq<Arg>, pos: nat, limit: nat): Option<nat>
    requires i <= |f|
  {
    match Parse(f, i)
    case None => None
    case Some(ds) => RunAll(ds, args, pos, limit)
  }

  /** What `vsnprintf` returns; None where it leaves defined behaviour. */
  function Returned(f: string, args: seq<Arg>, limit: nat): Option<nat> {
    RunFrom(f, 0, args, 0, limit)
  }

  // ----- which arguments a format needs -----

  predicate IsChar(d: Directive) {
    d.Conv? && d.spec.conv == 'c'
  }

  predicate IsString(d: Directive) {
    d.Conv? && d.spec.conv == 's'
  }

  predicate Consumes(d: Directive) {
    d.Conv? && IsKnown(d.spec.conv) && d.spec.conv != '%'
  }

  /** One entry for every argument taken: whether it has to be a string. */
  function Needs(ds: seq<Directive>): seq<bool> {
    if ds == [] then [] else (if Consumes(ds[0]) then [IsString(ds[0])] else []) + Needs(ds[1..])
  }

  predicate Matches(needs: seq<bool>, args: seq<Arg>) {
    |needs| <= |args| && forall i :: 0 <= i < |needs| && needs[i] ==> args[i].Text?
  }

  lemma MatchesFirst(need: bool, needs: seq<bool>, args: seq<Arg>)
    ensures Matches([need] + needs, args) <==> args != [] && (need ==> args[0].Text?) && Matches(needs, args[1..])
  {
    var all := [need] + needs;
    if args != [] && (need ==> args[0].Text?) && Matches(needs, args[1..]) {
      forall i | 0 <= i < |all| && all[i] ensures args[i].Text? {
        if i > 0 { assert needs[i - 1] && args[i] == args[1..][i - 1]; }
      }
    }
    if Matches(all, args) {
      assert all[0] == need;
      forall i | 0 <= i < |needs| && needs[i] ensures args[1..][i].Text? {
        assert all[i + 1];
      }
    }
  }

  lemma StepNeeds(s: Spec, args: seq<Arg>)
    ensures RenderSpec(s, args).Some? <==>
      (Consumes(Conv(s)) ==> args != [] && (IsString(Conv(s)) ==> args[0].Text?))
    ensures RenderSpec(s, args).Some? ==>
      RenderSpec(s, args).value.1 == if Consumes(Conv(s)) then args[1..] else args
  {
  }

  lemma StepTakes(s: Spec, args: seq<Arg>, pos: nat, limit: nat)
    requires s.conv != 'c' || pos + 1 < limit
    ensures StepSpec(s, args, pos, limit).Some? <==> RenderSpec(s, args).Some?
    ensures StepSpec(s, args, pos, limit).Some? ==>
      StepSpec(s, args, pos, limit).value.1 == RenderSpec(s, args).value.1
  {
  }

  /** A rendering exists exactly if there is an argument for every need, and a string where one is needed. */
  lemma {:induction false} RenderExact(ds: seq<Directive>, args: seq<Arg>)
    ensures Render(ds, args).Some? <==> Matches(Needs(ds), args)
    decreases |ds|
  {
    if ds != [] {
      if ds[0].Conv? {
        StepNeeds(ds[0].spec, args);
        MatchesFirst(IsString(ds[0]), Needs(ds[1..]), args);
        if RenderSpec(ds[0].spec, args).Some? { RenderExact(ds[1..], RenderSpec(ds[0].spec, args).value.1); }
      } else {
        RenderExact(ds[1..], args);
      }
    }
  }

  lemma JoinStep(a: seq<Directive>, b: seq<Directive>, args: seq<Arg>)
    requires a != [] && a[0].Conv? && RenderSpec(a[0].spec, args).Some?
    ensures
      var left := RenderSpec(a[0].spec, args).value.1;
      && (|Needs(a[1..])| <= |left| <==> |Needs(a)| <= |args|)
      && (|Needs(a)| <= |args| ==> left[|Needs(a[1..])|..] == args[|Needs(a)|..])
  {
    StepNeeds(a[0].spec, args);
    hide RenderSpec, IsString;
  }

  /** Directives render one after the other, each with the arguments that those before it leave. */
  lemma {:induction false} RenderJoin(a: seq<Directive>, b: seq<Directive>, args: seq<Arg>)
    requires Render(a + b, args).Some?
    ensures Render(a, args).Some? && |Needs(a)| <= |args| && Render(b, args[|Needs(a)|..]).Some?
    ensures Render(a + b, args).value == Render(a, args).value + Render(b, args[|Needs(a)|..]).value
    decreases |a|
  {
    if a == [] {
      assert a + b == b && args[0..] == args;
    } else {
      var d, rest := a[0], a[1..];
      hide RenderSpec;
      assert (a + b)[0] == d && (a + b)[1..] == rest + b;
      if d.Plain? {
        RenderJoin(rest, b, args);
        assert Needs(a) == Needs(rest);
      } else {
        JoinStep(a, b, args);
        RenderJoin(rest, b, RenderSpec(d.spec, args).value.1);
      }
    }
  }

  /** Text without a percent sign renders to itself. */
  lemma {:induction false} PlainText(f: string, i: nat)
    requires i <= |f| && '%' !in f[i..]
    ensures Parse(f, i).Some? && Render(Parse(f, i).value, []) == Some(f[i..])
    decreases |f| - i
  {
    if i < |f| {
      assert f[i..] == [f[i]] + f[i + 1..];
      PlainText(f, i + 1);
      var ds := Parse(f, i + 1).value;
      assert ([Plain(f[i])] + ds)[0] == Plain(f[i]) && ([Plain(f[i])] + ds)[1..] == ds;
    } else {
      assert f[i..] == "";
    }
  }

  // ----- where the run ends -----

  function WithoutChars(ds: seq<Directive>): seq<Directive> {
    if ds == [] then [] else (if IsChar(ds[0]) then [] else [ds[0]]) + WithoutChars(ds[1..])
  }

  lemma WithoutFirst(ds: seq<Directive>)
    requires ds != []
    ensures WithoutChars(ds) == if IsChar(ds[0]) then WithoutChars(ds[1..]) else [ds[0]] + WithoutChars(ds[1..])
    ensures Needs(WithoutChars(ds)) ==
      (if Consumes(ds[0]) && !IsChar(ds[0]) then [IsString(ds[0])] else []) + Needs(WithoutChars(ds[1..]))
  {
    NeedsFirst(ds[0], WithoutChars(ds[1..]));
  }

  lemma NeedsFirst(d: Directive, ds: seq<Directive>)
    ensures Needs([d] + ds) == (if Consumes(d) then [IsString(d)] else []) + Needs(ds)
  {
    assert ([d] + ds)[1..] == ds;
  }

  /** Once the buffer is full, no `c` takes an argument any more. */
  lemma {:induction false} RunFull(ds: seq<Directive>, args: seq<Arg>, pos: nat, limit: nat)
    requires pos + 1 >= limit
    ensures RunAll(ds, args, pos, limit).Some? <==> Matches(Needs(WithoutChars(ds)), args)
    decreases |ds|
  {
    if ds != [] {
      var d, rest := ds[0], ds[1..];
      WithoutFirst(ds);
      if d.Plain? {
        RunFull(rest, args, pos, limit);
      } else {
        StepNeeds(d.spec, args);
        MatchesFirst(IsString(d), Needs(WithoutChars(rest)), args);
        var r := StepSpec(d.spec, args, pos, limit);
        if r.Some? { RunFull(rest, r.value.1, r.value.0, limit); }
      }
    }
  }

  /** The first directive that is a `c` without room, or the number of directives. */
  function FirstUntaken(ds: seq<Directive>, args: seq<Arg>, pos: nat, limit: nat): (j: nat)
    ensures j <= |ds|
    decreases |ds|
  {
    if ds == [] || (IsChar(ds[0]) && pos + 1 >= limit) then 0
    else if ds[0].Plain? then 1 + FirstUntaken(ds[1..], args, StepPlain(pos, limit), limit)
    else
      match StepSpec(ds[0].spec, args, pos, limit)
      case None => |ds|
      case Some((p, rest)) => 1 + FirstUntaken(ds[1..], rest, p, limit)
  }

  /** What the format amounts to as far as arguments go: from the first `c` without room on, every `c` is
      as good as absent. */
  function Effective(ds: seq<Directive>, args: seq<Arg>, pos: nat, limit: nat): seq<Directive> {
    var j := FirstUntaken(ds, args, pos, limit);
    ds[..j] + WithoutChars(ds[j..])
  }

  lemma TakeNext(ds: seq<Directive>, j: nat, next: nat)
    requires next == j + 1 <= |ds|
    ensures ds[..next] == [ds[0]] + ds[1..][..j] && ds[next..] == ds[1..][j..]
  {
  }

  lemma EffectiveNext(ds: seq<Directive>, args: seq<Arg>, pos: nat, limit: nat, args': seq<Arg>, pos': nat)
    requires ds != [] && FirstUntaken(ds, args, pos, limit) == 1 + FirstUntaken(ds[1..], args', pos', limit)
    ensures Effective(ds, args, pos, limit) == [ds[0]] + Effective(ds[1..], args', pos', limit)
  {
    var j := FirstUntaken(ds[1..], args', pos', limit);
    TakeNext(ds, j, j + 1);
  }

  /** In a buffer of any length, `vsnprintf` stays within defined behaviour exactly if the arguments match
      that format. */
  lemma {:induction false} RunExact(ds: seq<Directive>, args: seq<Arg>, pos: nat, limit: nat)
    ensures RunAll(ds, args, pos, limit).Some? <==> Matches(Needs(Effective(ds, args, pos, limit)), args)
    decreases |ds|
  {
    if ds == [] {
      assert Effective(ds, args, pos, limit) == [];
    } else if IsChar(ds[0]) && pos + 1 >= limit {
      assert Effective(ds, args, pos, limit) == WithoutChars(ds);
      RunFull(ds, args, pos, limit);
    } else {
      var d, rest := ds[0], ds[1..];
      if d.Plain? {
        EffectiveNext(ds, args, pos, limit, args, StepPlain(pos, limit));
        NeedsFirst(d, Effective(rest, args, StepPlain(pos, limit), limit));
        RunExact(rest, args, StepPlain(pos, limit), limit);
      } else {
        StepNeeds(d.spec, args);
        var r := StepSpec(d.spec, args, pos, limit);
        StepTakes(d.spec, args, pos, limit);
        hide RenderSpec, StepSpec, Matches;
        if r.Some? {
          EffectiveNext(ds, args, pos, limit, r.value.1, r.value.0);
          var tail := Effective(rest, r.value.1, r.value.0, limit);
          NeedsFirst(d, tail);
          MatchesFirst(IsString(d), Needs(tail), args);
          RunExact(rest, r.value.1, r.value.0, limit);
        } else {
          assert Effective(ds, args, pos, limit) == ds;
          MatchesFirst(IsString(d), Needs(rest), args);
        }
      }
    }
  }

  // ----- which formats always return -----

  predicate HasString(ds: seq<Directive>) {
    exists j :: 0 <= j < |ds| && IsString(ds[j])
  }

  /** A `%s` somewhere behind a `%c`. */
  predicate StringAfterChar(ds: seq<Directive>) {
    exists i, j :: 0 <= i < j < |ds| && IsChar(ds[i]) && IsString(ds[j])
  }

  /** Without strings, any arguments do as long as there are enough. */
  lemma {:induction false} NumbersReturn(ds: seq<Directive>, args: seq<Arg>, pos: nat, limit: nat)
    requires !HasString(ds) && |Needs(ds)| <= |args|
    ensures RunAll(ds, args, pos, limit).Some?
    decreases |ds|
  {
    if ds != [] {
      var d, rest := ds[0], ds[1..];
      assert !HasString(rest) by {
        forall j | 0 <= j < |rest| ensures !IsString(rest[j]) { assert rest[j] == ds[j + 1]; }
      }
      assert !IsString(d);
      if d.Plain? {
        NumbersReturn(rest, args, StepPlain(pos, limit), limit);
      } else {
        StepNeeds(d.spec, args);
        var r := StepSpec(d.spec, args, pos, limit);
        NumbersReturn(rest, r.value.1, r.value.0, limit);
      }
    }
  }

  /** Matching arguments do at every length if no string follows a `c`. */
  lemma {:induction false} MatchingReturns(ds: seq<Directive>, args: seq<Arg>, pos: nat, limit: nat)
    requires !StringAfterChar(ds) && Matches(Needs(ds), args)
    ensures RunAll(ds, args, pos, limit).Some?
    decreases |ds|
  {
    if ds != [] {
      var d, rest := ds[0], ds[1..];
      assert !StringAfterChar(rest) by {
        forall i, j | 0 <= i < j < |rest| && IsChar(rest[i]) ensures !IsString(rest[j]) {
          assert rest[i] == ds[i + 1] && rest[j] == ds[j + 1];
        }
      }
      MatchesFirst(IsString(d), Needs(rest), args);
      if d.Plain? {
        MatchingReturns(rest, args, StepPlain(pos, limit), limit);
      } else {
        StepNeeds(d.spec, args);
        var r := StepSpec(d.spec, args, pos, limit);
        if IsChar(d) {
          forall j | 0 <= j < |rest| ensures !IsString(rest[j]) { assert rest[j] == ds[j + 1]; }
          NumbersReturn(rest, r.value.1, r.value.0, limit);
        } else {
          MatchingReturns(rest, r.value.1, r.value.0, limit);
        }
      }
    }
  }

  /** Arguments that match, with numbers wherever they may stand. */
  function Witness(needs: seq<bool>): (args: seq<Arg>)
    ensures Matches(needs, args) && |args| == |needs|
    ensures forall i :: 0 <= i < |needs| ==> args[i] == if needs[i] then Text(0, "") else Number(0)
  {
    seq(|needs|, i requires 0 <= i < |needs| => if needs[i] then Text(0, "") else Number(0))
  }

  lemma WitnessFirst(need: bool, needs: seq<bool>)
    ensures Witness([need] + needs) == [if need then Text(0, "") else Number(0)] + Witness(needs)
  {
  }

  function Numbers(k: nat): seq<Arg> {
    seq(k, _ => Number(0))
  }

  /** A string needed behind an untaken argument finds a number. */
  lemma {:induction false} Shifted(ds: seq<Directive>, k: nat)
    requires HasString(ds) && k > 0
    ensures !Matches(Needs(WithoutChars(ds)), Numbers(k) + Witness(Needs(ds)))
    decreases |ds|
  {
    var d, rest := ds[0], ds[1..];
    hide Witness, Consumes;
    var args := Numbers(k) + Witness(Needs(ds));
    assert args[0] == Number(0);
    WithoutFirst(ds);
    MatchesFirst(IsString(d), Needs(WithoutChars(rest)), args);
    if !IsString(d) {
      assert HasString(rest) by {
        var j :| 0 <= j < |ds| && IsString(ds[j]);
        assert rest[j - 1] == ds[j];
      }
      if Consumes(d) {
        assert Needs(ds) == [false] + Needs(rest);
        WitnessFirst(false, Needs(rest));
        OneMore(k, Witness(Needs(rest)));
        Shifted(rest, if IsChar(d) then k + 1 else k);
      } else {
        assert Needs(ds) == Needs(rest) && Needs(WithoutChars(ds)) == Needs(WithoutChars(rest));
        Shifted(rest, k);
      }
    }
  }

  lemma OneMore(k: nat, tail: seq<Arg>)
    requires k > 0
    ensures
      var all := Numbers(k) + ([Number(0)] + tail);
      all == Numbers(k + 1) + tail && all[1..] == Numbers(k) + tail && all[0] == Number(0)
  {
  }

  lemma {:induction false} StringMisses(ds: seq<Directive>)
    requires StringAfterChar(ds)
    ensures !Matches(Needs(WithoutChars(ds)), Witness(Needs(ds)))
    decreases |ds|
  {
    var d, rest := ds[0], ds[1..];
    var i, j :| 0 <= i < j < |ds| && IsChar(ds[i]) && IsString(ds[j]);
    assert rest[j - 1] == ds[j];
    if IsChar(d) {
      MissesAtChar(ds);
    } else {
      assert rest[i - 1] == ds[i];
      StringMisses(rest);
      MissesLater(ds);
    }
  }

  lemma CharNeeds(ds: seq<Directive>)
    requires ds != [] && IsChar(ds[0])
    ensures Needs(ds) == [false] + Needs(ds[1..]) && Needs(WithoutChars(ds)) == Needs(WithoutChars(ds[1..]))
  {
    WithoutFirst(ds);
  }

  lemma MissesAtChar(ds: seq<Directive>)
    requires ds != [] && IsChar(ds[0]) && HasString(ds[1..])
    ensures !Matches(Needs(WithoutChars(ds)), Witness(Needs(ds)))
  {
    hide Needs, WithoutChars, Matches, HasString, IsChar;
    var rest := ds[1..];
    CharNeeds(ds);
    WitnessFirst(false, Needs(rest));
    Shifted(rest, 1);
    assert Numbers(1) == [Number(0)];
  }

  lemma MissesLater(ds: seq<Directive>)
    requires ds != [] && !IsChar(ds[0]) && !Matches(Needs(WithoutChars(ds[1..])), Witness(Needs(ds[1..])))
    ensures !Matches(Needs(WithoutChars(ds)), Witness(Needs(ds)))
  {
    var d, rest := ds[0], ds[1..];
    WithoutFirst(ds);
    WitnessFirst(IsString(d), Needs(rest));
    MatchesFirst(IsString(d), Needs(WithoutChars(rest)), Witness(Needs(ds)));
    if Consumes(d) {
      assert Witness(Needs(ds))[1..] == Witness(Needs(rest));
    } else {
      assert Needs(ds) == Needs(rest) && Needs(WithoutChars(ds)) == Needs(WithoutChars(rest));
    }
  }

  /** A format returns at every length and for all arguments that match it exactly if no `%s` follows a
      `%c`. */
  lemma AlwaysReturns(ds: seq<Directive>)
    ensures (forall args, limit: nat :: limit > 0 && Matches(Needs(ds), args) ==> RunAll(ds, args, 0, limit).Some?)
            <==> !StringAfterChar(ds)
  {
    if StringAfterChar(ds) {
      StringMisses(ds);
      RunFull(ds, Witness(Needs(ds)), 0, 1);
      assert Matches(Needs(ds), Witness(Needs(ds)));
    } else {
      forall args, limit: nat | limit > 0 && Matches(Needs(ds), args) ensures RunAll(ds, args, 0, limit).Some? {
        MatchingReturns(ds, args, 0, limit);
      }
    }
  }

  const CHAR_SPEC: Spec := Spec(false, false, 0, false, 'c')
  const STRING_SPEC: Spec := Spec(false, false, 0, false, 's')

  lemma CharStringParsed()
    ensures Parse("%c%s", 0) == Some([Conv(CHAR_SPEC), Conv(STRING_SPEC)])
  {
    var ds := [Conv(CHAR_SPEC), Conv(STRING_SPEC)];
    assert ds[1..] == [Conv(STRING_SPEC)] && ds[1..][1..] == [];
    assert Show([]) == "" && Show(ds[1..]) == "%s" && Show(ds) == "%c%s";
    hide Parse;
    ShowBack(ds);
  }

  lemma CharStringRun(args: seq<Arg>)
    requires args == [Number(65), Text(0, "x")]
    ensures
      var ds := [Conv(CHAR_SPEC), Conv(STRING_SPEC)];
      Render(ds, args) == Some("Ax") && RunAll(ds, args, 0, 1) == None
  {
    var ds := [Conv(CHAR_SPEC), Conv(STRING_SPEC)];
    assert ds[1..] == [Conv(STRING_SPEC)] && args[1..] == [Text(0, "x")];
    assert Render(ds[1..], args[1..]) == Some("x" + "");
    assert RenderSpec(CHAR_SPEC, args) == Some(("A", args[1..]));
    assert Render(ds, args) == Some("A" + ("x" + ""));
    assert "A" + ("x" + "") == "Ax";
    assert RunAll(ds[1..], args, 1, 1) == None;
  }

  /** In a buffer of one byte, "%c%s" takes its character for a string. */
  lemma CharTakenForString()
    ensures
      var args := [Number(65), Text(0, "x")];
      Rendered("%c%s", args) == Some("Ax") && Returned("%c%s", args, 1) == None
  {
    CharStringParsed();
    hide Parse, Render, RunAll;
    CharStringRun([Number(65), Text(0, "x")]);
  }

  // ----- the length returned -----

  /** The characters that a full buffer does not count. */
  function Uncounted(ds: seq<Directive>): nat {
    if ds == [] then 0
    else (if ds[0].Plain? then 1 else if ds[0].spec.conv == 'p' then 2 else 0) + Uncounted(ds[1..])
  }

  predicate NoChars(ds: seq<Directive>) {
    forall d :: d in ds ==> !IsChar(d)
  }

  /** Nothing but strings, numbers and percent signs: all of it is counted. */
  predicate AllCounted(ds: seq<Directive>) {
    forall d :: d in ds ==> d.Conv? && d.spec.conv != 'p'
  }

  lemma {:induction false} UncountedExact(ds: seq<Directive>)
    ensures Uncounted(ds) == 0 <==> AllCounted(ds)
    decreases |ds|
  {
    if ds != [] {
      UncountedExact(ds[1..]);
      assert ds == [ds[0]] + ds[1..];
    }
  }

  /** The position never runs past the reference rendering, and reaches its end if nothing is left out. */
  lemma {:induction false} RunLength(ds: seq<Directive>, args: seq<Arg>, pos: nat, limit: nat)
    requires NoChars(ds) && Render(ds, args).Some?
    ensures RunAll(ds, args, pos, limit).Some?
    ensures
      var v, n := RunAll(ds, args, pos, limit).value, |Render(ds, args).value|;
      v <= pos + n <= v + Uncounted(ds) && (pos + 1 >= limit ==> pos + n == v + Uncounted(ds))
    decreases |ds|
  {
    if ds != [] {
      var d, rest := ds[0], ds[1..];
      assert d in ds;
      if d.Plain? {
        RunLength(rest, args, StepPlain(pos, limit), limit);
      } else {
        var (t, args') := RenderSpec(d.spec, args).value;
        PointerText(d.spec, args);
        RunLength(rest, args', StepSpec(d.spec, args, pos, limit).value.0, limit);
      }
    }
  }

  lemma PointerText(s: Spec, args: seq<Arg>)
    requires RenderSpec(s, args).Some?
    ensures s.conv == 'p' ==> |RenderSpec(s, args).value.0| >= 2
  {
  }
}
