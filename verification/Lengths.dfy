/** For which formats `vsnprintf` returns the length of the whole output, whatever the buffer. */
module Lengths {
  import opened Machine
  import opened Numerals
  import opened Format
  import opened Truncation

  // ----- the longest numeral of a conversion -----

  lemma {:induction false} DigitsMonotone(n: nat, m: nat, base: nat, lower: bool)
    requires IsBase(base) && n <= m
    ensures |Digits(n, base, lower)| <= |Digits(m, base, lower)|
    decreases m
  {
    if n >= base {
      HigherMonotone(n, m, base);
      DigitsMonotone(Higher(n, base), Higher(m, base), base, lower);
    }
  }

  lemma HigherMonotone(n: nat, m: nat, base: nat)
    requires IsBase(base) && n <= m
    ensures Higher(n, base) <= Higher(m, base)
  {
  }

  /** The argument with the longest numeral. */
  function WorstBits(s: Spec): nat {
    if s.conv != 'd' then WORD_LIMIT - 1 else if s.long then WORD_LIMIT / 2 else UINT_LIMIT / 2
  }

  function NumeralLength(s: Spec, bits: nat): nat {
    |Digits(Magnitude(s, bits), BaseOf(s.conv), s.conv == 'x')| + (if Negative(s, bits) then 1 else 0)
  }

  /** The length of the longest numeral that a conversion can print, without padding. */
  function Longest(s: Spec): nat {
    NumeralLength(s, WorstBits(s))
  }

  lemma WorstMagnitude(s: Spec, bits: nat)
    requires IsNumeric(s.conv)
    ensures Magnitude(s, bits) <= Magnitude(s, WorstBits(s))
    ensures Negative(s, bits) ==> Negative(s, WorstBits(s))
    ensures Magnitude(s, WorstBits(s)) >= 16
  {
    if s.conv != 'd' && s.conv != 'p' && !s.long {
      assert AsInt(WORD_LIMIT - 1) == -1;
    }
  }

  lemma NumeralBounds(s: Spec, bits: nat)
    requires IsNumeric(s.conv)
    ensures NumeralLength(s, bits) <= Longest(s)
    ensures NumeralLength(s, 0) == 1 < Longest(s)
  {
    WorstMagnitude(s, bits);
    DigitsMonotone(Magnitude(s, bits), Magnitude(s, WorstBits(s)), BaseOf(s.conv), s.conv == 'x');
    DigitsBack(Higher(Magnitude(s, WorstBits(s)), BaseOf(s.conv)), BaseOf(s.conv), s.conv == 'x');
    assert Magnitude(s, 0) == 0 && !Negative(s, 0);
  }

  /** The width leaves no numeral of the conversion any room to be longer. */
  predicate FixedWidth(s: Spec) {
    s.width >= Longest(s)
  }

  lemma FixedExact(s: Spec, bits: nat)
    requires IsNumeric(s.conv)
    ensures FixedWidth(s) ==> |NumberText(s, bits)| == s.width
    ensures !FixedWidth(s) ==> |NumberText(s, WorstBits(s))| > |NumberText(s, 0)|
  {
    NumeralBounds(s, bits);
    NumeralBounds(s, WorstBits(s));
  }

  // ----- conversions of variable length -----

  predicate IsVariable(d: Directive) {
    IsString(d) || (d.Conv? && IsNumeric(d.spec.conv) && !FixedWidth(d.spec))
  }

  predicate HasVariable(ds: seq<Directive>) {
    exists j :: 0 <= j < |ds| && IsVariable(ds[j])
  }

  /** A string or a number of variable length somewhere behind a `%c`. */
  predicate VariableAfterChar(ds: seq<Directive>) {
    exists i, j :: 0 <= i < j < |ds| && IsChar(ds[i]) && IsVariable(ds[j])
  }

  lemma VariableRest(ds: seq<Directive>)
    requires ds != []
    ensures HasVariable(ds) <==> IsVariable(ds[0]) || HasVariable(ds[1..])
    ensures HasString(ds) <==> IsString(ds[0]) || HasString(ds[1..])
    ensures VariableAfterChar(ds) <==> (IsChar(ds[0]) && HasVariable(ds[1..])) || VariableAfterChar(ds[1..])
    ensures StringAfterChar(ds) <==> (IsChar(ds[0]) && HasString(ds[1..])) || StringAfterChar(ds[1..])
  {
    var rest := ds[1..];
    forall j | 0 <= j < |rest| ensures rest[j] == ds[j + 1] {
    }
    forall j | 0 < j < |ds| ensures ds[j] == rest[j - 1] {
    }
  }

  lemma CountedRest(ds: seq<Directive>)
    requires ds != [] && AllCounted(ds)
    ensures ds[0].Conv? && ds[0].spec.conv != 'p' && AllCounted(ds[1..])
  {
    assert ds[0] in ds;
  }

  // ----- formats that return the full length -----

  /** Without conversions of variable length the arguments do not matter. */
  lemma {:induction false} FixedLength(ds: seq<Directive>, a: seq<Arg>, b: seq<Arg>, pos: nat, limit: nat)
    requires AllCounted(ds) && !HasVariable(ds) && |Needs(ds)| <= |a| && |Needs(ds)| <= |b|
    ensures Render(ds, a).Some? && RunAll(ds, b, pos, limit) == Some(pos + |Render(ds, a).value|)
    decreases |ds|
  {
    if ds != [] {
      CountedRest(ds);
      VariableRest(ds);
      var s, rest := ds[0].spec, ds[1..];
      FixedStep(s, a, b, pos, limit);
      FixedLength(rest, RenderSpec(s, a).value.1, StepSpec(s, b, pos, limit).value.1, StepSpec(s, b, pos, limit).value.0,
                  limit);
    }
  }

  lemma FixedStep(s: Spec, a: seq<Arg>, b: seq<Arg>, pos: nat, limit: nat)
    requires s.conv != 'p' && !IsVariable(Conv(s)) && (Consumes(Conv(s)) ==> a != [] && b != [])
    ensures RenderSpec(s, a).Some? && StepSpec(s, b, pos, limit).Some?
    ensures StepSpec(s, b, pos, limit).value.0 == pos + |RenderSpec(s, a).value.0|
    ensures |RenderSpec(s, a).value.1| == |a| - (if Consumes(Conv(s)) then 1 else 0)
    ensures |StepSpec(s, b, pos, limit).value.1| >= |b| - (if Consumes(Conv(s)) then 1 else 0)
  {
    if IsNumeric(s.conv) {
      FixedExact(s, Bits(a[0]));
      FixedExact(s, Bits(b[0]));
    }
  }

  lemma FullStep(s: Spec, args: seq<Arg>, pos: nat, limit: nat)
    requires s.conv != 'p' && RenderSpec(s, args).Some?
    ensures StepSpec(s, args, pos, limit).Some?
    ensures StepSpec(s, args, pos, limit).value.0 == pos + |RenderSpec(s, args).value.0|
    ensures |StepSpec(s, args, pos, limit).value.1| >= |RenderSpec(s, args).value.1|
    ensures s.conv != 'c' ==> StepSpec(s, args, pos, limit).value.1 == RenderSpec(s, args).value.1
  {
  }

  /** Everything counted, and nothing variable behind a `c`: the full length, at every buffer length. */
  lemma {:induction false} FullLength(ds: seq<Directive>, args: seq<Arg>, pos: nat, limit: nat)
    requires AllCounted(ds) && !VariableAfterChar(ds) && Render(ds, args).Some?
    ensures RunAll(ds, args, pos, limit) == Some(pos + |Render(ds, args).value|)
    decreases |ds|
  {
    if ds != [] {
      CountedRest(ds);
      VariableRest(ds);
      var s, rest := ds[0].spec, ds[1..];
      var (t, args') := RenderSpec(s, args).value;
      var (p, left) := StepSpec(s, args, pos, limit).value;
      FullStep(s, args, pos, limit);
      Unfold(ds, args, args, pos, limit);
      hide Render, RunAll, RenderSpec, StepSpec, HasVariable, VariableAfterChar, HasString, StringAfterChar;
      if IsChar(ds[0]) {
        RenderExact(rest, args');
        FixedLength(rest, args', left, p, limit);
      } else {
        FullLength(rest, args', p, limit);
      }
    }
  }

  // ----- the others -----

  /** Arguments with nothing in them. */
  predicate AllZero(args: seq<Arg>) {
    forall i :: 0 <= i < |args| ==> Bits(args[i]) == 0 && (args[i].Text? ==> args[i].chars == "")
  }

  /** With such arguments it makes no difference which of them are taken. */
  lemma {:induction false} ZeroLength(ds: seq<Directive>, a: seq<Arg>, b: seq<Arg>, pos: nat, limit: nat)
    requires AllZero(a) && AllZero(b) && pos + 1 >= limit
    requires Render(ds, a).Some? && RunAll(ds, b, pos, limit).Some?
    ensures pos + |Render(ds, a).value| == RunAll(ds, b, pos, limit).value + Uncounted(ds)
    decreases |ds|
  {
    if ds != [] {
      var d, rest := ds[0], ds[1..];
      if d.Plain? {
        ZeroLength(rest, a, b, pos, limit);
      } else {
        var (t, a') := RenderSpec(d.spec, a).value;
        var (p, b') := StepSpec(d.spec, b, pos, limit).value;
        PointerText(d.spec, a);
        ZeroStep(d.spec, a, b, pos, limit);
        ZeroLength(rest, a', b', p, limit);
      }
    }
  }

  lemma ZeroStep(s: Spec, a: seq<Arg>, b: seq<Arg>, pos: nat, limit: nat)
    requires AllZero(a) && AllZero(b) && pos + 1 >= limit
    requires RenderSpec(s, a).Some? && StepSpec(s, b, pos, limit).Some?
    ensures StepSpec(s, b, pos, limit).value.0 == pos + |RenderSpec(s, a).value.0| - (if s.conv == 'p' then 2 else 0)
    ensures AllZero(RenderSpec(s, a).value.1) && AllZero(StepSpec(s, b, pos, limit).value.1)
  {
  }

  /** Matching arguments of which only that of the last conversion of variable length is long. */
  function LongArgs(ds: seq<Directive>): seq<Arg> {
    if ds == [] then []
    else if IsVariable(ds[0]) && !IsString(ds[0]) && !HasVariable(ds[1..]) then
      [Number(WorstBits(ds[0].spec))] + Witness(Needs(ds[1..]))
    else
      (if !Consumes(ds[0]) then [] else if IsString(ds[0]) then [Text(0, "")] else [Number(0)]) + LongArgs(ds[1..])
  }

  lemma {:induction false} LongMatches(ds: seq<Directive>)
    ensures Render(ds, LongArgs(ds)).Some?
    decreases |ds|
  {
    if ds != [] {
      LongMatches(ds[1..]);
      RenderExact(ds[1..], Witness(Needs(ds[1..])));
      if ds[0].Conv? {
        StepNeeds(ds[0].spec, LongArgs(ds));
        LongRest(ds);
      } else {
        assert LongArgs(ds) == LongArgs(ds[1..]);
      }
    }
  }

  /** What is left of the arguments after the first conversion. */
  lemma LongRest(ds: seq<Directive>)
    requires ds != []
    ensures !Consumes(ds[0]) ==> LongArgs(ds) == LongArgs(ds[1..])
    ensures
      var last := IsVariable(ds[0]) && !IsString(ds[0]) && !HasVariable(ds[1..]);
      && (Consumes(ds[0]) ==> LongArgs(ds) != [])
      && (Consumes(ds[0]) && !last ==> LongArgs(ds)[1..] == LongArgs(ds[1..]))
      && (Consumes(ds[0]) && !last && !IsString(ds[0]) ==> LongArgs(ds)[0] == Number(0))
      && (last ==> LongArgs(ds) == [Number(WorstBits(ds[0].spec))] + Witness(Needs(ds[1..])))
  {
  }

  lemma LongArgsStep(ds: seq<Directive>)
    requires ds != [] && Consumes(ds[0]) && !IsString(ds[0]) && (HasVariable(ds[1..]) || !IsVariable(ds[0]))
    ensures LongArgs(ds) == [Number(0)] + LongArgs(ds[1..])
  {
  }

  /** The first conversion of a rendering and of a run. */
  lemma Unfold(ds: seq<Directive>, a: seq<Arg>, b: seq<Arg>, pos: nat, limit: nat)
    requires ds != [] && ds[0].Conv? && Render(ds, a).Some? && StepSpec(ds[0].spec, b, pos, limit).Some?
    ensures RenderSpec(ds[0].spec, a).Some?
    ensures
      var (t, a') := RenderSpec(ds[0].spec, a).value;
      var (p, b') := StepSpec(ds[0].spec, b, pos, limit).value;
      && Render(ds[1..], a').Some? && |Render(ds, a).value| == |t| + |Render(ds[1..], a').value|
      && RunAll(ds, b, pos, limit) == RunAll(ds[1..], b', p, limit)
  {
  }

  /** A conversion with the same argument in a rendering and in a full buffer. */
  lemma SameStep(s: Spec, a: seq<Arg>, b: seq<Arg>, pos: nat, limit: nat)
    requires s.conv != 'p' && s.conv != 'c' && (Consumes(Conv(s)) ==> a != [] && b != [] && a[0] == b[0])
    requires RenderSpec(s, a).Some?
    ensures
      var (t, a') := RenderSpec(s, a).value;
      && a' == (if Consumes(Conv(s)) then a[1..] else a)
      && StepSpec(s, b, pos, limit) == Some((pos + |t|, if Consumes(Conv(s)) then b[1..] else b))
  {
  }

  lemma CharStep(s: Spec, a: seq<Arg>, b: seq<Arg>, pos: nat, limit: nat)
    requires s.conv == 'c' && pos + 1 >= limit && a != []
    ensures RenderSpec(s, a).Some? && |RenderSpec(s, a).value.0| == 1 && RenderSpec(s, a).value.1 == a[1..]
    ensures StepSpec(s, b, pos, limit) == Some((pos + 1, b))
  {
  }

  lemma NumberStep(s: Spec, a: seq<Arg>, b: seq<Arg>, pos: nat, limit: nat)
    requires IsNumeric(s.conv) && s.conv != 'p' && !FixedWidth(s) && a != [] && b != []
    requires a[0] == Number(WorstBits(s)) && b[0] == Number(0)
    ensures RenderSpec(s, a).Some? && RenderSpec(s, a).value.1 == a[1..]
    ensures StepSpec(s, b, pos, limit).Some? && StepSpec(s, b, pos, limit).value.1 == b[1..]
    ensures StepSpec(s, b, pos, limit).value.0 < pos + |RenderSpec(s, a).value.0|
  {
    FixedExact(s, 0);
    assert Bits(a[0]) == WorstBits(s) && Bits(b[0]) == 0;
  }

  /** In a full buffer, the run with arguments `b` comes short of the rendering with arguments `a`. */
  ghost predicate Short(ds: seq<Directive>, a: seq<Arg>, b: seq<Arg>, pos: nat, limit: nat) {
    && Render(ds, a).Some? && RunAll(ds, b, pos, limit).Some?
    && RunAll(ds, b, pos, limit).value < pos + |Render(ds, a).value|
  }

  lemma LastTooLate(ds: seq<Directive>, k: nat, pos: nat, limit: nat)
    requires ds != [] && AllCounted(ds) && !HasString(ds) && HasVariable(ds) && !HasVariable(ds[1..]) && k > 0
    ensures Short(ds, LongArgs(ds), Numbers(k) + LongArgs(ds), pos, limit)
  {
    var a, b := LongArgs(ds), Numbers(k) + LongArgs(ds);
    CountedRest(ds);
    VariableRest(ds);
    LongMatches(ds);
    LongRest(ds);
    hide Render, RunAll, RenderSpec, StepSpec, LongArgs, Witness, FixedWidth, HasVariable, HasString;
    assert b[0] == Number(0);
    var s := ds[0].spec;
    NumberStep(s, a, b, pos, limit);
    Unfold(ds, a, b, pos, limit);
    RenderExact(ds[1..], a[1..]);
    FixedLength(ds[1..], a[1..], b[1..], StepSpec(s, b, pos, limit).value.0, limit);
  }

  /** A `c` that keeps its argument passes the shortfall on. */
  lemma ShortChar(ds: seq<Directive>, a: seq<Arg>, b: seq<Arg>, pos: nat, limit: nat)
    requires ds != [] && IsChar(ds[0]) && a != [] && pos + 1 >= limit && Short(ds[1..], a[1..], b, pos + 1, limit)
    requires Render(ds, a).Some?
    ensures Short(ds, a, b, pos, limit)
  {
    CharStep(ds[0].spec, a, b, pos, limit);
    hide RenderSpec, StepSpec;
    Unfold(ds, a, b, pos, limit);
  }

  /** So does a conversion that takes the same argument. */
  lemma ShortSame(ds: seq<Directive>, a: seq<Arg>, b: seq<Arg>, pos: nat, limit: nat, a': seq<Arg>, b': seq<Arg>, p: nat)
    requires ds != [] && ds[0].Conv? && ds[0].spec.conv != 'p' && !IsChar(ds[0]) && Render(ds, a).Some?
    requires RenderSpec(ds[0].spec, a).Some? && p == pos + |RenderSpec(ds[0].spec, a).value.0|
    requires if Consumes(ds[0]) then a != [] && b != [] && a[0] == b[0] && a' == a[1..] && b' == b[1..] else a' == a && b' == b
    requires Short(ds[1..], a', b', p, limit)
    ensures Short(ds, a, b, pos, limit)
  {
    SameStep(ds[0].spec, a, b, pos, limit);
    hide RenderSpec, StepSpec;
    Unfold(ds, a, b, pos, limit);
  }

  /** Behind an untaken argument the long one comes too late for its conversion. */
  lemma {:induction false} TooLate(ds: seq<Directive>, k: nat, pos: nat, limit: nat)
    requires AllCounted(ds) && !HasString(ds) && HasVariable(ds) && k > 0 && pos + 1 >= limit
    ensures Short(ds, LongArgs(ds), Numbers(k) + LongArgs(ds), pos, limit)
    decreases |ds|
  {
    CountedRest(ds);
    VariableRest(ds);
    if HasVariable(ds[1..]) {
      LongMatches(ds);
      LongRest(ds);
      hide Short, Render, RunAll, RenderSpec, StepSpec, LongArgs, HasVariable, HasString, AllCounted;
      var d, rest := ds[0], ds[1..];
      var a, b := LongArgs(ds), Numbers(k) + LongArgs(ds);
      if Consumes(d) { LongArgsStep(ds); }
      OneMore(k, LongArgs(rest));
      if IsChar(d) {
        TooLate(rest, k + 1, pos + 1, limit);
        ShortChar(ds, a, b, pos, limit);
      } else {
        RenderFirst(ds, a);
        var p := pos + |RenderSpec(d.spec, a).value.0|;
        TooLate(rest, k, p, limit);
        ShortSame(ds, a, b, pos, limit, LongArgs(rest), Numbers(k) + LongArgs(rest), p);
      }
    } else {
      LastTooLate(ds, k, pos, limit);
    }
  }

  lemma RenderFirst(ds: seq<Directive>, a: seq<Arg>)
    requires ds != [] && ds[0].Conv? && Render(ds, a).Some?
    ensures RenderSpec(ds[0].spec, a).Some?
  {
  }

  lemma ShortAtChar(ds: seq<Directive>, pos: nat, limit: nat)
    requires ds != [] && IsChar(ds[0]) && AllCounted(ds) && !HasString(ds[1..]) && HasVariable(ds[1..]) && pos + 1 >= limit
    ensures Short(ds, LongArgs(ds), LongArgs(ds), pos, limit)
  {
    CountedRest(ds);
    LongMatches(ds);
    LongArgsStep(ds);
    hide Short, Render, RunAll, LongArgs, HasVariable, HasString, AllCounted;
    var a, rest := LongArgs(ds), ds[1..];
    assert a == Numbers(1) + LongArgs(rest) && a[1..] == LongArgs(rest);
    TooLate(rest, 1, pos + 1, limit);
    ShortChar(ds, a, a, pos, limit);
  }

  lemma {:induction false} ShortAfterChar(ds: seq<Directive>, pos: nat, limit: nat)
    requires AllCounted(ds) && !StringAfterChar(ds) && VariableAfterChar(ds) && pos + 1 >= limit
    ensures Short(ds, LongArgs(ds), LongArgs(ds), pos, limit)
    decreases |ds|
  {
    CountedRest(ds);
    VariableRest(ds);
    var d, rest := ds[0], ds[1..];
    if VariableAfterChar(rest) { AfterIsVariable(rest); }
    if IsChar(d) {
      ShortAtChar(ds, pos, limit);
    } else {
      LongMatches(ds);
      LongRest(ds);
      hide Short, Render, RunAll, RenderSpec, StepSpec, LongArgs, HasVariable, VariableAfterChar, StringAfterChar, AllCounted;
      var a := LongArgs(ds);
      RenderFirst(ds, a);
      var p := pos + |RenderSpec(d.spec, a).value.0|;
      ShortAfterChar(rest, p, limit);
      ShortSame(ds, a, a, pos, limit, LongArgs(rest), LongArgs(rest), p);
    }
  }

  lemma AfterIsVariable(ds: seq<Directive>)
    requires VariableAfterChar(ds)
    ensures HasVariable(ds)
  {
  }

  /** A format returns the length of its whole output at every buffer length and for all matching arguments
      exactly if it has no plain character and no `%p`, and behind a `%c` no string and no number whose
      width is below that of its longest numeral. */
  lemma LengthExact(ds: seq<Directive>)
    ensures (forall args, limit: nat :: limit > 0 && Render(ds, args).Some? ==>
              RunAll(ds, args, 0, limit) == Some(|Render(ds, args).value|))
            <==> AllCounted(ds) && !VariableAfterChar(ds)
  {
    if AllCounted(ds) && !VariableAfterChar(ds) {
      forall args, limit: nat | limit > 0 && Render(ds, args).Some?
        ensures RunAll(ds, args, 0, limit) == Some(|Render(ds, args).value|)
      {
        FullLength(ds, args, 0, limit);
      }
    } else if StringAfterChar(ds) {
      StringMisses(ds);
      RunFull(ds, Witness(Needs(ds)), 0, 1);
      RenderExact(ds, Witness(Needs(ds)));
    } else if AllCounted(ds) {
      ShortAfterChar(ds, 0, 1);
      assert RunAll(ds, LongArgs(ds), 0, 1) != Some(|Render(ds, LongArgs(ds)).value|);
    } else {
      var w := Witness(Needs(ds));
      RenderExact(ds, w);
      UncountedExact(ds);
      if RunAll(ds, w, 0, 1).Some? { ZeroLength(ds, w, w, 0, 1); }
      assert RunAll(ds, w, 0, 1) != Some(|Render(ds, w).value|);
    }
  }
}
