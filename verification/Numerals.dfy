/** Numbers as text: positional digits, the padded field around them, and reading both back. */
module Numerals {
  import opened Dyadic

  // ----- digits -----

  function DigitChar(d: nat, lower: bool): char
    requires d < 16
  {
    if lower then "0123456789abcdef"[d] else "0123456789ABCDEF"[d]
  }

  /** The value of a digit in either case; 16 for any other character. */
  function DigitValue(c: char): nat {
    if '0' <= c <= '9' then (c - '0') as nat
    else if 'a' <= c <= 'f' then (c - 'a') as nat + 10
    else if 'A' <= c <= 'F' then (c - 'A') as nat + 10
    else 16
  }

  lemma DigitBack(d: nat, lower: bool)
    requires d < 16
    ensures DigitValue(DigitChar(d, lower)) == d
  {
  }

  /** The bases of the source. */
  predicate IsBase(base: nat) {
    base == 2 || base == 8 || base == 10 || base == 16
  }

  function Lowest(n: nat, base: nat): (d: nat)
    requires IsBase(base)
    ensures d < base && (n < base ==> d == n)
  {
    if base == 2 then n % 2 else if base == 8 then n % 8 else if base == 10 then n % 10 else n % 16
  }

  /** All but the lowest digit. */
  function Higher(n: nat, base: nat): (q: nat)
    requires IsBase(base)
    ensures q * base + Lowest(n, base) == n
    ensures 2 * q <= n && (q == 0 <==> n < base)
  {
    if base == 2 then n / 2 else if base == 8 then n / 8 else if base == 10 then n / 10 else n / 16
  }

  /** The numeral of `n`, highest digit first; "0" for zero. */
  function Digits(n: nat, base: nat, lower: bool): string
    requires IsBase(base)
  {
    if n < base then [DigitChar(n, lower)] else Digits(Higher(n, base), base, lower) + [DigitChar(Lowest(n, base), lower)]
  }

  /** The number that a string of digits denotes. */
  function Value(t: string, base: nat): nat {
    if t == [] then 0 else Value(t[..|t| - 1], base) * base + DigitValue(t[|t| - 1])
  }

  predicate AllDigits(t: string, base: nat) {
    forall i :: 0 <= i < |t| ==> DigitValue(t[i]) < base
  }

  lemma AppendValue(t: string, c: char, base: nat)
    ensures Value(t + [c], base) == Value(t, base) * base + DigitValue(c)
  {
    assert (t + [c])[..|t|] == t;
  }

  /** Reading a numeral back gives the number; a numeral has no leading zero. */
  lemma {:induction false} DigitsBack(n: nat, base: nat, lower: bool)
    requires IsBase(base)
    ensures Value(Digits(n, base, lower), base) == n
    ensures AllDigits(Digits(n, base, lower), base)
    ensures |Digits(n, base, lower)| > 0 && (n > 0 ==> Digits(n, base, lower)[0] != '0')
  {
    if n < base {
      DigitBack(n, lower);
    } else {
      var q, d := Higher(n, base), Lowest(n, base);
      DigitsBack(q, base, lower);
      DigitBack(d, lower);
      AppendValue(Digits(q, base, lower), DigitChar(d, lower), base);
    }
  }

  /** `m` binary digits suffice in every base. */
  lemma {:induction false} DigitsFew(n: nat, base: nat, lower: bool, m: nat)
    requires IsBase(base) && n < Pow2(m) && m > 0
    ensures |Digits(n, base, lower)| <= m
  {
    if n >= base {
      assert Pow2(m) == 2 * Pow2(m - 1);
      if m == 1 { assert false; }
      var q := Higher(n, base);
      DigitsFew(q, base, lower, m - 1);
    }
  }

  // ----- lowest digit first -----

  /** The digits in the order in which division yields them; nothing for zero. */
  function LowFirst(n: nat, base: nat, lower: bool): string
    requires IsBase(base)
  {
    if n == 0 then [] else [DigitChar(Lowest(n, base), lower)] + LowFirst(Higher(n, base), base, lower)
  }

  /** `t` reads from its end like `s` from its beginning. */
  ghost predicate Mirrored(s: string, t: string) {
    |t| == |s| && forall i :: 0 <= i < |s| ==> t[i] == s[|s| - 1 - i]
  }

  /** Division yields the digits of the numeral in reverse. */
  lemma {:induction false} LowFirstMirrored(n: nat, base: nat, lower: bool)
    requires IsBase(base) && n > 0
    ensures Mirrored(LowFirst(n, base, lower), Digits(n, base, lower))
  {
    var q := Higher(n, base);
    var low := [DigitChar(Lowest(n, base), lower)];
    assert LowFirst(n, base, lower) == low + LowFirst(q, base, lower);
    if n >= base {
      LowFirstMirrored(q, base, lower);
      assert Digits(n, base, lower) == Digits(q, base, lower) + low;
    } else {
      assert LowFirst(q, base, lower) == [];
    }
  }

  // ----- the field -----

  function Repeat(c: char, n: nat): string {
    seq(n, _ => c)
  }

  /** A sign and digits padded to a width: blanks behind if `left`, else zeros between sign and digits
      if `zero`, else blanks in front. */
  function Field(negative: bool, digits: string, left: bool, zero: bool, width: nat): (t: string)
    ensures |t| == if width > |digits| + (if negative then 1 else 0) then width else |digits| + (if negative then 1 else 0)
  {
    var sign := if negative then "-" else "";
    var total := |sign| + |digits|;
    var pad := if width > total then width - total else 0;
    if left then sign + digits + Repeat(' ', pad)
    else if zero then sign + Repeat('0', pad) + digits
    else Repeat(' ', pad) + sign + digits
  }

  /** Where everything in a padded number stands: the padding is behind it, between sign and digits, or in
      front of it. */
  ghost predicate Padded(t: string, negative: bool, digits: string, left: bool, zero: bool, width: nat) {
    var sign := if negative then "-" else "";
    var n, d := |sign| + |digits|, |t| - |digits|;
    && |t| == (if width > n then width else n)
    && (left ==> t[..n] == sign + digits && forall i :: n <= i < |t| ==> t[i] == ' ')
    && (!left ==> t[d..] == digits)
    && (!left && zero ==> t[..|sign|] == sign && forall i :: |sign| <= i < d ==> t[i] == '0')
    && (!left && !zero ==> t[|t| - n..d] == sign && forall i :: 0 <= i < |t| - n ==> t[i] == ' ')
  }

  lemma FieldPlaces(negative: bool, digits: string, left: bool, zero: bool, width: nat)
    ensures Padded(Field(negative, digits, left, zero, width), negative, digits, left, zero, width)
  {
  }

  /** The digits above nine, in both cases. */
  lemma DigitCase(d: nat)
    requires d < 16
    ensures d < 10 ==> DigitChar(d, true) == DigitChar(d, false) == '0' + d as char
    ensures d >= 10 ==> DigitChar(d, true) == 'a' + (d - 10) as char && DigitChar(d, false) == 'A' + (d - 10) as char
  {
  }

  /** The text from its first character that is not a blank. */
  function SkipBlanks(t: string): string {
    if t != [] && t[0] == ' ' then SkipBlanks(t[1..]) else t
  }

  /** The digits at the head of a text. */
  function Run(t: string, base: nat): string {
    if t != [] && DigitValue(t[0]) < base then [t[0]] + Run(t[1..], base) else []
  }

  /** Reads a number as `strtol` would, in a given base: blanks, a sign, digits. */
  function ReadNumber(t: string, base: nat): int {
    var u := SkipBlanks(t);
    if u != [] && u[0] == '-' then 0 - Value(Run(u[1..], base), base) else Value(Run(u, base), base)
  }

  lemma {:induction false} RunOfDigits(t: string, n: nat, base: nat)
    requires base <= 16 && AllDigits(t, base)
    ensures Run(t + Repeat(' ', n), base) == t
  {
    var u := t + Repeat(' ', n);
    if t == [] {
      assert u == Repeat(' ', n);
    } else {
      assert u[0] == t[0] && u[1..] == t[1..] + Repeat(' ', n);
      RunOfDigits(t[1..], n, base);
    }
  }

  lemma {:induction false} BlanksSkipped(n: nat, t: string)
    requires t != [] && t[0] != ' '
    ensures SkipBlanks(Repeat(' ', n) + t) == t
  {
    var u := Repeat(' ', n) + t;
    if n == 0 {
      assert u == t;
    } else {
      assert u[0] == ' ' && u[1..] == Repeat(' ', n - 1) + t;
      BlanksSkipped(n - 1, t);
    }
  }

  lemma {:induction false} LeadingZeros(n: nat, t: string, base: nat)
    ensures Value(Repeat('0', n) + t, base) == Value(t, base)
    decreases n + |t|
  {
    var u := Repeat('0', n) + t;
    if t != [] {
      assert u[..|u| - 1] == Repeat('0', n) + t[..|t| - 1];
      LeadingZeros(n, t[..|t| - 1], base);
    } else if n > 0 {
      assert u[..|u| - 1] == Repeat('0', n - 1) + [];
      LeadingZeros(n - 1, [], base);
    }
  }

  lemma FieldShape(negative: bool, digits: string, left: bool, zero: bool, width: nat)
    returns (before: nat, zeros: nat, after: nat)
    ensures Field(negative, digits, left, zero, width) ==
      Repeat(' ', before) + ((if negative then "-" else "") + (Repeat('0', zeros) + digits + Repeat(' ', after)))
  {
    var sign := if negative then "-" else "";
    var total := |sign| + |digits|;
    var pad := if width > total then width - total else 0;
    before, zeros, after := 0, 0, 0;
    if left {
      after := pad;
    } else if zero {
      zeros := pad;
    } else {
      before := pad;
    }
    assert Field(negative, digits, left, zero, width) ==
      Repeat(' ', before) + (sign + (Repeat('0', zeros) + digits + Repeat(' ', after)));
  }

  /** A field reads back as the number in it, whatever the width and the flags. */
  lemma FieldBack(negative: bool, n: nat, base: nat, lower: bool, left: bool, zero: bool, width: nat)
    requires IsBase(base)
    ensures ReadNumber(Field(negative, Digits(n, base, lower), left, zero, width), base) == if negative then 0 - n else n
  {
    var digits := Digits(n, base, lower);
    DigitsBack(n, base, lower);
    var before, zeros, after := FieldShape(negative, digits, left, zero, width);
    LeadingZeros(zeros, digits, base);
    var number := Repeat('0', zeros) + digits;
    assert AllDigits(number, base);
    hide ReadNumber, Field, Digits, Value, DigitValue;
    ReadParts(negative, before, number, after, base);
  }

  lemma ReadParts(negative: bool, before: nat, number: string, after: nat, base: nat)
    requires IsBase(base) && AllDigits(number, base) && number != []
    ensures ReadNumber(Repeat(' ', before) + ((if negative then "-" else "") + (number + Repeat(' ', after))), base) ==
      if negative then 0 - Value(number, base) else Value(number, base)
  {
    hide Value;
    var sign := if negative then "-" else "";
    var rest := number + Repeat(' ', after);
    assert DigitValue(number[0]) < 16;
    RunOfDigits(number, after, base);
    BlanksSkipped(before, sign + rest);
    if negative {
      assert (sign + rest)[1..] == rest;
    } else {
      assert sign + rest == rest;
    }
  }
}
