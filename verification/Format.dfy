/** The format language of rtl/snprintf.c: how a format string is read, and what it renders to. */
module Format {
  import opened Machine
  import opened Numerals

  /** One conversion. The length modifiers `l` and `ll` are the same to the source, and `h` and `hh` are
      read and ignored. */
  datatype Spec = Spec(zero: bool, left: bool, width: nat, long: bool, conv: char)

  datatype Directive = Plain(c: char) | Conv(spec: Spec)

  /** One 64-bit argument slot; the address of a string comes with the characters there. */
  datatype Arg = Number(bits: nat) | Text(address: nat, chars: string)

  const UINT_LIMIT: nat := 0x1_0000_0000
  const WORD_LIMIT: nat := 0x1_0000_0000_0000_0000

  // ----- reading a format -----

  predicate IsFlag(c: char) {
    c == '0' || c == '-'
  }

  predicate IsDigit(c: char) {
    '0' <= c <= '9'
  }

  function FlagsEnd(f: string, i: nat): (j: nat)
    requires i <= |f|
    ensures i <= j <= |f|
    ensures forall k :: i <= k < j ==> IsFlag(f[k])
    ensures j < |f| ==> !IsFlag(f[j])
    decreases |f| - i
  {
    if i < |f| && IsFlag(f[i]) then FlagsEnd(f, i + 1) else i
  }

  function DigitsEnd(f: string, i: nat): (j: nat)
    requires i <= |f|
    ensures i <= j <= |f|
    ensures forall k :: i <= k < j ==> IsDigit(f[k])
    ensures j < |f| ==> !IsDigit(f[j])
    decreases |f| - i
  {
    if i < |f| && IsDigit(f[i]) then DigitsEnd(f, i + 1) else i
  }

  function LengthEnd(f: string, i: nat): (j: nat)
    requires i <= |f|
    ensures i <= j <= |f|
  {
    if i < |f| && (f[i] == 'l' || f[i] == 'h') then
      if i + 1 < |f| && f[i + 1] == f[i] then i + 2 else i + 1
    else i
  }

  /** The conversion whose '%' is at `i`, and the index behind it; None if the format ends in it. */
  function ParseSpec(f: string, i: nat): (r: Option<(Spec, nat)>)
    requires i < |f|
    ensures r.Some? ==> i < r.value.1 <= |f|
  {
    var j := FlagsEnd(f, i + 1);
    var k := DigitsEnd(f, j);
    var m := LengthEnd(f, k);
    if m == |f| then None
    else Some((Spec('0' in f[i + 1..j], '-' in f[i + 1..j], Value(f[j..k], 10) % UINT_LIMIT, f[k] == 'l', f[m]), m + 1))
  }

  function Parse(f: string, i: nat): Option<seq<Directive>>
    requires i <= |f|
    decreases |f| - i
  {
    if i == |f| then Some([])
    else if f[i] == '%' then
      match ParseSpec(f, i)
      case None => None
      case Some((s, next)) =>
        match Parse(f, next)
        case None => None
        case Some(ds) => Some([Conv(s)] + ds)
    else
      match Parse(f, i + 1)
      case None => None
      case Some(ds) => Some([Plain(f[i])] + ds)
  }

  // ----- writing a format -----

  function FlagText(s: Spec): string {
    (if s.zero then "0" else "") + (if s.left then "-" else "")
  }

  function WidthText(s: Spec): string {
    if s.width > 0 then Digits(s.width, 10, false) else ""
  }

  function LengthText(s: Spec): string {
    if s.long then "l" else ""
  }

  /** The format text of a conversion. */
  function ShowSpec(s: Spec): string {
    "%" + FlagText(s) + WidthText(s) + LengthText(s) + [s.conv]
  }

  function ShowOne(d: Directive): string {
    if d.Plain? then [d.c] else ShowSpec(d.spec)
  }

  function Show(ds: seq<Directive>): string {
    if ds == [] then ""
    else ShowOne(ds[0]) + Show(ds[1..])
  }

  /** A conversion that format text can express: its letter is not taken for a flag, a digit or a length. */
  predicate Expressible(d: Directive) {
    match d
    case Plain(c) => c != '%'
    case Conv(s) => s.width < UINT_LIMIT && !IsFlag(s.conv) && !IsDigit(s.conv) && s.conv != 'l' && s.conv != 'h'
  }

  lemma AllDecimal(t: string)
    requires AllDigits(t, 10)
    ensures forall i :: 0 <= i < |t| ==> IsDigit(t[i])
  {
    forall i | 0 <= i < |t| ensures IsDigit(t[i]) {
      assert DigitValue(t[i]) < 10;
    }
  }

  /** The flags end where a non-flag is. */
  lemma FlagsEndAt(f: string, i: nat, j: nat)
    requires i <= j < |f| && (forall k :: i <= k < j ==> IsFlag(f[k])) && !IsFlag(f[j])
    ensures FlagsEnd(f, i) == j
  {
  }

  lemma DigitsEndAt(f: string, i: nat, j: nat)
    requires i <= j < |f| && (forall k :: i <= k < j ==> IsDigit(f[k])) && !IsDigit(f[j])
    ensures DigitsEnd(f, i) == j
  {
  }

  /** Text `t` stands in `f` from `i` to `j`. */
  predicate Here(f: string, i: nat, t: string, j: nat) {
    i + |t| == j <= |f| && f[i..j] == t
  }

  lemma HereSplit(f: string, i: nat, a: string, b: string, j: nat, mid: nat)
    requires Here(f, i, a + b, j) && mid == i + |a|
    ensures Here(f, i, a, mid) && Here(f, mid, b, j)
  {
    var t := f[i..j];
    assert t[..|a|] == a && t[|a|..] == b;
  }

  lemma FlagsHere(f: string, i: nat, flags: string, j: nat)
    requires Here(f, i, flags, j) && j < |f| && !IsFlag(f[j])
    requires forall k :: 0 <= k < |flags| ==> IsFlag(flags[k])
    ensures FlagsEnd(f, i) == j
  {
    forall x | i <= x < j ensures IsFlag(f[x]) {
      assert f[x] == flags[x - i];
    }
    FlagsEndAt(f, i, j);
  }

  lemma DigitsHere(f: string, i: nat, digits: string, j: nat)
    requires Here(f, i, digits, j) && j < |f| && !IsDigit(f[j])
    requires forall k :: 0 <= k < |digits| ==> IsDigit(digits[k])
    ensures DigitsEnd(f, i) == j
  {
    forall x | i <= x < j ensures IsDigit(f[x]) {
      assert f[x] == digits[x - i];
    }
    DigitsEndAt(f, i, j);
  }

  /** The pieces of a conversion: flags in any number and order, a width that does not begin with a flag, one
      of the five lengths, and a letter that cannot be taken for more of them. */
  ghost predicate SpecForm(flags: string, width: string, length: string, letter: char) {
    && (forall k :: 0 <= k < |flags| ==> flags[k] == '0' || flags[k] == '-')
    && (forall k :: 0 <= k < |width| ==> '0' <= width[k] <= '9')
    && (width != "" ==> width[0] != '0')
    && (length == "" || length == "l" || length == "ll" || length == "h" || length == "hh")
    && (length == "" ==> letter != 'l' && letter != 'h' && !('0' <= letter <= '9') && (width == "" ==> letter != '-'))
    && (length == "l" ==> letter != 'l') && (length == "h" ==> letter != 'h')
  }

  lemma LengthHere(f: string, flags: string, width: string, k: nat, length: string, m: nat)
    requires Here(f, k, length, m) && m < |f| && SpecForm(flags, width, length, f[m])
    ensures LengthEnd(f, k) == m && (f[k] == 'l' <==> length == "l" || length == "ll")
    ensures !IsDigit(f[k]) && (width == "" ==> !IsFlag(f[k]))
  {
    assert length != "" ==> f[k] == f[k..m][0];
    assert |length| == 2 ==> f[k + 1] == f[k..m][1];
  }

  lemma ParseParts(f: string, i: nat, flags: string, j: nat, width: string, k: nat, length: string, m: nat)
    requires i < |f| && Here(f, i + 1, flags, j) && Here(f, j, width, k) && Here(f, k, length, m) && m < |f|
    requires SpecForm(flags, width, length, f[m])
    ensures ParseSpec(f, i) ==
      Some((Spec('0' in flags, '-' in flags, Value(width, 10) % 0x1_0000_0000, length == "l" || length == "ll", f[m]), m + 1))
  {
    var one := i + 1;
    LengthHere(f, flags, width, k, length, m);
    assert width != [] ==> f[j] == width[0];
    FlagsHere(f, one, flags, j);
    DigitsHere(f, j, width, k);
    hide FlagsEnd, DigitsEnd, LengthEnd, Value, Here, SpecForm;
  }

  /** A text of that form is read as what it says, up to and with its letter. */
  lemma ParseForm(f: string, i: nat, flags: string, width: string, length: string, letter: char, end: nat)
    requires Here(f, i, "%" + flags + width + length + [letter], end) && SpecForm(flags, width, length, letter)
    ensures i < |f| && f[i] == '%'
    ensures ParseSpec(f, i) ==
      Some((Spec('0' in flags, '-' in flags, Value(width, 10) % 0x1_0000_0000, length == "l" || length == "ll", letter), end))
  {
    var one := i + 1;
    hide ParseSpec, SpecForm;
    var j, k, m := Pieces(f, i, one, flags, width, length, letter, end);
    ParseParts(f, i, flags, j, width, k, length, m);
  }

  /** Nothing else is read as a conversion. */
  lemma ParseComplete(f: string, i: nat) returns (flags: string, width: string, length: string)
    requires i < |f| && f[i] == '%' && ParseSpec(f, i).Some?
    ensures
      var (s, end) := ParseSpec(f, i).value;
      Here(f, i, "%" + flags + width + length + [s.conv], end) && SpecForm(flags, width, length, s.conv)
  {
    var one := i + 1;
    var j := FlagsEnd(f, one);
    var k := DigitsEnd(f, j);
    var m := LengthEnd(f, k);
    flags, width, length := f[one..j], f[j..k], f[k..m];
    LengthForms(f, k);
    FormPieces(f, i, one, j, k, m);
  }

  lemma FormPieces(f: string, i: nat, one: nat, j: nat, k: nat, m: nat)
    requires one == i + 1 <= j <= k <= m < |f| && f[i] == '%'
    ensures f[i..m + 1] == "%" + f[one..j] + f[j..k] + f[k..m] + [f[m]]
  {
  }

  lemma LengthForms(f: string, k: nat)
    requires k <= |f|
    ensures
      var m := LengthEnd(f, k);
      var length := f[k..m];
      && (length == "" || length == "l" || length == "ll" || length == "h" || length == "hh")
      && (m < |f| && length == "" ==> f[m] != 'l' && f[m] != 'h')
      && (m < |f| && length == "l" ==> f[m] != 'l') && (m < |f| && length == "h" ==> f[m] != 'h')
  {
  }

  lemma WidthBack(s: Spec)
    requires s.width < UINT_LIMIT
    ensures forall k :: 0 <= k < |WidthText(s)| ==> IsDigit(WidthText(s)[k])
    ensures WidthText(s) != [] ==> !IsFlag(WidthText(s)[0])
    ensures Value(WidthText(s), 10) % UINT_LIMIT == s.width
  {
    DigitsBack(s.width, 10, false);
    AllDecimal(WidthText(s));
  }

  lemma FlagsBack(s: Spec)
    ensures forall k :: 0 <= k < |FlagText(s)| ==> IsFlag(FlagText(s)[k])
    ensures ('0' in FlagText(s)) == s.zero && ('-' in FlagText(s)) == s.left && (LengthText(s) == "l") == s.long
  {
    assert s.zero ==> FlagText(s)[0] == '0';
    assert s.left ==> FlagText(s)[|FlagText(s)| - 1] == '-';
  }

  /** Where the pieces of a shown conversion stand. */
  lemma Pieces(f: string, i: nat, one: nat, flags: string, width: string, length: string, conv: char, end: nat)
    returns (j: nat, k: nat, m: nat)
    requires Here(f, i, "%" + flags + width + length + [conv], end) && one == i + 1
    ensures i < |f| && f[i] == '%' && Here(f, one, flags, j) && Here(f, j, width, k) && Here(f, k, length, m)
    ensures m < |f| && f[m] == conv && end == m + 1
  {
    j := one + |flags|;
    k := j + |width|;
    m := k + |length|;
    HereSplit(f, i, "%" + flags + width + length, [conv], end, m);
    HereSplit(f, i, "%" + flags + width, length, m, k);
    HereSplit(f, i, "%" + flags, width, k, j);
    HereSplit(f, i, "%", flags, j, one);
    assert f[i] == f[i..one][0];
    assert f[m] == f[m..end][0];
  }

  lemma ShownForm(s: Spec)
    requires Expressible(Conv(s))
    ensures SpecForm(FlagText(s), WidthText(s), LengthText(s), s.conv)
  {
    WidthBack(s);
    FlagsBack(s);
  }

  lemma SpecBack(f: string, i: nat, s: Spec, end: nat)
    requires Here(f, i, ShowSpec(s), end) && Expressible(Conv(s))
    ensures i < |f| && f[i] == '%' && ParseSpec(f, i) == Some((s, end))
  {
    hide ParseSpec, FlagText, WidthText;
    WidthBack(s);
    FlagsBack(s);
    ShownForm(s);
    ParseForm(f, i, FlagText(s), WidthText(s), LengthText(s), s.conv, end);
  }

  lemma {:induction false} ShowBackAt(f: string, i: nat, ds: seq<Directive>)
    requires Here(f, i, Show(ds), |f|)
    requires forall d :: d in ds ==> Expressible(d)
    ensures Parse(f, i) == Some(ds)
    decreases |ds|
  {
    hide ParseSpec, ShowSpec;
    if ds != [] {
      var d, rest := ds[0], ds[1..];
      var next := i + |ShowOne(d)|;
      assert d in ds;
      assert ds == [d] + rest;
      HereSplit(f, i, ShowOne(d), Show(rest), |f|, next);
      if d.Conv? {
        SpecBack(f, i, d.spec, next);
      } else {
        assert f[i] == f[i..next][0] == d.c;
      }
      ShowBackAt(f, next, rest);
    }
  }

  /** Format text written for any directives is read back as those directives. */
  lemma ShowBack(ds: seq<Directive>)
    requires forall d :: d in ds ==> Expressible(d)
    ensures Parse(Show(ds), 0) == Some(ds)
  {
    ShowBackAt(Show(ds), 0, ds);
  }

  // ----- rendering -----

  function Bits(a: Arg): nat {
    if a.Number? then a.bits % WORD_LIMIT else a.address % WORD_LIMIT
  }

  /** `va_arg(args, int)`: the lower half of the slot, signed. */
  function AsInt(bits: nat): int {
    var w := bits % UINT_LIMIT;
    if w < UINT_LIMIT / 2 then w else w - UINT_LIMIT
  }

  /** `va_arg(args, long long)`. */
  function AsLong(bits: nat): int {
    var w := bits % WORD_LIMIT;
    if w < WORD_LIMIT / 2 then w else w - WORD_LIMIT
  }

  /** The value that a number conversion takes from its slot, as a signed 64-bit number. */
  function Taken(s: Spec, bits: nat): (v: int)
    ensures -(WORD_LIMIT as int) / 2 <= v < WORD_LIMIT / 2
  {
    if s.long then AsLong(bits) else AsInt(bits)
  }

  /** `(uint64_t)v`. */
  function AsWord(v: int): (u: nat)
    ensures u < WORD_LIMIT
  {
    v % WORD_LIMIT
  }

  predicate IsNumeric(conv: char) {
    conv == 'd' || conv == 'u' || conv == 'x' || conv == 'X' || conv == 'o' || conv == 'b' || conv == 'p'
  }

  predicate IsKnown(conv: char) {
    IsNumeric(conv) || conv == 's' || conv == 'c' || conv == '%'
  }

  function BaseOf(conv: char): (b: nat)
    ensures IsBase(b)
  {
    if conv == 'x' || conv == 'X' || conv == 'p' then 16
    else if conv == 'o' then 8
    else if conv == 'b' then 2
    else 10
  }

  /** The number as sign and magnitude. */
  function Negative(s: Spec, bits: nat): bool {
    s.conv == 'd' && Taken(s, bits) < 0
  }

  function Magnitude(s: Spec, bits: nat): (n: nat)
    ensures n < WORD_LIMIT
  {
    if s.conv == 'd' then
      var v := Taken(s, bits);
      if v < 0 then -v else v
    else if s.conv == 'p' then bits % WORD_LIMIT
    else AsWord(Taken(s, bits))
  }

  function NumberText(s: Spec, bits: nat): string {
    Field(Negative(s, bits), Digits(Magnitude(s, bits), BaseOf(s.conv), s.conv == 'x'), s.left, s.zero, s.width)
  }

  /** The text of one conversion and the arguments left; None if its argument is missing or no string. */
  function RenderSpec(s: Spec, args: seq<Arg>): Option<(string, seq<Arg>)> {
    if s.conv == '%' then Some(("%", args))
    else if !IsKnown(s.conv) then Some((['%', s.conv], args))
    else if args == [] then None
    else if s.conv == 's' then
      if args[0].Text? then Some((args[0].chars, args[1..])) else None
    else if s.conv == 'c' then Some(([(Bits(args[0]) % 256) as char], args[1..]))
    else if s.conv == 'p' then Some(("0x" + NumberText(s, Bits(args[0])), args[1..]))
    else Some((NumberText(s, Bits(args[0])), args[1..]))
  }

  function Render(ds: seq<Directive>, args: seq<Arg>): Option<string> {
    if ds == [] then Some("")
    else if ds[0].Plain? then
      match Render(ds[1..], args)
      case None => None
      case Some(t) => Some([ds[0].c] + t)
    else
      match RenderSpec(ds[0].spec, args)
      case None => None
      case Some((t, rest)) =>
        match Render(ds[1..], rest)
        case None => None
        case Some(u) => Some(t + u)
  }

  /** The reference rendering of a format; None if it is cut off or its arguments do not match. */
  function Rendered(f: string, args: seq<Arg>): Option<string> {
    match Parse(f, 0)
    case None => None
    case Some(ds) => Render(ds, args)
  }

  // ----- what the numbers in a rendering mean -----

  /** A number printed with any flags and width reads back as the value taken: signed for `d`, and
      modulo 2^64 for the unsigned conversions. */
  lemma NumberBack(s: Spec, bits: nat)
    requires IsNumeric(s.conv) && s.conv != 'p'
    ensures ReadNumber(NumberText(s, bits), BaseOf(s.conv)) ==
      if s.conv == 'd' then Taken(s, bits) else AsWord(Taken(s, bits))
  {
    FieldBack(Negative(s, bits), Magnitude(s, bits), BaseOf(s.conv), s.conv == 'x', s.left, s.zero, s.width);
  }

  /** The 64-bit number that the unsigned conversions print for an argument. */
  ghost predicate UnsignedValue(s: Spec, bits: nat, n: nat) {
    var w := bits % 0x1_0000_0000;
    n == if s.long then bits % 0x1_0000_0000_0000_0000 else if w < 0x8000_0000 then w else w + 0xFFFF_FFFF_0000_0000
  }

  /** The signed number that `d` prints. */
  ghost predicate SignedValue(s: Spec, bits: nat, v: int) {
    var w, l := bits % 0x1_0000_0000, bits % 0x1_0000_0000_0000_0000;
    v == if s.long then (if l < 0x8000_0000_0000_0000 then l else l - 0x1_0000_0000_0000_0000)
         else (if w < 0x8000_0000 then w else w - 0x1_0000_0000)
  }

  /** `t` is the number `n` in a base, with padding as the conversion asks for it. */
  ghost predicate Prints(t: string, s: Spec, negative: bool, n: nat, base: nat, lower: bool)
    requires IsBase(base)
  {
    Padded(t, negative, Digits(n, base, lower), s.left, s.zero, s.width)
  }

  /** What each letter prints. */
  lemma LetterText(s: Spec, bits: nat, n: nat, v: int)
    requires bits < 0x1_0000_0000_0000_0000 && UnsignedValue(s, bits, n) && SignedValue(s, bits, v)
    ensures s.conv == 'd' ==> Prints(NumberText(s, bits), s, v < 0, if v < 0 then -v else v, 10, false)
    ensures s.conv == 'u' ==> Prints(NumberText(s, bits), s, false, n, 10, false)
    ensures s.conv == 'x' ==> Prints(NumberText(s, bits), s, false, n, 16, true)
    ensures s.conv == 'X' ==> Prints(NumberText(s, bits), s, false, n, 16, false)
    ensures s.conv == 'o' ==> Prints(NumberText(s, bits), s, false, n, 8, false)
    ensures s.conv == 'b' ==> Prints(NumberText(s, bits), s, false, n, 2, false)
    ensures s.conv == 'p' ==> Prints(NumberText(s, bits), s, false, bits, 16, false)
  {
    WordValue(s, bits, n, v);
    FieldPlaces(Negative(s, bits), Digits(Magnitude(s, bits), BaseOf(s.conv), s.conv == 'x'), s.left, s.zero, s.width);
    hide Field, Digits, Padded, UnsignedValue, SignedValue;
  }

  lemma WordValue(s: Spec, bits: nat, n: nat, v: int)
    requires bits < 0x1_0000_0000_0000_0000 && UnsignedValue(s, bits, n) && SignedValue(s, bits, v)
    ensures Taken(s, bits) == v && AsWord(v) == n && bits % WORD_LIMIT == bits
  {
    if v < 0 {
      assert v + WORD_LIMIT == n;
      Wrapped(v, n);
    }
  }

  lemma Wrapped(v: int, n: nat)
    requires -(WORD_LIMIT as int) <= v < 0 && n == v + WORD_LIMIT
    ensures AsWord(v) == n
  {
  }

  /** What a directive renders to, letter by letter, and how many arguments it takes. */
  lemma LetterRenders(s: Spec, args: seq<Arg>)
    ensures s.conv == '%' ==> RenderSpec(s, args) == Some(("%", args))
    ensures s.conv == 's' && args != [] && args[0].Text? ==> RenderSpec(s, args) == Some((args[0].chars, args[1..]))
    ensures s.conv == 'c' && args != [] ==> RenderSpec(s, args) == Some(([(Bits(args[0]) % 256) as char], args[1..]))
    ensures s.conv == 'p' && args != [] ==> RenderSpec(s, args) == Some(("0x" + NumberText(s, Bits(args[0])), args[1..]))
    ensures s.conv in "duxXob" && args != [] ==> RenderSpec(s, args) == Some((NumberText(s, Bits(args[0])), args[1..]))
    ensures s.conv !in "%scpduxXob" ==> RenderSpec(s, args) == Some((['%', s.conv], args))
  {
  }

  lemma IntWord(n: nat)
    requires n < UINT_LIMIT
    ensures AsWord(AsInt(n)) == n <==> n < UINT_LIMIT / 2
  {
    if n >= UINT_LIMIT / 2 {
      var v := AsInt(n);
      assert v + WORD_LIMIT == AsWord(v);
    }
  }

  /** A 32-bit unsigned argument printed without `l` reads back as itself exactly if its top bit is
      clear, because the source takes it as a signed `int`. */
  lemma UnsignedExact(s: Spec, n: nat)
    requires IsNumeric(s.conv) && s.conv != 'p' && s.conv != 'd' && !s.long && n < UINT_LIMIT
    ensures ReadNumber(NumberText(s, n), BaseOf(s.conv)) == n <==> n < UINT_LIMIT / 2
  {
    hide NumberText, ReadNumber;
    IntWord(n);
    NumberBack(s, n);
  }

  lemma LongWord(n: nat)
    requires n < WORD_LIMIT
    ensures AsWord(AsLong(n)) == AsWord(AsWord(AsLong(n))) == n
  {
    assert n - WORD_LIMIT == (-1) * WORD_LIMIT + n;
  }

  /** With `l`, every 64-bit argument reads back as itself. */
  lemma LongExact(s: Spec, n: nat)
    requires IsNumeric(s.conv) && s.conv != 'p' && s.long && n < WORD_LIMIT
    ensures AsWord(ReadNumber(NumberText(s, n), BaseOf(s.conv))) == n
  {
    NumberBack(s, n);
    LongWord(n);
  }
}
