/** `print_number` and `vsnprintf` of rtl/snprintf.c, on a buffer array and positions in it that may run
    past its end. */
module Snprintf {
  import opened Machine
  import opened Dyadic
  import opened Numerals
  import opened Format
  import opened Truncation

  // ----- writing text -----

  /** `after` is `before` with `t` written at `pos`. */
  ghost predicate Put(before: string, after: string, pos: nat, t: string) {
    && pos + |t| <= |before| == |after|
    && after[..pos] == before[..pos] && after[pos..pos + |t|] == t && after[pos + |t|..] == before[pos + |t|..]
  }

  lemma PutThen(a: string, b: string, c: string, pos: nat, t: string, next: nat, u: string)
    requires Put(a, b, pos, t) && next == pos + |t| && Put(b, c, next, u)
    ensures Put(a, c, pos, t + u)
  {
    var end := next + |u|;
    assert c[..pos] == c[..next][..pos];
    assert c[pos..end] == c[..next][pos..] + c[next..end];
    assert b[..next][pos..] == t;
    assert c[end..] == b[end..] == b[next..][|u|..];
    assert a[next..][|u|..] == a[end..];
  }

  method PutChar(buf: array<char>, pos: nat, c: char)
    requires pos < buf.Length
    modifies buf
    ensures Put(old(buf[..]), buf[..], pos, [c])
  {
    buf[pos] := c;
  }

  function Sign(negative: bool): string {
    if negative then "-" else ""
  }

  method PutSign(buf: array<char>, pos: nat, negative: bool) returns (next: nat)
    requires pos + |Sign(negative)| <= buf.Length
    modifies buf
    ensures next == pos + |Sign(negative)| && Put(old(buf[..]), buf[..], pos, Sign(negative))
  {
    next := pos;
    if negative {
      buf[next] := '-';
      next := next + 1;
    }
  }

  /** The loops that write the padding. */
  method PutFill(buf: array<char>, pos: nat, c: char, n: nat) returns (next: nat)
    requires pos + n <= buf.Length
    modifies buf
    ensures next == pos + n && Put(old(buf[..]), buf[..], pos, Repeat(c, n))
  {
    for i := 0 to n
      invariant forall x :: pos <= x < pos + i ==> buf[x] == c
      invariant forall x :: 0 <= x < buf.Length && !(pos <= x < pos + i) ==> buf[x] == old(buf[x])
    {
      buf[pos + i] := c;
    }
    next := pos + n;
  }

  /** The loops that copy the digits from the scratch buffer. */
  method PutScratch(buf: array<char>, pos: nat, tmp: array<char>, n: nat) returns (next: nat)
    requires pos + n <= buf.Length && n <= tmp.Length && tmp != buf
    modifies buf
    ensures next == pos + n && Put(old(buf[..]), buf[..], pos, tmp[..n])
  {
    for i := 0 to n
      invariant forall x :: pos <= x < pos + i ==> buf[x] == tmp[x - pos]
      invariant forall x :: 0 <= x < buf.Length && !(pos <= x < pos + i) ==> buf[x] == old(buf[x])
    {
      buf[pos + i] := tmp[i];
    }
    next := pos + n;
  }

  // ----- numbers -----

  /** Without the three base flags the base is ten. */
  datatype Flags = Flags(zero: bool, left: bool, sign: bool, lower: bool, hex: bool, octal: bool, binary: bool)

  function BaseFor(fl: Flags): (b: nat)
    ensures IsBase(b)
  {
    if fl.hex then 16 else if fl.octal then 8 else if fl.binary then 2 else 10
  }

  /** What `print_number` prints: the signed number if `sign`, else the unsigned one. */
  function Printed(unumber: nat, snumber: int, fl: Flags, width: nat): string {
    var v := if fl.sign then snumber else unumber;
    Field(v < 0, Digits(if v < 0 then -v else v, BaseFor(fl), fl.lower), fl.left, fl.zero, width)
  }

  /** Where everything in it stands. */
  lemma PrintedPlaces(unumber: nat, snumber: int, fl: Flags, width: nat)
    ensures
      var v := if fl.sign then snumber else unumber;
      var base := if fl.hex then 16 else if fl.octal then 8 else if fl.binary then 2 else 10;
      Padded(Printed(unumber, snumber, fl, width), v < 0, Digits(if v < 0 then -v else v, base, fl.lower), fl.left, fl.zero,
             width)
  {
    hide Padded, Field, Digits;
    var v := if fl.sign then snumber else unumber;
    FieldPlaces(v < 0, Digits(if v < 0 then -v else v, BaseFor(fl), fl.lower), fl.left, fl.zero, width);
  }

  /** The magnitude of a negative number by complement and increment, also of the most negative one. */
  lemma Complement(v: int)
    requires -(WORD_LIMIT as int) / 2 <= v < 0
    ensures (WORD_LIMIT - 1 - AsWord(v) + 1) % WORD_LIMIT == -v
  {
    assert AsWord(v) == v + WORD_LIMIT;
  }

  lemma Pow2Four(k: nat)
    ensures Pow2(k + 4) == 16 * Pow2(k)
  {
    assert Pow2(k + 2) == 4 * Pow2(k);
  }

  lemma Pow2Quarter(k: nat)
    ensures Pow2(k + 16) == 0x1_0000 * Pow2(k)
  {
    Pow2Four(k);
    Pow2Four(k + 4);
    Pow2Four(k + 8);
    Pow2Four(k + 12);
  }

  lemma WordBits()
    ensures Pow2(64) == WORD_LIMIT
  {
    Pow2Quarter(0);
    Pow2Quarter(16);
    Pow2Quarter(32);
    Pow2Quarter(48);
  }

  /** `done` are the lowest digits of `n`, and `rest` is what they leave. */
  ghost predicate Pending(done: string, rest: nat, n: nat, base: nat, lower: bool)
    requires IsBase(base)
  {
    done + LowFirst(rest, base, lower) == LowFirst(n, base, lower)
  }

  lemma ZeroDigits(base: nat, lower: bool)
    requires IsBase(base)
    ensures Mirrored(['0'], Digits(0, base, lower))
  {
  }

  lemma PendingStart(n: nat, base: nat, lower: bool)
    requires IsBase(base) && 0 < n < WORD_LIMIT
    ensures Pending([], n, n, base, lower) && |LowFirst(n, base, lower)| <= 64
  {
    WordBits();
    DigitsFew(n, base, lower, 64);
    LowFirstMirrored(n, base, lower);
  }

  lemma PendingDone(done: string, n: nat, base: nat, lower: bool)
    requires IsBase(base) && n > 0 && Pending(done, 0, n, base, lower)
    ensures Mirrored(done, Digits(n, base, lower)) && |done| > 0
  {
    assert done == LowFirst(n, base, lower);
    LowFirstMirrored(n, base, lower);
  }

  lemma PendingStep(done: string, rest: nat, n: nat, base: nat, lower: bool, c: char, higher: nat)
    requires IsBase(base) && rest > 0 && Pending(done, rest, n, base, lower)
    requires c == DigitChar(Lowest(rest, base), lower) && higher == Higher(rest, base)
    ensures Pending(done + [c], higher, n, base, lower) && |done| < |LowFirst(n, base, lower)|
  {
    assert LowFirst(rest, base, lower) == [c] + LowFirst(higher, base, lower);
    assert done + ([c] + LowFirst(higher, base, lower)) == done + [c] + LowFirst(higher, base, lower);
  }

  /** Fills the scratch buffer, lowest digit first; no more than 64 of its 66 places are used. */
  method FillDigits(n: nat, base: nat, lower: bool, tmp: array<char>) returns (k: nat)
    requires IsBase(base) && n < WORD_LIMIT && tmp.Length == 66
    modifies tmp
    ensures 1 <= k <= 64 && Mirrored(tmp[..k], Digits(n, base, lower))
  {
    hide Pending, LowFirst, Digits, DigitChar, Mirrored, Pow2;
    if n == 0 {
      tmp[0] := '0';
      assert tmp[..1] == ['0'];
      ZeroDigits(base, lower);
      return 1;
    }
    PendingStart(n, base, lower);
    var rest := n;
    k := 0;
    while rest > 0
      invariant k <= 64 && Pending(tmp[..k], rest, n, base, lower)
    {
      ghost var done := tmp[..k];
      var c, higher := DigitChar(Lowest(rest, base), lower), Higher(rest, base);
      PendingStep(done, rest, n, base, lower, c, higher);
      tmp[k] := c;
      rest := higher;
      k := k + 1;
      assert tmp[..k] == done + [c];
    }
    PendingDone(tmp[..k], n, base, lower);
  }

  /** Reverses the first `k` characters in place. */
  method ReverseScratch(tmp: array<char>, k: nat)
    requires 1 <= k <= tmp.Length
    modifies tmp
    ensures Mirrored(old(tmp[..k]), tmp[..k])
  {
    ghost var was := tmp[..k];
    var head, tail := 0, k - 1;
    while head < tail
      invariant 0 <= head <= k && tail == k - 1 - head && head <= tail + 1
      invariant forall x :: 0 <= x < head || tail < x < k ==> tmp[x] == was[k - 1 - x]
      invariant forall x :: head <= x <= tail ==> tmp[x] == was[x]
    {
      var a := tmp[head];
      tmp[head] := tmp[tail];
      tmp[tail] := a;
      head := head + 1;
      tail := tail - 1;
    }
  }

  /** Sign, digits, padding. */
  method PutLeft(negative: bool, tmp: array<char>, len: nat, pad: nat, buf: array<char>, pos: nat) returns (next: nat)
    requires len <= tmp.Length && tmp != buf && pos + |Sign(negative)| + len + pad <= buf.Length
    modifies buf
    ensures Put(old(buf[..]), buf[..], pos, Sign(negative) + tmp[..len] + Repeat(' ', pad))
    ensures next == pos + |Sign(negative)| + len + pad
  {
    hide Put;
    ghost var a := buf[..];
    var p := PutSign(buf, pos, negative);
    ghost var b := buf[..];
    var q := PutScratch(buf, p, tmp, len);
    ghost var c := buf[..];
    next := PutFill(buf, q, ' ', pad);
    PutThen(a, b, c, pos, Sign(negative), p, tmp[..len]);
    PutThen(a, c, buf[..], pos, Sign(negative) + tmp[..len], q, Repeat(' ', pad));
  }

  /** Sign, zeros, digits. */
  method PutZeros(negative: bool, tmp: array<char>, len: nat, pad: nat, buf: array<char>, pos: nat) returns (next: nat)
    requires len <= tmp.Length && tmp != buf && pos + |Sign(negative)| + len + pad <= buf.Length
    modifies buf
    ensures Put(old(buf[..]), buf[..], pos, Sign(negative) + Repeat('0', pad) + tmp[..len])
    ensures next == pos + |Sign(negative)| + len + pad
  {
    hide Put;
    ghost var a := buf[..];
    var p := PutSign(buf, pos, negative);
    ghost var b := buf[..];
    var q := PutFill(buf, p, '0', pad);
    ghost var c := buf[..];
    next := PutScratch(buf, q, tmp, len);
    PutThen(a, b, c, pos, Sign(negative), p, Repeat('0', pad));
    PutThen(a, c, buf[..], pos, Sign(negative) + Repeat('0', pad), q, tmp[..len]);
  }

  /** Padding, sign, digits. */
  method PutRight(negative: bool, tmp: array<char>, len: nat, pad: nat, buf: array<char>, pos: nat) returns (next: nat)
    requires len <= tmp.Length && tmp != buf && pos + |Sign(negative)| + len + pad <= buf.Length
    modifies buf
    ensures Put(old(buf[..]), buf[..], pos, Repeat(' ', pad) + Sign(negative) + tmp[..len])
    ensures next == pos + |Sign(negative)| + len + pad
  {
    hide Put;
    ghost var a := buf[..];
    var p := PutFill(buf, pos, ' ', pad);
    ghost var b := buf[..];
    var q := PutSign(buf, p, negative);
    ghost var c := buf[..];
    next := PutScratch(buf, q, tmp, len);
    PutThen(a, b, c, pos, Repeat(' ', pad), p, Sign(negative));
    PutThen(a, c, buf[..], pos, Repeat(' ', pad) + Sign(negative), q, tmp[..len]);
  }

  /** Writes a field that is known to fit. */
  method PutField(negative: bool, tmp: array<char>, len: nat, fl: Flags, width: nat, pad: nat,
                  buf: array<char>, pos: nat)
    returns (next: nat)
    requires len <= tmp.Length && tmp != buf
    requires var total := len + (if negative then 1 else 0);
      pad == (if width > total then width - total else 0) && pos + pad + total <= buf.Length
    modifies buf
    ensures next == pos + |Field(negative, tmp[..len], fl.left, fl.zero, width)|
    ensures Put(old(buf[..]), buf[..], pos, Field(negative, tmp[..len], fl.left, fl.zero, width))
  {
    hide Put;
    if fl.left {
      next := PutLeft(negative, tmp, len, pad, buf, pos);
    } else if fl.zero {
      next := PutZeros(negative, tmp, len, pad, buf, pos);
    } else {
      next := PutRight(negative, tmp, len, pad, buf, pos);
    }
  }

  /** The test for room, in 32-bit arithmetic. */
  predicate Admitted(size: nat, room: int) {
    room > 0 && (size + 1) % UINT_LIMIT <= room
  }

  /** A field and its terminator are admitted only if there is room for them, unless the width is the
      greatest 32-bit number. */
  lemma AdmittedExact(digits: nat, width: nat, room: int)
    requires 0 < digits <= 65 && width < UINT_LIMIT
    ensures
      var size := if width > digits then width else digits;
      (Admitted(size, room) && size + 1 > room) <==> (width == UINT_LIMIT - 1 && 0 < room < UINT_LIMIT)
  {
  }

  /** The scratch buffer with the digits in printing order. */
  method Scratch(n: nat, base: nat, lower: bool) returns (tmp: array<char>, len: nat)
    requires IsBase(base) && n < WORD_LIMIT
    ensures fresh(tmp) && tmp.Length == 66 && 1 <= len <= 64 && tmp[..len] == Digits(n, base, lower)
  {
    tmp := new char[66];
    len := FillDigits(n, base, lower, tmp);
    ReverseScratch(tmp, len);
  }

  /** The second half of `print_number`. */
  method Emit(negative: bool, tmp: array<char>, len: nat, fl: Flags, width: nat, buf: array<char>, pos: nat)
    returns (next: nat)
    requires 1 <= len <= 64 && len <= tmp.Length && tmp != buf && width < UINT_LIMIT - 1
    modifies buf
    ensures next == pos + |Field(negative, tmp[..len], fl.left, fl.zero, width)|
    ensures next < buf.Length ==>
      Put(old(buf[..]), buf[..], pos, Field(negative, tmp[..len], fl.left, fl.zero, width) + ['\0'])
    ensures next >= buf.Length ==> buf[..] == old(buf[..])
  {
    hide Put, Field;
    var total := len + if negative then 1 else 0;
    var pad := if width > total then width - total else 0;
    if pos < buf.Length && (pad + total + 1) % UINT_LIMIT <= buf.Length - pos {
      ghost var a := buf[..];
      next := PutField(negative, tmp, len, fl, width, pad, buf, pos);
      ghost var b, t := buf[..], Field(negative, tmp[..len], fl.left, fl.zero, width);
      PutChar(buf, next, '\0');
      PutThen(a, b, buf[..], pos, t, next, ['\0']);
    } else {
      next := pos + pad + total;
    }
  }

  /** `print_number`: advances by the size of the field whether or not it was written, and writes it, with
      a terminator, exactly if both fit. */
  method PrintNumber(unumber: nat, snumber: int, fl: Flags, width: nat, buf: array<char>, pos: nat)
    returns (next: nat)
    requires unumber < WORD_LIMIT && -(WORD_LIMIT as int) / 2 <= snumber < WORD_LIMIT / 2
    requires width < UINT_LIMIT - 1
    modifies buf
    ensures next == pos + |Printed(unumber, snumber, fl, width)|
    ensures next < buf.Length ==> Put(old(buf[..]), buf[..], pos, Printed(unumber, snumber, fl, width) + ['\0'])
    ensures next >= buf.Length ==> buf[..] == old(buf[..])
  {
    var n, negative := unumber, false;
    if fl.sign {
      if snumber < 0 {
        Complement(snumber);
        n, negative := (WORD_LIMIT - 1 - AsWord(snumber) + 1) % WORD_LIMIT, true;
      } else {
        n := snumber;
      }
    }
    assert Printed(unumber, snumber, fl, width) == Field(negative, Digits(n, BaseFor(fl), fl.lower), fl.left, fl.zero, width);
    var tmp, len := Scratch(n, BaseFor(fl), fl.lower);
    next := Emit(negative, tmp, len, fl, width, buf, pos);
  }

  // ----- conversions -----

  method ScanFlags(f: string, i: nat) returns (zero: bool, left: bool, j: nat)
    requires i <= |f|
    ensures j == FlagsEnd(f, i) && zero == ('0' in f[i..j]) && left == ('-' in f[i..j])
  {
    zero, left, j := false, false, i;
    while j < |f| && IsFlag(f[j])
      invariant i <= j <= |f| && FlagsEnd(f, j) == FlagsEnd(f, i)
      invariant zero == ('0' in f[i..j]) && left == ('-' in f[i..j])
    {
      assert f[i..j + 1] == f[i..j] + [f[j]];
      if f[j] == '0' { zero := true; } else { left := true; }
      j := j + 1;
    }
  }

  lemma WrapsOnce(v: nat, d: nat)
    ensures (v % UINT_LIMIT * 10 + d) % UINT_LIMIT == (v * 10 + d) % UINT_LIMIT
  {
    var q, w := v / UINT_LIMIT, v % UINT_LIMIT;
    var x := w * 10 + d;
    var k, r := x / UINT_LIMIT, x % UINT_LIMIT;
    Remainder(v * 10 + d, 10 * q + k, UINT_LIMIT, r);
  }

  function WidthOf(t: string): nat {
    Value(t, 10) % UINT_LIMIT
  }

  lemma WidthStep(done: string, c: char, width: nat)
    requires IsDigit(c) && width == WidthOf(done)
    ensures (width * 10 + (c - '0') as nat) % UINT_LIMIT == WidthOf(done + [c])
  {
    AppendValue(done, c, 10);
    WrapsOnce(Value(done, 10), DigitValue(c));
  }

  method ScanWidth(f: string, i: nat) returns (width: nat, k: nat)
    requires i <= |f|
    ensures k == DigitsEnd(f, i) && width == WidthOf(f[i..k])
  {
    assert WidthOf(f[i..i]) == 0;
    hide WidthOf;
    width, k := 0, i;
    while k < |f| && IsDigit(f[k])
      invariant i <= k <= |f| && DigitsEnd(f, k) == DigitsEnd(f, i)
      invariant width == WidthOf(f[i..k])
    {
      assert f[i..k + 1] == f[i..k] + [f[k]];
      WidthStep(f[i..k], f[k], width);
      width := (width * 10 + (f[k] - '0') as nat) % UINT_LIMIT;
      k := k + 1;
    }
  }

  /** Reads one conversion; None if the format ends in it. */
  method ScanSpec(f: string, i: nat) returns (r: Option<(Spec, nat)>)
    requires i < |f|
    ensures r == ParseSpec(f, i)
  {
    var zero, left, j := ScanFlags(f, i + 1);
    var width, k := ScanWidth(f, j);
    var long, m := false, k;
    if k < |f| && f[k] == 'l' {
      long := true;
      m := if k + 1 < |f| && f[k + 1] == 'l' then k + 2 else k + 1;
    } else if k < |f| && f[k] == 'h' {
      m := if k + 1 < |f| && f[k + 1] == 'h' then k + 2 else k + 1;
    }
    if m == |f| { return None; }
    r := Some((Spec(zero, left, width, long, f[m]), m + 1));
  }

  /** `t` has been appended to the first `pos` characters. */
  ghost predicate Appended(before: string, after: string, pos: nat, t: string) {
    pos + |t| <= |before| == |after| && after[..pos + |t|] == before[..pos] + t
  }

  lemma PutAppends(a: string, b: string, pos: nat, t: string)
    requires Put(a, b, pos, t + ['\0']) || Put(a, b, pos, t)
    ensures Appended(a, b, pos, t)
  {
    var end := pos + |t|;
    if Put(a, b, pos, t + ['\0']) {
      assert b[pos..end] == b[pos..end + 1][..|t|] == t;
    }
    assert b[..end] == b[..pos] + b[pos..end];
  }

  lemma AppendedTwice(a: string, b: string, c: string, pos: nat, t: string, next: nat, u: string)
    requires Appended(a, b, pos, t) && next == pos + |t| && Appended(b, c, next, u)
    ensures Appended(a, c, pos, t + u)
  {
    assert a[..pos] + t + u == a[..pos] + (t + u);
  }

  /** The free places that a conversion asks for behind its text: one for the terminator, and one more if
      it is not known. */
  function Slack(s: Spec): nat {
    if IsKnown(s.conv) then 1 else 2
  }

  function FlagsFor(s: Spec): Flags {
    Flags(s.zero, s.left, s.conv == 'd', s.conv == 'x', BaseOf(s.conv) == 16, s.conv == 'o', s.conv == 'b')
  }

  lemma PrintedText(s: Spec, bits: nat)
    requires IsNumeric(s.conv)
    ensures s.conv == 'd' ==> Printed(0, Taken(s, bits), FlagsFor(s), s.width) == NumberText(s, bits)
    ensures s.conv != 'd' ==> Printed(Magnitude(s, bits), 0, FlagsFor(s), s.width) == NumberText(s, bits)
  {
  }

  /** The number conversions but `p`. */
  method PutNumber(s: Spec, bits: nat, buf: array<char>, pos: nat) returns (next: nat)
    requires IsNumeric(s.conv) && s.width < UINT_LIMIT - 1
    modifies buf
    ensures next == pos + |NumberText(s, bits)|
    ensures next < buf.Length ==> Appended(old(buf[..]), buf[..], pos, NumberText(s, bits))
  {
    PrintedText(s, bits);
    ghost var a := buf[..];
    if s.conv == 'd' {
      next := PrintNumber(0, Taken(s, bits), FlagsFor(s), s.width, buf, pos);
    } else if s.conv == 'p' {
      next := PrintNumber(bits % WORD_LIMIT, 0, FlagsFor(s), s.width, buf, pos);
    } else {
      next := PrintNumber(AsWord(Taken(s, bits)), 0, FlagsFor(s), s.width, buf, pos);
    }
    if next < buf.Length { PutAppends(a, buf[..], pos, NumberText(s, bits)); }
  }

  method PutPointer(s: Spec, bits: nat, buf: array<char>, pos: nat) returns (next: nat)
    requires s.conv == 'p' && s.width < UINT_LIMIT - 1
    modifies buf
    ensures next == pos + |NumberText(s, bits)| + if pos + 2 < buf.Length then 2 else 0
    ensures
      var t := "0x" + NumberText(s, bits);
      pos + |t| < buf.Length ==> next == pos + |t| && Appended(old(buf[..]), buf[..], pos, t)
  {
    hide NumberText;
    ghost var a := buf[..];
    next := pos;
    if pos + 2 < buf.Length {
      buf[pos] := '0';
      buf[pos + 1] := 'x';
      next := pos + 2;
      assert Appended(a, buf[..], pos, "0x");
    }
    ghost var b, p := buf[..], next;
    next := PutNumber(s, bits, buf, next);
    if p == pos + 2 && next < buf.Length { AppendedTwice(a, b, buf[..], pos, "0x", p, NumberText(s, bits)); }
  }

  /** Writes what there is room for and advances by all of it. */
  method PutText(t: string, buf: array<char>, pos: nat) returns (next: nat)
    modifies buf
    ensures next == pos + |t|
    ensures next < buf.Length ==> Appended(old(buf[..]), buf[..], pos, t)
  {
    for i := 0 to |t|
      invariant forall x :: 0 <= x < buf.Length && x < pos ==> buf[x] == old(buf[x])
      invariant pos + |t| < buf.Length ==> forall x :: 0 <= x < i ==> buf[pos + x] == t[x]
    {
      if pos + i + 1 < buf.Length { buf[pos + i] := t[i]; }
    }
    next := pos + |t|;
    if next < buf.Length {
      assert buf[..next] == old(buf[..pos]) + t;
      assert old(buf[..])[..pos] == old(buf[..pos]);
    }
  }

  method PutUnknown(conv: char, buf: array<char>, pos: nat) returns (next: nat)
    modifies buf
    ensures next == pos + 2
    ensures pos + 3 < buf.Length ==> Appended(old(buf[..]), buf[..], pos, ['%', conv])
  {
    if pos + 3 < buf.Length {
      buf[pos] := '%';
      buf[pos + 1] := conv;
    }
    next := pos + 2;
  }

  /** One conversion: the new position and the arguments left, or None where the source would take an
      argument that is not there or not a string. A `c` without room leaves its argument untaken. */
  method PutSpec(s: Spec, args: seq<Arg>, buf: array<char>, pos: nat) returns (r: Option<(nat, seq<Arg>)>)
    requires IsNumeric(s.conv) ==> s.width < UINT_LIMIT - 1
    modifies buf
    ensures r == StepSpec(s, args, pos, buf.Length)
    ensures RenderSpec(s, args).Some? ==>
      var (t, rest) := RenderSpec(s, args).value;
      pos + |t| + Slack(s) <= buf.Length ==> r == Some((pos + |t|, rest)) && Appended(old(buf[..]), buf[..], pos, t)
  {
    hide NumberText, Appended;
    var next;
    if s.conv == '%' {
      next := PutText("%", buf, pos);
      return Some((next, args));
    }
    if !IsKnown(s.conv) {
      next := PutUnknown(s.conv, buf, pos);
      return Some((next, args));
    }
    if s.conv == 'c' && pos + 1 >= buf.Length { return Some((pos + 1, args)); }
    if args == [] { return None; }
    if s.conv == 's' {
      if !args[0].Text? { return None; }
      next := PutText(args[0].chars, buf, pos);
    } else if s.conv == 'c' {
      next := PutText([(Bits(args[0]) % 256) as char], buf, pos);
    } else if s.conv == 'p' {
      next := PutPointer(s, Bits(args[0]), buf, pos);
    } else {
      next := PutNumber(s, Bits(args[0]), buf, pos);
    }
    r := Some((next, args[1..]));
  }

  // ----- the whole -----

  /** No number conversion of the format has the greatest 32-bit width. */
  ghost predicate Narrow(f: string, i: nat)
    requires i <= |f|
    decreases |f| - i
  {
    if i == |f| then true
    else if f[i] != '%' then Narrow(f, i + 1)
    else
      match ParseSpec(f, i)
      case None => true
      case Some((s, next)) => (IsNumeric(s.conv) ==> s.width != UINT_LIMIT - 1) && Narrow(f, next)
  }

  /** The widths of a parsed conversion are 32-bit numbers. */
  lemma WidthBelow(f: string, i: nat)
    requires i < |f| && ParseSpec(f, i).Some?
    ensures ParseSpec(f, i).value.0.width < UINT_LIMIT
  {
  }

  ghost predicate AllKnown(ds: seq<Directive>) {
    forall d :: d in ds && d.Conv? ==> IsKnown(d.spec.conv)
  }

  /** A buffer long enough for the text, its terminator, and one place more if the format has an unknown
      conversion. */
  ghost predicate Fits(f: string, args: seq<Arg>, length: nat) {
    && Parse(f, 0).Some? && Rendered(f, args).Some?
    && |Rendered(f, args).value| + (if AllKnown(Parse(f, 0).value) then 1 else 2) <= length
  }

  /** `done` is followed by the rendering of the rest of the format. */
  ghost predicate OnTrack(f: string, i: nat, args: seq<Arg>, done: string, out: string, known: bool) {
    && i <= |f| && Parse(f, i).Some?
    && Render(Parse(f, i).value, args).Some?
    && out == done + Render(Parse(f, i).value, args).value
    && (known ==> AllKnown(Parse(f, i).value))
  }

  lemma PlainStep(f: string, i: nat, args: seq<Arg>, done: string, out: string, known: bool)
    requires i < |f| && f[i] != '%' && OnTrack(f, i, args, done, out, known)
    ensures OnTrack(f, i + 1, args, done + [f[i]], out, known) && |done| < |out|
  {
    var ds := Parse(f, i + 1).value;
    assert Parse(f, i).value == [Plain(f[i])] + ds;
    assert ([Plain(f[i])] + ds)[1..] == ds;
    var tail := Render(ds, args).value;
    assert done + ([f[i]] + tail) == done + [f[i]] + tail;
  }

  lemma SpecStep(f: string, i: nat, args: seq<Arg>, done: string, out: string, known: bool)
    requires i < |f| && f[i] == '%' && OnTrack(f, i, args, done, out, known)
    ensures ParseSpec(f, i).Some?
    ensures
      var (s, next) := ParseSpec(f, i).value;
      && RenderSpec(s, args).Some?
      && (known ==> IsKnown(s.conv))
      && var (t, rest) := RenderSpec(s, args).value;
         OnTrack(f, next, rest, done + t, out, known) && |done + t| <= |out|
  {
    hide ParseSpec, RenderSpec;
    var (s, next) := ParseSpec(f, i).value;
    var ds := Parse(f, next).value;
    assert Parse(f, i).value == [Conv(s)] + ds;
    assert ([Conv(s)] + ds)[0] == Conv(s) && ([Conv(s)] + ds)[1..] == ds;
    assert Conv(s) in Parse(f, i).value;
    var (t, rest) := RenderSpec(s, args).value;
    var tail := Render(ds, rest).value;
    assert done + (t + tail) == done + t + tail;
  }

  /** What the format demands and where it is cut off carries over to the rest of it. */
  lemma PlainRest(f: string, i: nat, next: nat)
    requires i < |f| && f[i] != '%' && next == i + 1
    ensures Narrow(f, i) ==> Narrow(f, next)
    ensures forall args, pos: nat, limit: nat ::
      RunFrom(f, i, args, pos, limit) == RunFrom(f, next, args, StepPlain(pos, limit), limit)
  {
    if Parse(f, next).Some? {
      var ds := Parse(f, next).value;
      assert Parse(f, i).value == [Plain(f[i])] + ds;
      assert ([Plain(f[i])] + ds)[0] == Plain(f[i]) && ([Plain(f[i])] + ds)[1..] == ds;
    }
  }

  lemma SpecRest(f: string, i: nat, s: Spec, next: nat)
    requires i < |f| && f[i] == '%' && ParseSpec(f, i) == Some((s, next)) && Narrow(f, i)
    ensures Narrow(f, next) && (IsNumeric(s.conv) ==> s.width < UINT_LIMIT - 1)
  {
    WidthBelow(f, i);
  }

  lemma SpecRun(f: string, i: nat, s: Spec, next: nat, args: seq<Arg>, pos: nat, limit: nat)
    requires i < |f| && f[i] == '%' && ParseSpec(f, i) == Some((s, next))
    ensures RunFrom(f, i, args, pos, limit) ==
      match StepSpec(s, args, pos, limit)
      case None => None
      case Some((p, rest)) => RunFrom(f, next, rest, p, limit)
  {
    hide ParseSpec, StepSpec;
    if Parse(f, next).Some? {
      var ds := Parse(f, next).value;
      assert Parse(f, i).value == [Conv(s)] + ds;
      assert ([Conv(s)] + ds)[0] == Conv(s) && ([Conv(s)] + ds)[1..] == ds;
    }
  }

  /** In a buffer `b` where the output fits, the first `pos` characters are done. */
  ghost predicate Track(f: string, i: nat, args: seq<Arg>, b: string, pos: nat, out: string, known: bool) {
    && pos <= |out| < |b| && (!known ==> |out| + 1 < |b|)
    && OnTrack(f, i, args, b[..pos], out, known)
  }

  lemma TrackStart(f: string, args: seq<Arg>, b: string)
    requires Fits(f, args, |b|)
    ensures Parse(f, 0).Some? && Rendered(f, args).Some?
    ensures Track(f, 0, args, b, 0, Rendered(f, args).value, AllKnown(Parse(f, 0).value))
  {
    assert b[..0] + Rendered(f, args).value == Rendered(f, args).value;
  }

  lemma TrackPlain(f: string, i: nat, next: nat, args: seq<Arg>, b: string, b': string, pos: nat, pos': nat,
                   out: string, known: bool)
    requires i < |f| && f[i] != '%' && next == i + 1 && Track(f, i, args, b, pos, out, known)
    requires pos' == pos + 1 && (pos' < |b| ==> Appended(b, b', pos, [f[i]]))
    ensures pos' < |b| && Track(f, next, args, b', pos', out, known)
  {
    PlainStep(f, i, args, b[..pos], out, known);
  }

  lemma TrackRoom(f: string, i: nat, args: seq<Arg>, b: string, pos: nat, out: string, known: bool)
    requires i < |f| && f[i] == '%' && Track(f, i, args, b, pos, out, known)
    ensures ParseSpec(f, i).Some? && RenderSpec(ParseSpec(f, i).value.0, args).Some?
    ensures
      var s := ParseSpec(f, i).value.0;
      pos + |RenderSpec(s, args).value.0| + Slack(s) <= |b|
  {
    hide ParseSpec, RenderSpec;
    SpecStep(f, i, args, b[..pos], out, known);
  }

  lemma TrackSpec(f: string, i: nat, next: nat, args: seq<Arg>, args': seq<Arg>, b: string, b': string, pos: nat,
                  pos': nat, t: string, out: string, known: bool)
    requires i < |f| && f[i] == '%' && Track(f, i, args, b, pos, out, known)
    requires ParseSpec(f, i).Some? && ParseSpec(f, i).value.1 == next
    requires RenderSpec(ParseSpec(f, i).value.0, args) == Some((t, args'))
    requires Appended(b, b', pos, t) && pos' == pos + |t|
    ensures Track(f, next, args', b', pos', out, known)
  {
    hide ParseSpec, RenderSpec;
    SpecStep(f, i, args, b[..pos], out, known);
  }

  lemma TrackEnd(f: string, args: seq<Arg>, b: string, pos: nat, out: string, known: bool)
    requires Track(f, |f|, args, b, pos, out, known)
    ensures pos == |out| < |b| && b[..pos] == out
  {
  }

  lemma CutOff(f: string, i: nat)
    requires i < |f| && f[i] == '%' && ParseSpec(f, i).None?
    ensures forall args, pos: nat, limit: nat :: RunFrom(f, i, args, pos, limit).None?
  {
  }

  lemma RunEnd(f: string, args: seq<Arg>, pos: nat, limit: nat)
    ensures RunFrom(f, |f|, args, pos, limit) == Some(pos)
  {
  }

  /** The buffer starts with `t` and a terminator. */
  ghost predicate Holds(b: string, t: string) {
    |t| < |b| && b[..|t|] == t && b[|t|] == '\0'
  }

  /** A plain character, if there is room for it and a terminator; it is not counted otherwise. */
  method PutPlain(c: char, buf: array<char>, pos: nat) returns (next: nat)
    modifies buf
    ensures next == StepPlain(pos, buf.Length)
    ensures pos + 1 < buf.Length ==> Appended(old(buf[..]), buf[..], pos, [c])
  {
    next := pos;
    if pos + 1 < buf.Length {
      buf[pos] := c;
      next := pos + 1;
    }
  }

  /** `vsnprintf`. The result is exactly `Returned`: None where the source leaves defined behaviour, which
      is a conversion that the format does not finish, an argument that is not there, or a number taken
      for a string. Every write is inside the buffer; a result comes with a terminator; and if the
      reference rendering fits, the buffer holds it and the result is its length. */
  method Vsnprintf(buf: array<char>, f: string, args: seq<Arg>) returns (r: Option<nat>)
    requires buf.Length > 0 && Narrow(f, 0)
    modifies buf
    ensures r == Returned(f, args, buf.Length)
    ensures r.Some? ==> buf[if r.value < buf.Length then r.value else buf.Length - 1] == '\0'
    ensures Fits(f, args, buf.Length) ==>
      r == Some(|Rendered(f, args).value|) && Holds(buf[..], Rendered(f, args).value)
  {
    hide Parse, ParseSpec, RenderSpec, Narrow, Track, Fits, Appended, Rendered, RunFrom, StepSpec;
    ghost var fits := Fits(f, args, buf.Length);
    ghost var out, known := "", true;
    if fits {
      TrackStart(f, args, buf[..]);
      out, known := Rendered(f, args).value, AllKnown(Parse(f, 0).value);
    }
    var i: nat, pos: nat, rest := 0, 0, args;
    while i < |f|
      invariant i <= |f| && Narrow(f, i)
      invariant RunFrom(f, i, rest, pos, buf.Length) == RunFrom(f, 0, args, 0, buf.Length)
      invariant fits ==> Track(f, i, rest, buf[..], pos, out, known)
      decreases |f| - i
    {
      ghost var b, was, taken := buf[..], pos, rest;
      if f[i] == '%' {
        if fits { TrackRoom(f, i, rest, b, pos, out, known); }
        var spec := ScanSpec(f, i);
        if spec.None? { CutOff(f, i); return None; }
        var (s, next) := spec.value;
        SpecRest(f, i, s, next);
        SpecRun(f, i, s, next, rest, pos, buf.Length);
        var put := PutSpec(s, rest, buf, pos);
        if put.None? { return None; }
        pos, rest := put.value.0, put.value.1;
        if fits { TrackSpec(f, i, next, taken, rest, b, buf[..], was, pos, RenderSpec(s, taken).value.0, out, known); }
        i := next;
      } else {
        ghost var more := pos + 1;
        pos := PutPlain(f[i], buf, pos);
        if fits { TrackPlain(f, i, i + 1, rest, b, buf[..], was, more, out, known); }
        PlainRest(f, i, i + 1);
        i := i + 1;
      }
    }
    if fits { TrackEnd(f, rest, buf[..], pos, out, known); }
    RunEnd(f, rest, pos, buf.Length);
    ghost var b := buf[..];
    if pos < buf.Length {
      buf[pos] := '\0';
    } else {
      buf[buf.Length - 1] := '\0';
    }
    if fits { assert buf[..pos] == b[..pos]; }
    r := Some(pos);
  }
}
