/** The text console of drivers/fbcon.c on the pixels of drivers/framebuffer.c, against a tape: a canvas
    without a bottom edge on which nothing ever scrolls. */
module Console {
  import opened Dyadic

  type Color = nat

  /** One byte for each pixel row of a character. */
  type Font = (char, nat) -> nat

  /** The pixel in column `col` of a row is bit `col` of its byte. */
  predicate Lit(font: Font, ch: char, row: nat, col: nat) {
    font(ch, row) / Pow2(col) % 2 == 1
  }

  // ----- the tape -----

  type Canvas = (nat, nat) -> Color

  /** The canvas, by pixel row and column, and the cursor, by text column and row. */
  datatype Tape = Tape(canvas: Canvas, x: nat, y: nat)

  /** Two colours, a font, and the number of text columns. */
  datatype Style = Style(font: Font, fg: Color, bg: Color, cx: nat)

  function Glyph(st: Style, ch: char, row: nat, col: nat): Color {
    if Lit(st.font, ch, row, col) then st.fg else st.bg
  }

  /** A pixel of the text cell (`x`, `y`). */
  predicate InCell(r: nat, c: nat, x: nat, y: nat) {
    8 * y <= r < 8 * y + 8 && 8 * x <= c < 8 * x + 8
  }

  function Draw(canvas: Canvas, st: Style, ch: char, x: nat, y: nat): Canvas {
    (r: nat, c: nat) => if InCell(r, c, x, y) then Glyph(st, ch, r - 8 * y, c - 8 * x) else canvas(r, c)
  }

  function Move(t: Tape, st: Style, ch: char): Tape {
    if ch == '\n' then Tape(t.canvas, 0, t.y + 1) else Tape(Draw(t.canvas, st, ch, t.x, t.y), t.x + 1, t.y)
  }

  /** Wrapping is eager: as soon as the last column is filled. */
  function Wrap(t: Tape, cx: nat): Tape {
    if t.x < cx then t else Tape(t.canvas, 0, t.y + 1)
  }

  /** One character that is not a tab. */
  function Strike(t: Tape, st: Style, ch: char): Tape {
    Wrap(Move(t, st, ch), st.cx)
  }

  /** The text with every tab replaced by four blanks. */
  function Expand(s: string): string {
    if s == "" then ""
    else (if s[0] == '\t' then "    " else [s[0]]) + Expand(s[1..])
  }

  function StrikeAll(t: Tape, st: Style, s: string): Tape
    decreases |s|
  {
    if s == "" then t else StrikeAll(Strike(t, st, s[0]), st, s[1..])
  }

  function TypeText(t: Tape, st: Style, s: string): Tape {
    StrikeAll(t, st, Expand(s))
  }

  lemma {:induction false} StrikeAppend(t: Tape, st: Style, a: string, b: string)
    ensures StrikeAll(t, st, a + b) == StrikeAll(StrikeAll(t, st, a), st, b)
    decreases |a|
  {
    if a == "" {
      assert a + b == b;
    } else {
      assert (a + b)[0] == a[0] && (a + b)[1..] == a[1..] + b;
      StrikeAppend(Strike(t, st, a[0]), st, a[1..], b);
    }
  }

  lemma {:induction false} ExpandAppend(a: string, b: string)
    ensures Expand(a + b) == Expand(a) + Expand(b)
  {
    if a == "" {
      assert a + b == b;
    } else {
      assert (a + b)[0] == a[0] && (a + b)[1..] == a[1..] + b;
      ExpandAppend(a[1..], b);
    }
  }

  /** Writing a text in two calls is writing it in one. */
  lemma TypeAppend(t: Tape, st: Style, a: string, b: string)
    ensures TypeText(t, st, a + b) == TypeText(TypeText(t, st, a), st, b)
  {
    ExpandAppend(a, b);
    StrikeAppend(t, st, Expand(a), Expand(b));
  }

  lemma {:induction false} ExpandPlain(s: string)
    requires '\t' !in s
    ensures Expand(s) == s
  {
    if s != "" { ExpandPlain(s[1..]); }
  }

  lemma TabIsBlanks(t: Tape, st: Style)
    ensures TypeText(t, st, "\t") == TypeText(t, st, "    ")
  {
    ExpandPlain("    ");
    assert "\t"[1..] == "";
    assert Expand("\t") == "    ";
  }

  lemma OneStrike(t: Tape, st: Style, ch: char)
    requires ch != '\t'
    ensures TypeText(t, st, [ch]) == Strike(t, st, ch)
  {
    assert Expand([ch]) == [ch] + Expand([ch][1..]);
    assert StrikeAll(t, st, [ch]) == StrikeAll(Strike(t, st, ch), st, [ch][1..]);
  }

  // ----- the tape is append-only -----

  /** The pixel lies in a cell before the cursor. */
  predicate Before(r: nat, c: nat, x: nat, y: nat) {
    r < 8 * y || (r < 8 * y + 8 && c < 8 * x)
  }

  /** The cursor stays in its columns and moves on, and what lies before it is never changed. */
  lemma {:induction false} StrikeKeeps(t: Tape, st: Style, s: string, r: nat, c: nat)
    requires t.x < st.cx && c < 8 * st.cx && Before(r, c, t.x, t.y)
    ensures
      var t' := StrikeAll(t, st, s);
      t'.x < st.cx && t.y <= t'.y && Before(r, c, t'.x, t'.y) && t'.canvas(r, c) == t.canvas(r, c)
    decreases |s|
  {
    if s != "" {
      StrikeKeeps(Strike(t, st, s[0]), st, s[1..], r, c);
    }
  }

  /** Every character struck stands on the tape for good: lit pixels in the foreground colour and the others in
      the background colour, where the text before it leaves the cursor, whatever is written later. */
  lemma GlyphStays(t: Tape, st: Style, a: string, ch: char, b: string, row: nat, col: nat)
    requires t.x < st.cx && ch != '\n' && row < 8 && col < 8
    ensures
      var at := StrikeAll(t, st, a);
      StrikeAll(t, st, a + [ch] + b).canvas(8 * at.y + row, 8 * at.x + col) ==
        if st.font(ch, row) / Pow2(col) % 2 == 1 then st.fg else st.bg
  {
    var at := StrikeAll(t, st, a);
    CursorInColumns(t, st, a);
    StrikeAppend(t, st, a, [ch] + b);
    assert a + ([ch] + b) == a + [ch] + b;
    assert ([ch] + b)[0] == ch && ([ch] + b)[1..] == b;
    var r, c := 8 * at.y + row, 8 * at.x + col;
    var u := Strike(at, st, ch);
    assert InCell(r, c, at.x, at.y);
    assert u.canvas(r, c) == Draw(at.canvas, st, ch, at.x, at.y)(r, c) == Glyph(st, ch, row, col);
    StrikeKeeps(u, st, b, r, c);
  }

  lemma {:induction false} CursorInColumns(t: Tape, st: Style, s: string)
    requires t.x < st.cx
    ensures StrikeAll(t, st, s).x < st.cx && t.y <= StrikeAll(t, st, s).y
    decreases |s|
  {
    if s != "" {
      CursorInColumns(Strike(t, st, s[0]), st, s[1..]);
    }
  }

  /** Text without line ends fills the cells in reading order, one each. */
  lemma {:induction false} ReadingOrder(t: Tape, st: Style, s: string)
    requires t.x < st.cx && '\n' !in s
    ensures StrikeAll(t, st, s).y * st.cx + StrikeAll(t, st, s).x == t.y * st.cx + t.x + |s|
    decreases |s|
  {
    if s != "" {
      var u := Strike(t, st, s[0]);
      assert s[0] in s;
      assert (t.y + 1) * st.cx == t.y * st.cx + st.cx;
      ReadingOrder(u, st, s[1..]);
    }
  }

  // ----- where the text stands -----

  /** The cells that a text without line ends takes: four for a tab, one for any other character. */
  function Cells(s: string): nat {
    if s == "" then 0 else (if s[0] == '\t' then 4 else 1) + Cells(s[1..])
  }

  /** The length of the first line. */
  function FirstLine(s: string): (i: nat)
    ensures i <= |s| && '\n' !in s[..i] && (i < |s| ==> s[i] == '\n')
    ensures '\n' in s ==> i < |s|
  {
    if s == "" || s[0] == '\n' then 0
    else
      assert s == [s[0]] + s[1..];
      var i := FirstLine(s[1..]) + 1;
      assert s[..i] == [s[0]] + s[1..][..i - 1];
      i
  }

  /** The column behind a text, by counting: the cells since the last line end, in full rows of `cx`. */
  function ColumnAfter(s: string, x: nat, cx: nat): nat
    requires cx > 0
    decreases |s|
  {
    if '\n' in s then ColumnAfter(s[FirstLine(s) + 1..], 0, cx) else (x + Cells(s)) % cx
  }

  /** The row behind a text, by counting: one more for every line end and for every full row of a line. */
  function RowAfter(s: string, x: nat, y: nat, cx: nat): nat
    requires cx > 0
    decreases |s|
  {
    if '\n' in s then
      var i := FirstLine(s);
      RowAfter(s[i + 1..], 0, y + (x + Cells(s[..i])) / cx + 1, cx)
    else y + (x + Cells(s)) / cx
  }

  lemma {:induction false} ExpandedLine(s: string)
    requires '\n' !in s
    ensures '\n' !in Expand(s) && |Expand(s)| == Cells(s)
  {
    if s != "" {
      assert s == [s[0]] + s[1..];
      ExpandedLine(s[1..]);
    }
  }

  lemma LinePlace(t: Tape, st: Style, s: string)
    requires t.x < st.cx && '\n' !in s
    ensures
      var u := TypeText(t, st, s);
      u.x == (t.x + Cells(s)) % st.cx && u.y == t.y + (t.x + Cells(s)) / st.cx
  {
    hide StrikeAll, Expand, Cells;
    var u := TypeText(t, st, s);
    ExpandedLine(s);
    ReadingOrder(t, st, Expand(s));
    CursorInColumns(t, st, Expand(s));
    FullRows(t.x + Cells(s), t.y, st.cx, u.x, u.y);
  }

  lemma FullRows(n: nat, y: nat, cx: nat, x': nat, y': nat)
    requires x' < cx && y <= y' && y' * cx + x' == y * cx + n
    ensures x' == n % cx && y' == y + n / cx
  {
    var k: nat := y' - y;
    assert k * cx == y' * cx - y * cx;
    Quotient(n, k, cx, x');
  }

  /** A line end puts the cursor in the first column of the next row and changes no pixel. */
  lemma LineEnd(t: Tape, st: Style, a: string)
    requires t.x < st.cx
    ensures
      var u := TypeText(t, st, a);
      TypeText(t, st, a + "\n") == Tape(u.canvas, 0, u.y + 1)
  {
    TypeAppend(t, st, a, "\n");
    OneStrike(TypeText(t, st, a), st, '\n');
  }

  /** Where any text leaves the cursor. */
  lemma {:induction false} CursorPlace(t: Tape, st: Style, s: string)
    requires t.x < st.cx
    ensures TypeText(t, st, s).x == ColumnAfter(s, t.x, st.cx)
    ensures TypeText(t, st, s).y == RowAfter(s, t.x, t.y, st.cx)
    decreases |s|
  {
    if '\n' in s {
      var i := FirstLine(s);
      var line, rest := s[..i], s[i + 1..];
      var u := AfterLine(t, st, s, i, line, rest);
      hide TypeText, Cells, FirstLine;
      CursorPlace(u, st, rest);
    } else {
      LinePlace(t, st, s);
    }
  }

  lemma AfterLine(t: Tape, st: Style, s: string, i: nat, line: string, rest: string) returns (u: Tape)
    requires t.x < st.cx && i < |s| && s[i] == '\n' && line == s[..i] && rest == s[i + 1..] && '\n' !in line
    ensures u.x == 0 && u.y == t.y + (t.x + Cells(line)) / st.cx + 1
    ensures TypeText(t, st, s) == TypeText(u, st, rest)
  {
    hide TypeText, Cells;
    assert s == line + "\n" + rest;
    u := TypeText(t, st, line + "\n");
    LinePlace(t, st, line);
    LineEnd(t, st, line);
    TypeAppend(t, st, line + "\n", rest);
  }

  /** Every character of any text has its pixels in the cell that counting gives, for good. */
  lemma GlyphPlace(t: Tape, st: Style, a: string, ch: char, b: string, row: nat, col: nat)
    requires t.x < st.cx && ch != '\n' && ch != '\t' && row < 8 && col < 8
    ensures
      TypeText(t, st, a + [ch] + b).canvas(8 * RowAfter(a, t.x, t.y, st.cx) + row, 8 * ColumnAfter(a, t.x, st.cx) + col) ==
        if st.font(ch, row) / Pow2(col) % 2 == 1 then st.fg else st.bg
  {
    CursorPlace(t, st, a);
    ExpandAppend(a + [ch], b);
    ExpandAppend(a, [ch]);
    ExpandPlain([ch]);
    GlyphStays(t, st, Expand(a), ch, Expand(b), row, col);
  }

  // ----- the screen -----

  /** The text rows that have left a screen of `cy` rows when the cursor is in row `y` of the tape. */
  function Gone(y: nat, cy: nat): nat {
    if y < cy then 0 else y - cy + 1
  }

  /** The pixel rows below the screen are blank. */
  ghost predicate BlankBelow(canvas: Canvas, bg: Color, bottom: nat) {
    forall r: nat, c: nat :: r >= bottom ==> canvas(r, c) == bg
  }

  /** `framebuffer_scroll_up`: row by row and pixel by pixel in place, and yet the old rows arrive. */
  method ScrollUp(screen: array2<Color>, scale: nat, fill: Color)
    modifies screen
    ensures forall y, x :: 0 <= y < screen.Length0 && 0 <= x < screen.Length1 ==>
      screen[y, x] == if y + scale < screen.Length0 then old(screen[y + scale, x]) else fill
  {
    for y := 0 to screen.Length0
      invariant forall v, u :: 0 <= v < y && 0 <= u < screen.Length1 ==>
        screen[v, u] == if v + scale < screen.Length0 then old(screen[v + scale, u]) else fill
      invariant forall v, u :: y <= v < screen.Length0 && 0 <= u < screen.Length1 ==> screen[v, u] == old(screen[v, u])
    {
      for x := 0 to screen.Length1
        invariant forall v, u :: 0 <= v < y && 0 <= u < screen.Length1 ==>
          screen[v, u] == if v + scale < screen.Length0 then old(screen[v + scale, u]) else fill
        invariant forall u :: 0 <= u < x ==>
          screen[y, u] == if y + scale < screen.Length0 then old(screen[y + scale, u]) else fill
        invariant forall u :: x <= u < screen.Length1 ==> screen[y, u] == old(screen[y, u])
        invariant forall v, u :: y < v < screen.Length0 && 0 <= u < screen.Length1 ==> screen[v, u] == old(screen[v, u])
      {
        if y + scale >= screen.Length0 {
          screen[y, x] := fill;
        } else {
          screen[y, x] := screen[y + scale, x];
        }
      }
    }
  }

  /** A canvas that starts with the pixels of the screen. */
  lemma Snapshot(screen: array2<Color>, bg: Color) returns (canvas: Canvas)
    ensures forall r, c :: 0 <= r < screen.Length0 && 0 <= c < screen.Length1 ==> screen[r, c] == canvas(r, c)
    ensures BlankBelow(canvas, bg, screen.Length0)
  {
    var pixels := map r, c | 0 <= r < screen.Length0 && 0 <= c < screen.Length1 :: (r, c) := screen[r, c];
    canvas := (r: nat, c: nat) => if (r, c) in pixels then pixels[(r, c)] else bg;
  }

  class TextConsole {
    const screen: array2<Color>
    const font: Font
    const cx: nat
    const cy: nat
    var x: nat
    var y: nat
    var fg: Color
    var bg: Color
    /** All that was ever written. */
    ghost var tape: Tape

    ghost predicate Shows(top: nat)
      reads this, screen
    {
      forall r, c :: 0 <= r < screen.Length0 && 0 <= c < screen.Length1 ==> screen[r, c] == tape.canvas(8 * top + r, c)
    }

    /** The cursor is in the grid, and the screen is the part of the tape that ends with the row of the
        cursor, or its first part. */
    ghost predicate Valid()
      reads this, screen
    {
      && 0 < cx && 8 * cx <= screen.Length1 && 0 < cy && 8 * cy <= screen.Length0
      && x < cx && y < cy
      && tape.x == x && tape.y == y + Gone(tape.y, cy)
      && Shows(Gone(tape.y, cy))
      && BlankBelow(tape.canvas, bg, 8 * Gone(tape.y, cy) + screen.Length0)
    }

    ghost function CurrentStyle(): Style
      reads this
    {
      Style(font, fg, bg, cx)
    }

    /** `fbcon_init` on a screen with room for a character: the tape starts with what is on the screen. */
    constructor (screen: array2<Color>, font: Font, fg: Color, bg: Color)
      requires screen.Length0 >= 8 && screen.Length1 >= 8
      ensures Valid() && x == 0 && y == 0 && this.screen == screen && this.font == font && this.fg == fg && this.bg == bg
      ensures cx == screen.Length1 / 8 && cy == screen.Length0 / 8
    {
      this.screen, this.font, this.fg, this.bg := screen, font, fg, bg;
      cx, cy := screen.Length1 / 8, screen.Length0 / 8;
      x, y := 0, 0;
      ghost var canvas := Snapshot(screen, bg);
      tape := Tape(canvas, 0, 0);
    }

    /** `fbcon_draw_ch` at a cell of the grid. */
    method DrawChar(ch: char, px: nat, py: nat)
      requires px + 8 <= screen.Length1 && py + 8 <= screen.Length0
      modifies screen
      ensures forall r, c :: 0 <= r < screen.Length0 && 0 <= c < screen.Length1 ==>
        screen[r, c] == if py <= r < py + 8 && px <= c < px + 8
                        then (if Lit(font, ch, r - py, c - px) then fg else bg)
                        else old(screen[r, c])
    {
      for row := 0 to 8
        invariant forall r, c :: 0 <= r < screen.Length0 && 0 <= c < screen.Length1 ==>
          screen[r, c] == if py <= r < py + row && px <= c < px + 8 then Glyph(CurrentStyle(), ch, r - py, c - px)
                          else old(screen[r, c])
      {
        for col := 0 to 8
          invariant forall r, c :: 0 <= r < screen.Length0 && 0 <= c < screen.Length1 ==>
            screen[r, c] == if (py <= r < py + row && px <= c < px + 8) || (r == py + row && px <= c < px + col)
                            then Glyph(CurrentStyle(), ch, r - py, c - px)
                            else old(screen[r, c])
        {
          screen[py + row, px + col] := bg;
          if Lit(font, ch, row, col) {
            screen[py + row, px + col] := fg;
          }
        }
      }
    }

    /** The state between a character and the wrap and scroll after it. */
    ghost predicate Loose(top: nat)
      reads this, screen
    {
      && 0 < cx && 8 * cx <= screen.Length1 && 0 < cy && 8 * cy <= screen.Length0
      && x <= cx && y <= cy && (x == cx ==> y < cy)
      && tape.x == x && tape.y == y + top && (top > 0 ==> y + 1 >= cy)
      && Shows(top) && BlankBelow(tape.canvas, bg, 8 * top + screen.Length0)
    }

    /** A character at the cursor. */
    method Place(ch: char)
      requires Valid()
      modifies this, screen
      ensures Loose(Gone(old(tape.y), cy)) && fg == old(fg) && bg == old(bg)
      ensures tape == Move(old(tape), old(CurrentStyle()), ch)
    {
      if ch == '\n' {
        x := 0;
        y := y + 1;
        tape := Move(tape, CurrentStyle(), ch);
      } else {
        DrawChar(ch, x * 8, y * 8);
        ghost var top := Gone(tape.y, cy);
        ghost var canvas := Draw(tape.canvas, CurrentStyle(), ch, tape.x, tape.y);
        forall r, c | 0 <= r < screen.Length0 && 0 <= c < screen.Length1
          ensures screen[r, c] == canvas(8 * top + r, c)
        {
          assert InCell(8 * top + r, c, tape.x, tape.y) <==> (y * 8 <= r < y * 8 + 8 && x * 8 <= c < x * 8 + 8);
          if InCell(8 * top + r, c, tape.x, tape.y) {
            var i: nat, j: nat := r - y * 8, c - x * 8;
            assert canvas(8 * top + r, c) == Glyph(CurrentStyle(), ch, i, j);
            assert screen[r, c] == if Lit(font, ch, i, j) then fg else bg;
          }
        }
        x := x + 1;
        tape := Tape(canvas, x, tape.y);
      }
    }

    method Scroll(ghost top: nat)
      requires Loose(top) && x < cx && y == cy
      modifies this, screen
      ensures Valid() && tape == old(tape) && fg == old(fg) && bg == old(bg)
    {
      ScrollUp(screen, 8, bg);
      y := y - 1;
    }

    /** The two tests after every character. */
    method Settle(ghost top: nat)
      requires Loose(top)
      modifies this, screen
      ensures Valid() && tape == Wrap(old(tape), cx) && fg == old(fg) && bg == old(bg)
    {
      if x >= cx {
        x := 0;
        y := y + 1;
        tape := Tape(tape.canvas, 0, tape.y + 1);
      }
      if y >= cy { Scroll(top); }
    }

    /** `fbcon_write`: the tape gets the text. */
    method Write(s: string)
      requires Valid()
      modifies this, screen
      ensures Valid() && fg == old(fg) && bg == old(bg)
      ensures tape == TypeText(old(tape), Style(font, fg, bg, cx), s)
      ensures x == tape.x && y == (if tape.y < cy then tape.y else cy - 1)
      ensures forall r, c :: 0 <= r < screen.Length0 && 0 <= c < screen.Length1 ==>
        screen[r, c] == tape.canvas(8 * (tape.y - y) + r, c)
      decreases '\t' in s
    {
      ghost var st := CurrentStyle();
      for i := 0 to |s|
        invariant Valid() && fg == old(fg) && bg == old(bg)
        invariant TypeText(tape, st, s[i..]) == TypeText(old(tape), st, s)
      {
        ghost var top, t := Gone(tape.y, cy), tape;
        assert s[i..] == [s[i]] + s[i + 1..];
        TypeAppend(t, st, [s[i]], s[i + 1..]);
        if s[i] == '\t' {
          Write("    ");
          top := Gone(tape.y, cy);
          TabIsBlanks(t, st);
        } else {
          Place(s[i]);
          OneStrike(t, st, s[i]);
        }
        Settle(top);
      }
    }

    /** `fbcon_set_color`: what is on the screen stays, and what comes into view later has the new
        background. */
    method SetColor(fg: Color, bg: Color)
      requires Valid()
      modifies this
      ensures Valid() && this.fg == fg && this.bg == bg && x == old(x) && y == old(y)
      ensures tape.x == old(tape.x) && tape.y == old(tape.y)
      ensures forall r: nat, c: nat ::
        tape.canvas(r, c) == if r < 8 * Gone(tape.y, cy) + screen.Length0 then old(tape).canvas(r, c) else bg
    {
      this.fg, this.bg := fg, bg;
      ghost var canvas, bottom := tape.canvas, 8 * Gone(tape.y, cy) + screen.Length0;
      tape := tape.(canvas := (r: nat, c: nat) => if r < bottom then canvas(r, c) else bg);
    }
  }
}
