// The terminal a screen buffer stands for: the lines it retains, the part of them on display, and
// the effect of each operation of kernel/screenbuf.c.

module Terminal {
  // A line is 80 words wide (VGA_WIDTH), 25 lines are on display (VGA_HEIGHT), and 200 are
  // retained (SB_HEIGHT).

  type Word = x: int | 0 <= x < 0x10000
  type Byte = x: int | 0 <= x < 0x100
  type Char = x: int | -128 <= x < 128
  type Text = seq<Char>
  type Line = seq<Word>

  const BLANK: Word := 0x0F00   // SB_WHITESPACE

  // lines: the retained lines, oldest first; the last one is being written.
  // view: index of the first line on display. base: ring position of the oldest line.
  // below: the viewport pointer is one buffer length below its ring position.
  datatype Term = Term(lines: seq<Line>, view: nat, color: Byte, base: nat, below: bool)

  // The word for a character: signed characters are extended to 16 bits before the colour is added.
  function Glyph(c: Char, color: Byte): Word {
    if c >= 0 then 256 * color + c else 0xFF00 + (c + 256)
  }

  // The low byte is the character; the high byte is the colour, or all ones for a signed character
  // below zero.
  lemma GlyphBytes(c: Char, color: Byte)
    ensures Glyph(c, color) % 256 == if c >= 0 then c else c + 256
    ensures Glyph(c, color) / 256 == if c >= 0 then color else 0xFF
  {
  }

  // Ring position of line d, counted from ring position base.
  function RingLine(base: nat, d: nat): nat {
    if base + d < 200 then base + d else base + d - 200
  }

  function Last(lines: seq<Line>): Line
    requires lines != []
  {
    lines[|lines| - 1]
  }

  function WithLast(lines: seq<Line>, line: Line): (r: seq<Line>)
    requires lines != []
    ensures |r| == |lines|
  {
    lines[|lines| - 1 := line]
  }

  ghost predicate Ready(t: Term) {
    && 1 <= |t.lines| <= 200
    && (forall d :: 0 <= d < |t.lines| ==> |t.lines[d]| <= 80)
    && t.base < 200
    && t.view < |t.lines| && t.view <= 175
  }

  // A viewport pointer below the buffer still measures the right distance to the cursor.
  ghost predicate Measures(t: Term)
    requires t.lines != []
  {
    t.below ==> CursorLine(t) < RingLine(t.base, t.view)
  }

  ghost predicate Near(t: Term) {
    t.below ==> Depth(t) <= 24
  }

  // Between calls the cursor column is below 80; inside one it may reach 80.
  ghost predicate WellFormed(t: Term) {
    Ready(t) && Measures(t) && Near(t) && |Last(t.lines)| < 80
  }

  function CursorLine(t: Term): nat
    requires t.lines != []
  {
    RingLine(t.base, |t.lines| - 1)
  }

  // Distance, in lines, from the first line on display to the cursor.
  function Depth(t: Term): int {
    |t.lines| - 1 - t.view
  }

  function InitTerm(): Term {
    Term([[]], 0, 0x0F, 0, false)
  }

  // sb_scroll_top, sb_scroll_down, sb_scroll
  function ScrolledTop(t: Term): Term {
    t.(view := 0, below := false)
  }

  // Scrolling down acts only when the cursor is more than 25 lines below the viewport; the new
  // viewport pointer is not wrapped, so it falls below the buffer when the cursor is near its start.
  function ScrolledDown(t: Term): Term
    requires t.lines != []
  {
    if Depth(t) > 25 then t.(view := |t.lines| - 25, below := CursorLine(t) < 24) else t
  }

  function Scrolled(t: Term, n: int): Term
    requires t.lines != []
  {
    var room := if n < 0 then t.view else Depth(t) - 24;
    if room >= (if n < 0 then -n else n) then t.(view := t.view + n, below := false)
    else if n < 0 then ScrolledTop(t)
    else ScrolledDown(t)
  }

  // sb_crlf: a new line; the oldest one is dropped when 200 are retained, and the view follows
  // a cursor that leaves the last line on display.
  function Advanced(t: Term): Term
    requires t.lines != []
  {
    if |t.lines| >= 200 then
      Term(t.lines[1..] + [[]], if t.view == 0 then 0 else t.view - 1, t.color,
           RingLine(t.base, 1), t.below && t.view != 0)
    else t.(lines := t.lines + [[]])
  }

  function Crlf(t: Term): Term
    requires t.lines != []
  {
    var u := Advanced(t);
    if Depth(u) == 25 then Scrolled(u, 1) else u
  }

  // One cell at the cursor, and a new line when it was the last of its line.
  function Regular(t: Term, w: Word): Term
    requires t.lines != []
  {
    var u := t.(lines := WithLast(t.lines, Last(t.lines) + [w]));
    if |Last(u.lines)| == 80 then Crlf(u) else u
  }

  // At least one tab cell, and as many as reach the next multiple of four columns.
  function Tabbed(line: Line, w: Word): (r: Line)
    requires |line| < 80
    ensures |line| < |r| <= 80 && |r| <= |line| + 4 && |r| % 4 == 0
    ensures r[..|line|] == line && forall k :: |line| <= k < |r| ==> r[k] == w
    decreases 80 - |line|
  {
    var r := line + [w];
    if |r| % 4 != 0 && |r| < 80 then Tabbed(r, w) else r
  }

  function Tab(t: Term): Term
    requires t.lines != [] && |Last(t.lines)| < 80
  {
    var u := t.(lines := WithLast(t.lines, Tabbed(Last(t.lines), 256 * t.color)));
    if |Last(u.lines)| == 80 then Crlf(u) else u
  }

  // sb_backspace: nothing happens at the start of the oldest line.
  function Erased(lines: seq<Line>): seq<Line>
    requires lines != []
  {
    var last := Last(lines);
    if last != [] then WithLast(lines, last[..|last| - 1])
    else if |lines| == 1 then lines
    else
      var rest := lines[..|lines| - 1];
      if Last(rest) == [] then rest else WithLast(rest, Last(rest)[..|Last(rest)| - 1])
  }

  function Backspace(t: Term): Term
    requires t.lines != []
  {
    var u := t.(lines := Erased(t.lines));
    // The line left behind was the first on display: the view follows the cursor.
    if t.view > 0 && t.view == |t.lines| - 1 && Last(t.lines) == [] then u.(view := t.view - 1, below := false) else u
  }

  function Putchar(t: Term, c: Char): Term
    requires t.lines != [] && |Last(t.lines)| < 80
  {
    if c == 10 then Crlf(t)
    else if c == 9 then Tab(t)
    else if c == 8 then Backspace(t)
    else Regular(t, Glyph(c, t.color))
  }

  // The line a backspace would move back into has only non-blank cells, and at least one.
  ghost predicate Solid(line: Line) {
    line != [] && forall c :: 0 <= c < |line| ==> line[c] != BLANK
  }

  // Where sb_backspace finds the end of the line it moves back into: before its first blank cell.
  function Scan(line: Line): (r: nat)
    ensures r <= |line| && (forall c :: 0 <= c < r ==> line[c] != BLANK)
    ensures r < |line| ==> line[r] == BLANK
  {
    if line == [] || line[0] == BLANK then 0 else 1 + Scan(line[1..])
  }

  // Subtracting one from a 16-bit column.
  function Decremented(column: nat): nat {
    if column == 0 then 0xFFFF else column - 1
  }

  // The column that results is the right one exactly for a solid line.
  lemma ColumnExact(line: Line)
    requires |line| <= 80
    ensures Decremented(Scan(line)) == |line| - 1 <==> Solid(line)
  {
    hide Scan;
  }

  // It falls below zero, and the cell outside the buffer, exactly when the line is empty or begins
  // with a blank.
  lemma ColumnInside(line: Line, row: nat)
    requires |line| <= 80 && row < 200
    ensures 80 * row + Decremented(Scan(line)) < 16000 <==> line != [] && line[0] != BLANK
  {
    hide Scan;
  }

  // A backspace into such a line.
  ghost predicate Underflows(t: Term) {
    && t.lines != [] && Last(t.lines) == [] && |t.lines| > 1
    && Scan(t.lines[|t.lines| - 2]) == 0
  }

  lemma ErasableStays(t: Term)
    ensures Erasable(t) ==> !Underflows(t)
  {
  }

  ghost predicate Erasable(t: Term) {
    && t.lines != []
    && (Last(t.lines) == [] && |t.lines| > 1 ==> Solid(t.lines[|t.lines| - 2]))
  }

  // A backspace that crosses the start of the buffer while the viewport pointer is below it.
  ghost predicate Strands(t: Term) {
    && t.lines != []
    && t.below && Last(t.lines) == [] && |t.lines| > 1 && CursorLine(t) == 0
  }

  lemma CrlfWellFormed(t: Term)
    requires Ready(t) && Measures(t) && Near(t)
    ensures Ready(Advanced(t)) && Measures(Advanced(t))
    ensures WellFormed(Crlf(t))
  {
  }

  // Every character keeps the pointer invariants, but for a backspace that strands the viewport.
  lemma PutcharWellFormed(t: Term, c: Char)
    requires WellFormed(t)
    ensures WellFormed(Putchar(t, c)) <==> !(c == 8 && Strands(t))
  {
    if c == 8 {
    } else if c == 9 {
      var u := t.(lines := WithLast(t.lines, Tabbed(Last(t.lines), 256 * t.color)));
      if |Last(u.lines)| == 80 {
        CrlfWellFormed(u);
      }
    } else if c == 10 {
      CrlfWellFormed(t);
    } else {
      var u := t.(lines := WithLast(t.lines, Last(t.lines) + [Glyph(c, t.color)]));
      if |Last(u.lines)| == 80 {
        CrlfWellFormed(u);
      }
    }
  }

  lemma ScrollWellFormed(t: Term, n: int)
    requires Ready(t) && Measures(t)
    ensures Ready(Scrolled(t, n)) && Ready(ScrolledTop(t)) && Ready(ScrolledDown(t))
    ensures Measures(Scrolled(t, n)) && Measures(ScrolledTop(t)) && Measures(ScrolledDown(t))
    ensures Near(t) ==> Near(Scrolled(t, n)) && Near(ScrolledTop(t)) && Near(ScrolledDown(t))
  {
  }

  // Scrolling moves the view by n lines, no further than the oldest line, nor further down than the
  // cursor on the last row; when there is less room below, it goes there if the cursor is more than
  // 25 lines down, and nowhere if it is not. Nothing else changes.
  lemma ScrollLaw(t: Term, n: int)
    requires Ready(t)
    ensures var u := Scrolled(t, n);
            && u.lines == t.lines && u.color == t.color && u.base == t.base
            && (n < 0 ==> u.view == if t.view + n > 0 then t.view + n else 0)
            && (0 <= n <= |t.lines| - 25 - t.view ==> u.view == t.view + n)
            && (n >= 0 && n > |t.lines| - 25 - t.view ==>
                  u.view == if |t.lines| - 1 - t.view > 25 then |t.lines| - 25 else t.view)
  {
  }

  lemma ScrollEnds(t: Term)
    requires Ready(t)
    ensures ScrolledTop(t) == t.(view := 0, below := false)
    ensures var u := ScrolledDown(t);
            && u.lines == t.lines && u.color == t.color && u.base == t.base
            && u.view == if |t.lines| - 1 - t.view > 25 then |t.lines| - 25 else t.view
  {
  }

  // One row of the display is one line, filled up with blanks.
  lemma DisplayRow(lines: seq<Line>, view: nat, r: nat)
    requires r < 25 && (view + r < |lines| ==> |lines[view + r]| <= 80)
    ensures Window(lines, view)[80 * r..80 * r + 80] ==
            if view + r < |lines| then lines[view + r] + seq(80 - |lines[view + r]|, _ => BLANK) else seq(80, _ => BLANK)
  {
  }

  // A line break changes the display only when the cursor leaves the last row, which moves it up by
  // one line, and when the line shown first is the one dropped.
  lemma CrlfDisplay(t: Term)
    requires WellFormed(t)
    ensures var u := Crlf(t);
            && u.lines == (if |t.lines| == 200 then t.lines[1..] else t.lines) + [[]]
            && (Depth(t) == 24 ==> Depth(u) == 24 && Window(u.lines, u.view)[..1920] == Window(t.lines, t.view)[80..])
            && (Depth(t) != 24 && !(|t.lines| == 200 && t.view == 0) ==>
                  Depth(u) == Depth(t) + 1 && Window(u.lines, u.view) == Window(t.lines, t.view))
            && (|t.lines| == 200 && t.view == 0 ==> u.view == 0)
  {
    var u := Advanced(t);
    hide Window, RingLine;
    if !(|t.lines| == 200 && t.view == 0) {
      AdvancedDisplay(t);
    }
    if Depth(t) == 24 {
      ShiftedWindow(u.lines, u.view);
    }
  }

  lemma AdvancedDisplay(t: Term)
    requires WellFormed(t) && !(|t.lines| == 200 && t.view == 0)
    ensures Window(Advanced(t).lines, Advanced(t).view) == Window(t.lines, t.view)
  {
    hide Image, Window;
    if |t.lines| == 200 {
      RecycleLine(t.lines, t.base, t.view);
    } else {
      NewLine(t.lines, t.base, t.view);
    }
  }

  lemma ShiftedWindow(lines: seq<Line>, view: nat)
    ensures Window(lines, view + 1)[..1920] == Window(lines, view)[80..]
  {
  }

  // A backspace moves the view only as far as the cursor needs.
  lemma BackspaceView(t: Term)
    requires WellFormed(t)
    ensures var u := Backspace(t);
            && u.lines == Erased(t.lines) && u.color == t.color && u.base == t.base
            && u.view == if |u.lines| - 1 < t.view then |u.lines| - 1 else t.view
  {
  }

  // The word in column c of line d, and the contents of the ring and of the display.
  function Cell(lines: seq<Line>, d: nat, c: nat): Word {
    if d < |lines| && c < |lines[d]| then lines[d][c] else BLANK
  }

  function LineAt(base: nat, p: nat): nat
    requires base < 200
  {
    if p / 80 >= base then p / 80 - base else p / 80 + 200 - base
  }

  ghost function Image(lines: seq<Line>, base: nat): (r: seq<Word>)
    requires base < 200
    ensures |r| == 16000
  {
    seq(16000, p requires 0 <= p < 16000 => Cell(lines, LineAt(base, p), p % 80))
  }

  ghost function Window(lines: seq<Line>, view: nat): (r: seq<Word>)
    ensures |r| == 2000
  {
    seq(2000, k requires 0 <= k < 2000 => Cell(lines, view + k / 80, k % 80))
  }

  function Blanked(image: seq<Word>, line: nat): (r: seq<Word>)
    ensures |r| == |image|
  {
    seq(|image|, p requires 0 <= p < |image| => if p / 80 == line then BLANK else image[p])
  }

  // Writing one cell at the cursor.
  lemma PutCell(lines: seq<Line>, base: nat, view: nat, w: Word)
    requires 1 <= |lines| <= 200 && base < 200 && view < |lines| && |Last(lines)| < 80
    ensures var p := 80 * RingLine(base, |lines| - 1) + |Last(lines)|;
            p < 16000 && Image(WithLast(lines, Last(lines) + [w]), base) == Image(lines, base)[p := w]
    ensures var k := 80 * (|lines| - 1 - view) + |Last(lines)|;
            Window(WithLast(lines, Last(lines) + [w]), view) ==
            if k < 2000 then Window(lines, view)[k := w] else Window(lines, view)
  {
  }

  // Taking the last cell of the cursor line back.
  lemma TakeCell(lines: seq<Line>, base: nat, view: nat)
    requires 1 <= |lines| <= 200 && base < 200 && view < |lines| && 0 < |Last(lines)| <= 80
    ensures var line := Last(lines)[..|Last(lines)| - 1];
            var p := 80 * RingLine(base, |lines| - 1) + |line|;
            p < 16000 && Image(WithLast(lines, line), base) == Image(lines, base)[p := BLANK]
    ensures var line := Last(lines)[..|Last(lines)| - 1];
            var k := 80 * (|lines| - 1 - view) + |line|;
            Window(WithLast(lines, line), view) ==
            if k < 2000 then Window(lines, view)[k := BLANK] else Window(lines, view)
  {
  }

  // The cells written by a character stay where the cursor was, also when a line break follows.
  lemma CellsStay(t: Term, line: Line, k: nat)
    requires Ready(t) && |line| <= 80 && k < |line|
    ensures var u := t.(lines := WithLast(t.lines, line));
            var v := if |line| == 80 then Crlf(u) else u;
            v.base < 200 && 80 * CursorLine(t) + k < 16000 && Image(v.lines, v.base)[80 * CursorLine(t) + k] == line[k]
  {
    var u := t.(lines := WithLast(t.lines, line));
    var p := 80 * CursorLine(t) + k;
    assert Image(u.lines, u.base)[p] == line[k];
    if |line| == 80 {
      var v := Crlf(u);
      assert v.lines == Advanced(u).lines && v.base == Advanced(u).base;
      if |u.lines| == 200 {
        assert v.lines[198] == line;
      } else {
        assert v.lines[|u.lines| - 1] == line;
      }
    }
  }

  // A new line while fewer than 200 are retained: it is blank already.
  lemma NewLine(lines: seq<Line>, base: nat, view: nat)
    requires 1 <= |lines| < 200 && base < 200
    ensures Image(lines + [[]], base) == Image(lines, base)
    ensures Window(lines + [[]], view) == Window(lines, view)
    ensures Blanked(Image(lines, base), RingLine(base, |lines|)) == Image(lines, base)
  {
  }

  // A new line when 200 are retained: it takes the ring position of the oldest.
  lemma RecycleLine(lines: seq<Line>, base: nat, view: nat)
    requires |lines| == 200 && base < 200 && 0 < view <= 175
    ensures RingLine(base, 1) < 200
    ensures Image(lines[1..] + [[]], RingLine(base, 1)) == Blanked(Image(lines, base), base)
    ensures Window(lines[1..] + [[]], view - 1) == Window(lines, view)
  {
  }

  // An empty last line leaves no trace.
  lemma EmptyLast(lines: seq<Line>, base: nat, view: nat)
    requires 1 < |lines| <= 200 && base < 200 && Last(lines) == []
    ensures Image(lines[..|lines| - 1], base) == Image(lines, base)
    ensures Window(lines[..|lines| - 1], view) == Window(lines, view)
  {
  }

  // The row of the display that shows line view + r, as the ring holds it.
  lemma WindowRow(lines: seq<Line>, base: nat, view: nat, r: nat)
    requires base < 200 && view <= 175 && r < 25
    ensures RingLine(base, view + r) < 200
    ensures Image(lines, base)[80 * RingLine(base, view + r)..80 * RingLine(base, view + r) + 80] == Window(lines, view)[80 * r..80 * r + 80]
  {
  }

  // A string of characters, one after the other.
  function Typed(t: Term, s: seq<Char>): Term
    requires t.lines != [] && |Last(t.lines)| < 80
    decreases |s|
  {
    if s == [] then t
    else
      var u := Putchar(t, s[0]);
      if u.lines != [] && |Last(u.lines)| < 80 then Typed(u, s[1..]) else u
  }

  // Every backspace of the string is one that sb_backspace handles.
  ghost predicate Printable(t: Term, s: seq<Char>)
    decreases |s|
  {
    && WellFormed(t)
    && (s != [] ==>
          && (s[0] == 8 ==> Erasable(t) && !Strands(t))
          && Printable(Putchar(t, s[0]), s[1..]))
  }

  lemma TypedNil(t: Term)
    requires WellFormed(t)
    ensures Typed(t, []) == t
  {
  }

  lemma TypedStep(t: Term, s: seq<Char>)
    requires Printable(t, s) && s != []
    ensures s[0] == 8 ==> Erasable(t) && !Strands(t)
    ensures WellFormed(Putchar(t, s[0])) && Printable(Putchar(t, s[0]), s[1..])
    ensures Typed(t, s) == Typed(Putchar(t, s[0]), s[1..])
  {
    hide Putchar;
    PutcharWellFormed(t, s[0]);
  }

  // One string after another.
  lemma {:induction false} TypedJoin(t: Term, a: seq<Char>, b: seq<Char>)
    requires Printable(t, a)
    ensures t.lines != [] && |Last(t.lines)| < 80 && WellFormed(Typed(t, a))
    ensures Typed(t, a + b) == Typed(Typed(t, a), b)
    ensures Printable(Typed(t, a), b) ==> Printable(t, a + b)
    decreases |a|
  {
    hide Putchar;
    if a == [] {
      assert a + b == b;
    } else {
      TypedStep(t, a);
      assert (a + b)[0] == a[0] && (a + b)[1..] == a[1..] + b;
      TypedJoin(Putchar(t, a[0]), a[1..], b);
    }
  }

  lemma TypedOne(t: Term, c: Char)
    requires t.lines != [] && |Last(t.lines)| < 80
    ensures Typed(t, [c]) == Putchar(t, c)
  {
    hide Putchar;
    assert [c][1..] == [];
  }

  // The cursor is on display, and the viewport pointer inside the buffer.
  ghost predicate Following(t: Term)
    requires t.lines != []
  {
    !t.below && Depth(t) <= 24
  }

  // While nothing is scrolled away from the cursor, typing keeps it on display, and no backspace
  // strands the viewport pointer.
  lemma TypingFollows(t: Term, c: Char)
    requires WellFormed(t) && Following(t)
    ensures !Strands(t) && ScrolledDown(t) == t
    ensures Following(Putchar(t, c))
  {
  }

  lemma {:induction false} TypedFollows(t: Term, s: seq<Char>)
    requires Printable(t, s)
    ensures WellFormed(Typed(t, s)) && (Following(t) ==> Following(Typed(t, s)))
    decreases |s|
  {
    if s != [] {
      TypedStep(t, s);
      if Following(t) {
        TypingFollows(t, s[0]);
      }
      hide Putchar, WellFormed, Following;
      TypedFollows(Putchar(t, s[0]), s[1..]);
    }
  }
}
