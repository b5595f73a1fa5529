// The circular screen buffer of kernel/screenbuf.c, with the VGA text memory it mirrors.

module ScreenBuf {
  import opened Terminal

  class ScreenBuf {
    // Positions in the buffer are word offsets from its start (`buf` in the source, with
    // endbuf == 16000); viewport may be negative, see ScrollDown.
    var top: nat
    var viewport: int
    var cursor: nat
    var cursorOffset: nat
    var color: Byte
    var loaded: bool
    const buf: array<Word>
    // The VGA text memory; its first 2000 words are visible.
    const vga: array<Word>
    // What the buffer stands for.
    ghost var term: Term

    // The buffer holds the retained lines, each padded with blanks, and nothing else.
    ghost predicate Kept()
      reads this, buf
    {
      && buf.Length == 16000 && vga.Length >= 16000 && buf != vga
      && Ready(term)
      && top == 80 * term.base && cursor == 80 * CursorLine(term) && color == term.color
      && buf[..] == Image(term.lines, term.base)
    }

    // And the cursor is at the end of the last one.
    ghost predicate Held()
      reads this, buf
    {
      Kept() && cursorOffset == |Last(term.lines)|
    }

    ghost predicate Placed()
      reads this
    {
      && term.base < 200 && term.lines != [] && Measures(term)
      && viewport == 80 * RingLine(term.base, term.view) - (if term.below then 16000 else 0)
    }

    // While loaded, the visible words are the 25 lines from the view on.
    ghost predicate Shown()
      reads this, vga
    {
      && vga.Length >= 16000
      && (loaded ==> vga[..2000] == Window(term.lines, term.view))
    }

    ghost predicate Steady()
      reads this, buf, vga
    {
      Held() && Placed() && Shown()
    }

    ghost predicate Valid()
      reads this, buf, vga
    {
      Steady() && Near(term) && cursorOffset < 80
    }

    // sb_init
    constructor Init(vga: array<Word>)
      requires vga.Length >= 16000
      ensures Valid() && term == InitTerm() && !loaded && this.vga == vga && fresh(buf)
    {
      top, viewport, cursor, cursorOffset := 0, 0, 0, 0;
      color := 0x0F;
      loaded := false;
      buf := new Word[16000];
      this.vga := vga;
      term := InitTerm();
      new;
      Memset(0, BLANK, 16000);
      assert buf[..] == Image([[]], 0);
    }

    // sb_memset
    method Memset(start: nat, word: Word, n: nat)
      requires start + n <= buf.Length
      modifies buf
      ensures forall k :: 0 <= k < buf.Length ==> buf[k] == if start <= k < start + n then word else old(buf[k])
    {
      var left := n;
      var ptr := start;
      while left != 0
        invariant 0 <= left <= n && ptr == start + (n - left)
        invariant forall k :: 0 <= k < buf.Length ==> buf[k] == if start <= k < ptr then word else old(buf[k])
      {
        left := left - 1;
        buf[ptr] := word;
        ptr := ptr + 1;
      }
    }

    // sb_sync
    method Sync()
      requires buf.Length == 16000 && vga.Length >= 16000 && buf != vga
      requires Placed() && term.view <= 175 && buf[..] == Image(term.lines, term.base)
      modifies vga
      ensures Shown() && buf[..] == old(buf[..])
      ensures !loaded ==> vga[..] == old(vga[..])
    {
      hide Image, Window, RingLine, Measures;
      if loaded {
        for i := 0 to 25
          invariant vga[..80 * i] == Window(term.lines, term.view)[..80 * i]
          invariant buf[..] == old(buf[..])
        {
          var line := AddLine(viewport, i);
          RowStart(term, i);
          WindowRow(term.lines, term.base, term.view, i);
          CopyRow(80 * i, line);
        }
      }
    }

    // memcpy of one line to the screen
    method CopyRow(row: nat, line: nat)
      requires row + 80 <= vga.Length && line + 80 <= buf.Length && buf != vga
      modifies vga
      ensures vga[row..row + 80] == buf[line..line + 80]
      ensures vga[..row] == old(vga[..row])
    {
      for c := 0 to 80
        invariant vga[row..row + c] == buf[line..line + c]
        invariant vga[..row] == old(vga[..row])
      {
        vga[row + c] := buf[line + c];
      }
    }

    // sb_load, sb_unload, sb_set_color
    method Load()
      requires Valid()
      modifies this`loaded, vga
      ensures Valid() && loaded && vga[..2000] == Window(term.lines, term.view)
    {
      loaded := true;
      Sync();
    }

    method Unload()
      requires Valid()
      modifies this`loaded
      ensures Valid() && !loaded
    {
      loaded := false;
    }

    method SetColor(color: Byte)
      requires Valid()
      modifies this`color, this`term
      ensures Valid() && term == old(term).(color := color)
    {
      this.color := color;
      term := term.(color := color);
    }

    // sb_scroll_top
    method ScrollTop()
      requires Steady()
      modifies this`viewport, this`term, vga
      ensures Steady() && term == ScrolledTop(old(term)) && term.lines == old(term).lines && term.view == 0
      ensures loaded ==> vga[..2000] == Window(old(term).lines, 0)
      ensures !loaded ==> vga[..] == old(vga[..])
    {
      ScrollWellFormed(term, 0);
      viewport := top;
      term := ScrolledTop(term);
      Sync();
    }

    // sb_scroll_down
    method ScrollDown()
      requires Steady()
      modifies this`viewport, this`term, vga
      ensures Steady() && term == ScrolledDown(old(term)) && term.lines == old(term).lines
      ensures var rows := |old(term).lines|;
              term.view == if rows - 1 - old(term).view > 25 then rows - 25 else old(term).view
      ensures loaded ==> vga[..2000] == Window(old(term).lines, term.view)
      ensures !loaded ==> vga[..] == old(vga[..])
    {
      Distances(term);
      ScrollWellFormed(term, 0);
      if LDiff(viewport, cursor) > 25 {
        viewport := cursor - 80 * (25 - 1);
        term := ScrolledDown(term);
        Sync();
      }
    }

    // sb_scroll
    method Scroll(n: int)
      requires Steady()
      modifies this`viewport, this`term, vga
      ensures Steady() && term == Scrolled(old(term), n) && term.lines == old(term).lines
      ensures var rows, view := |old(term).lines|, old(term).view;
              && (n < 0 ==> term.view == if view + n > 0 then view + n else 0)
              && (0 <= n <= rows - 25 - view ==> term.view == view + n)
              && (n >= 0 && n > rows - 25 - view ==> term.view == if rows - 1 - view > 25 then rows - 25 else view)
      ensures loaded ==> vga[..2000] == Window(old(term).lines, term.view)
      ensures !loaded ==> vga[..] == old(vga[..])
    {
      hide Image, Window, RingLine;
      ScrollLaw(term, n);
      ScrollWellFormed(term, n);
      Distances(term);
      var room := if n < 0 then LDiff(top, viewport) else LDiff(viewport, cursor) - (25 - 1);
      if room >= (if n < 0 then -n else n) {
        RowStart(term, n);
        viewport := AddLine(viewport, n);
        term := Scrolled(term, n);
        Sync();
      } else {
        if n < 0 {
          ScrollTop();
        } else {
          ScrollDown();
        }
      }
    }

    // sb_write_word
    method WriteWord(word: Word)
      requires buf.Length == 16000 && vga.Length >= 16000 && buf != vga
      requires cursor + cursorOffset < 16000 && cursorOffset < 80 && Diff(viewport, cursor) >= 0
      modifies buf, vga
      ensures buf[..] == old(buf[..])[cursor + cursorOffset := word]
      ensures vga[..] == if loaded && LDiff(viewport, cursor) < 25
                         then old(vga[..])[Diff(viewport, cursor) + cursorOffset := word] else old(vga[..])
    {
      ghost var cells, screen := buf[..], vga[..];
      buf[cursor + cursorOffset] := word;
      assert buf[..] == cells[cursor + cursorOffset := word];
      if loaded {
        var diff := Diff(viewport, cursor);
        if diff / 80 < 25 {
          vga[diff + cursorOffset] := word;
          assert vga[..] == screen[diff + cursorOffset := word];
        }
      }
    }

    // sb_crlf
    method Crlf()
      requires Steady() && Near(term)
      modifies this`top, this`viewport, this`cursor, this`cursorOffset, this`term, buf, vga
      ensures Valid() && term == Terminal.Crlf(old(term))
      ensures !loaded ==> vga[..] == old(vga[..])
    {
      CrlfWellFormed(term);
      Advance();
      Distances(term);
      if LDiff(viewport, cursor) == 25 {
        Scroll(1);
      }
    }

    // The part of sb_crlf before the view is made to follow the cursor.
    method Advance()
      requires Steady() && Near(term)
      modifies this`top, this`viewport, this`cursor, this`cursorOffset, this`term, buf, vga
      ensures Steady() && term == Advanced(old(term))
      ensures !loaded ==> vga[..] == old(vga[..])
    {
      hide Image, Window, Blanked, RingLine, CursorLine, Measures;
      CrlfWellFormed(term);
      NextLine(term);
      ghost var cells := buf[..];
      cursorOffset := 0;
      cursor := AddLine(cursor, 1);
      Memset(cursor, BLANK, 80);
      BlankRow(cells, buf[..], cursor / 80);
      ghost var t := term;
      term := Advanced(term);
      if cursor == top {
        RecycleLine(t.lines, t.base, if t.view == 0 then 1 else t.view);
        DropOldest(t);
      } else {
        NewLine(t.lines, t.base, t.view);
      }
    }

    // The ring line of the oldest line has been taken over by the new one.
    method DropOldest(ghost t: Term)
      requires Ready(t) && |t.lines| == 200 && Measures(t) && Near(t) && term == Advanced(t)
      requires buf.Length == 16000 && vga.Length >= 16000 && buf != vga && buf[..] == Image(term.lines, term.base)
      requires cursor == top == 80 * t.base && cursorOffset == 0 && color == term.color
      requires viewport == 80 * RingLine(t.base, t.view) - (if t.below then 16000 else 0)
      requires loaded ==> vga[..2000] == Window(t.lines, t.view)
      modifies this`top, this`viewport, vga
      ensures Steady()
      ensures !loaded ==> vga[..] == old(vga[..])
    {
      hide Image, Window, RingLine, CursorLine, Measures;
      CrlfWellFormed(t);
      NextLine(t);
      RecycleLine(t.lines, t.base, if t.view == 0 then 1 else t.view);
      if viewport == top {
        viewport := AddLine(top, 1);
        Sync();
      }
      top := AddLine(top, 1);
    }

    // sb_regular
    method PutRegular(c: Char)
      requires Valid()
      modifies this`top, this`viewport, this`cursor, this`cursorOffset, this`term, buf, vga
      ensures Valid() && term == Regular(old(term), Glyph(c, color))
      ensures buf.Length == 16000 && old(cursor + cursorOffset) < 16000
      ensures buf[old(cursor + cursorOffset)] % 256 == if c >= 0 then c else c + 256
      ensures buf[old(cursor + cursorOffset)] / 256 == if c >= 0 then old(color) else 0xFF
      ensures !loaded ==> vga[..] == old(vga[..])
    {
      hide Image, Window, Glyph, RingLine, CursorLine, Measures, Diff, Scrolled, Advanced;
      ghost var t, cells, screen := term, buf[..], vga[..];
      CellPlace(t, Glyph(c, color));
      buf[cursor + cursorOffset] := Glyph(c, color);
      assert buf[..] == cells[cursor + cursorOffset := Glyph(c, color)];
      cursorOffset := cursorOffset + 1;
      if loaded {
        var diff := Diff(viewport, cursor);
        vga[diff + cursorOffset - 1] := buf[cursor + cursorOffset - 1];
        assert vga[..] == screen[diff + cursorOffset - 1 := Glyph(c, color)];
      }
      term := CellAdded(t, Glyph(c, color));
      if cursorOffset == 80 {
        Crlf();
      }
      GlyphBytes(c, color);
      RegularCell(t, Glyph(c, color));
      assert buf[..][80 * CursorLine(t) + |Last(t.lines)|] == Glyph(c, color);
    }

    // sb_tabulation
    method PutTab()
      requires Valid()
      modifies this`top, this`viewport, this`cursor, this`cursorOffset, this`term, buf, vga
      ensures Valid() && term == Tab(old(term))
      ensures buf.Length == 16000 && old(cursor) + 80 <= 16000
      ensures forall p :: old(cursor + cursorOffset) <= p < old(cursor + (cursorOffset / 4 + 1) * 4) ==>
                p < 16000 && buf[p] % 256 == 0 && buf[p] / 256 == old(color)
      ensures !loaded ==> vga[..] == old(vga[..])
    {
      hide Image, Window, RingLine;
      ghost var t := term;
      ghost var word: Word := 256 * color;
      while true
        invariant Valid() && color == old(color)
        invariant term == t.(lines := WithLast(t.lines, Last(term.lines)))
        invariant Tabbed(Last(term.lines), word) == Tabbed(Last(t.lines), word)
        invariant !loaded ==> vga[..] == old(vga[..])
        decreases 80 - cursorOffset
      {
        ghost var line := Last(term.lines);
        PutWord(256 * color);
        if !(cursorOffset % 4 != 0 && cursorOffset < 80) {
          assert Last(term.lines) == Tabbed(line, word);
          break;
        }
      }
      assert term == t.(lines := WithLast(t.lines, Tabbed(Last(t.lines), 256 * t.color)));
      if cursorOffset == 80 {
        Crlf();
      }
      TabCells(t, buf[..]);
    }

    // One cell at the cursor through sb_write_word, and the cursor after it.
    method PutWord(word: Word)
      requires Valid()
      modifies this`cursorOffset, this`term, buf, vga
      ensures Steady() && Near(term)
      ensures term == old(term).(lines := WithLast(old(term).lines, Last(old(term).lines) + [word]))
      ensures !loaded ==> vga[..] == old(vga[..])
    {
      hide Image, Window, RingLine, CursorLine, Measures, Diff;
      ghost var t, screen := term, vga[..];
      CellPlace(t, word);
      WriteWord(word);
      cursorOffset := cursorOffset + 1;
      term := CellAdded(t, word);
    }

    // sb_backspace, when the column does not fall below zero. A cell is blanked; the buffer goes on
    // standing for the terminal exactly when the line entered is solid; and the display misses the
    // cell exactly when the step strands the viewport pointer below the buffer.
    method PutBackspace()
      requires Valid() && !Underflows(term)
      modifies this`viewport, this`cursor, this`cursorOffset, this`term, buf, vga
      ensures term == Terminal.Backspace(old(term)) && cursorOffset < 80 && cursor + cursorOffset < 16000
      ensures buf.Length == 16000 && buf[..] == old(buf[..])[cursor + cursorOffset := BLANK]
      ensures Held() <==> Erasable(old(term))
      ensures Valid() <==> Erasable(old(term)) && !Strands(old(term))
      ensures Erasable(old(term)) ==> (Shown() <==> !(loaded && Strands(old(term))))
      ensures !loaded ==> vga[..] == old(vga[..])
    {
      hide Image, Window, RingLine, Measures, Strands, Erasable, Underflows, Terminal.Backspace;
      ghost var t := term;
      if cursorOffset == 0 {
        CursorAtTop(t);
        if cursor == top {
          NothingErased(t);
          LineCell(t, 0);
          return;
        }
        StepBackFacts(t);
        StepBack();
      } else {
        EraseFacts(t);
      }
      Erase();
    }

    // The cursor goes back to the previous line, and the view with it when it was at the cursor.
    method StepBack()
      requires Valid() && Last(term.lines) == [] && |term.lines| > 1
      modifies this`viewport, this`cursor, this`cursorOffset, this`term, vga
      ensures Kept() && Shown() && term == SteppedBack(old(term)) && cursorOffset == Scan(Last(term.lines))
      ensures viewport == 80 * RingLine(term.base, term.view) - (if term.below then 16000 else 0)
      ensures !loaded ==> vga[..] == old(vga[..])
    {
      hide Image, Window;
      Distances(term);
      if viewport == cursor {
        Scroll(-1);
      }
      cursorOffset := 0;
      MoveBack();
    }

    // The cursor goes back to the end of the previous line, as far as it can be seen.
    method MoveBack()
      requires Held() && Shown() && term.base < 200
      requires |term.lines| > 1 && Last(term.lines) == [] && term.view <= |term.lines| - 2
      modifies this`cursor, this`cursorOffset, this`term
      ensures Kept() && Shown() && cursorOffset == Scan(Last(term.lines))
      ensures term == old(term).(lines := old(term).lines[..|old(term).lines| - 1])
    {
      hide Image, Window, RingLine, Scan;
      EmptyLast(term.lines, term.base, term.view);
      PreviousLine(term);
      ghost var line := term.lines[|term.lines| - 2];
      term := term.(lines := term.lines[..|term.lines| - 1]);
      cursor := AddLine(cursor, -1);
      LineCell(term, 0);
      assert line == Last(term.lines);
      while cursorOffset < 80 && buf[cursor + cursorOffset] != BLANK
        invariant cursorOffset <= |line| <= 80
        invariant forall c :: 0 <= c < cursorOffset ==> line[c] != BLANK
        modifies this`cursorOffset
      {
        LineCell(term, cursorOffset);
        assert buf[..][cursor + cursorOffset] == buf[cursor + cursorOffset];
        cursorOffset := cursorOffset + 1;
      }
      if cursorOffset < 80 {
        LineCell(term, cursorOffset);
        assert buf[..][cursor + cursorOffset] == BLANK;
      }
      ScanStops(line, cursorOffset);
    }

    // The cell before the cursor becomes blank.
    method Erase()
      requires Kept() && Shown() && 0 < cursorOffset <= |Last(term.lines)|
      requires viewport == 80 * RingLine(term.base, term.view) - (if term.below then 16000 else 0)
      requires !Measures(term) && cursorOffset == |Last(term.lines)| ==>
                 Depth(term) <= 24 && Last(term.lines)[cursorOffset - 1] != BLANK
      modifies this`cursorOffset, this`term, buf, vga
      ensures term == LastErased(old(term)) && cursorOffset < 80 && cursor + cursorOffset < 16000
      ensures buf[..] == old(buf[..])[cursor + cursorOffset := BLANK]
      ensures Held() <==> old(cursorOffset) == |Last(old(term).lines)|
      ensures Held() ==> (Shown() <==> Measures(term) || !loaded)
      ensures !loaded ==> vga[..] == old(vga[..])
    {
      hide Image, Window, RingLine, CursorLine, Measures, Diff, LDiff;
      ghost var t, screen, column := term, vga[..], cursorOffset;
      ErasePlace(t);
      cursorOffset := cursorOffset - 1;
      WriteWord(BLANK);
      term := LastErased(t);
      if column == |Last(t.lines)| {
        EraseShown(t, screen, vga[..], loaded);
      }
    }

    // sb_putchar
    method Putchar(c: Char)
      requires Valid() && (c == 8 ==> !Underflows(term))
      modifies this`top, this`viewport, this`cursor, this`cursorOffset, this`term, buf, vga
      ensures term == Terminal.Putchar(old(term), c)
      ensures c != 8 && c != 9 && c != 10 ==>
                && buf.Length == 16000 && old(cursor + cursorOffset) < 16000
                && buf[old(cursor + cursorOffset)] % 256 == (if c >= 0 then c else c + 256)
                && buf[old(cursor + cursorOffset)] / 256 == (if c >= 0 then old(color) else 0xFF)
      ensures Valid() <==> (c == 8 ==> Erasable(old(term)) && !Strands(old(term)))
      ensures Held() <==> (c == 8 ==> Erasable(old(term)))
      ensures !loaded ==> vga[..] == old(vga[..])
    {
      hide Image, Window, Erasable, Strands, Underflows;
      if c == 10 {
        Crlf();
      } else if c == 9 {
        PutTab();
      } else if c == 8 {
        PutBackspace();
      } else {
        PutRegular(c);
      }
    }

    // sb_putstr, on the characters before the terminating zero
    method Putstr(s: seq<Char>)
      requires Valid() && Printable(term, s)
      modifies this`top, this`viewport, this`cursor, this`cursorOffset, this`term, buf, vga
      ensures Valid() && term == Typed(old(term), s)
      ensures !loaded ==> vga[..] == old(vga[..])
    {
      hide Terminal.Putchar, Image, Window, Held, Placed, Shown;
      assert s[0..] == s;
      for k := 0 to |s|
        invariant Valid() && WellFormed(term) && Printable(term, s[k..])
        invariant Typed(old(term), s) == Typed(term, s[k..])
        invariant !loaded ==> vga[..] == old(vga[..])
      {
        TypedStep(term, s[k..]);
        assert s[k..][1..] == s[k + 1..];
        Putchar(s[k]);
      }
      assert s[|s|..] == [];
      TypedNil(term);
    }

    // sb_clear
    method Clear()
      requires Valid()
      modifies this`top, this`viewport, this`cursor, this`cursorOffset, this`term, buf, vga
      ensures Valid() && term == InitTerm().(color := old(term).color)
      ensures !loaded ==> vga[..] == old(vga[..])
    {
      top, viewport, cursor, cursorOffset := 0, 0, 0, 0;
      Memset(0, BLANK, 16000);
      term := InitTerm().(color := term.color);
      assert buf[..] == Image([[]], 0);
      Sync();
    }
  }

  lemma BlankRow(cells: seq<Word>, now: seq<Word>, line: nat)
    requires |cells| == |now|
    requires forall k :: 0 <= k < |now| ==> now[k] == if 80 * line <= k < 80 * line + 80 then BLANK else cells[k]
    ensures now == Blanked(cells, line)
  {
  }

  // The word on display for a cell of the cursor line.
  lemma WindowCell(lines: seq<Line>, view: nat, depth: int, c: nat)
    requires lines != [] && depth == |lines| - 1 - view && c < |Last(lines)| <= 80
    ensures 0 <= depth < 25 ==> Window(lines, view)[80 * depth + c] == Last(lines)[c]
  {
  }

  lemma CursorAtTop(t: Term)
    requires Ready(t)
    ensures CursorLine(t) == t.base <==> |t.lines| == 1
  {
  }

  // The terminal whose cursor has gone back over a line break.
  ghost function SteppedBack(t: Term): Term
    requires |t.lines| > 1
  {
    var u := t.(lines := t.lines[..|t.lines| - 1]);
    if t.view == |t.lines| - 1 then u.(view := t.view - 1, below := false) else u
  }

  lemma StepBackFacts(t: Term)
    requires WellFormed(t) && Last(t.lines) == [] && |t.lines| > 1 && !Underflows(t)
    ensures var u := SteppedBack(t);
            var line := Last(u.lines);
            && 0 < Scan(line) <= |line|
            && (Scan(line) == |line| <==> Erasable(t))
            && LastErased(u) == Terminal.Backspace(t)
            && Depth(LastErased(u)) == Depth(u)
            && (Measures(u) <==> !Strands(t)) && (Measures(LastErased(u)) <==> !Strands(t))
            && (!Measures(u) ==> Depth(u) <= 24)
            && (Scan(line) == |line| ==> line[|line| - 1] != BLANK)
  {
  }

  lemma EraseFacts(t: Term)
    requires WellFormed(t) && Last(t.lines) != []
    ensures LastErased(t) == Terminal.Backspace(t) && Measures(LastErased(t)) && Near(LastErased(t))
    ensures Erasable(t) && !Strands(t)
  {
  }

  lemma NothingErased(t: Term)
    requires WellFormed(t) && |t.lines| == 1 && Last(t.lines) == []
    ensures Terminal.Backspace(t) == t && Erasable(t) && !Strands(t)
  {
  }

  lemma ScanStops(line: Line, c: nat)
    requires c <= |line| && forall k :: 0 <= k < c ==> line[k] != BLANK
    requires c < |line| ==> line[c] == BLANK
    ensures Scan(line) == c
  {
  }

  lemma PreviousLine(t: Term)
    requires Ready(t) && |t.lines| > 1
    ensures (80 * CursorLine(t) + -1 * 80) % 16000 == 80 * RingLine(t.base, |t.lines| - 2)
  {
  }

  lemma LineCell(t: Term, c: nat)
    requires Ready(t) && c < 80
    ensures 80 * CursorLine(t) + c < 16000
    ensures Image(t.lines, t.base)[80 * CursorLine(t) + c] == if c < |Last(t.lines)| then Last(t.lines)[c] else BLANK
  {
  }

  // The terminal with one more cell on its last line.
  ghost function CellAdded(t: Term, w: Word): Term
    requires t.lines != []
  {
    t.(lines := WithLast(t.lines, Last(t.lines) + [w]))
  }

  // Where that cell goes, and what the buffer and the display hold with it.
  lemma CellPlace(t: Term, w: Word)
    requires Ready(t) && Measures(t) && Near(t) && |Last(t.lines)| < 80
    ensures var u := CellAdded(t, w);
            && Ready(u) && Measures(u) && Near(u)
            && CursorLine(u) == CursorLine(t) && |Last(u.lines)| == |Last(t.lines)| + 1
    ensures var v := 80 * RingLine(t.base, t.view) - (if t.below then 16000 else 0);
            var p := 80 * CursorLine(t) + |Last(t.lines)|;
            var k := Diff(v, 80 * CursorLine(t)) + |Last(t.lines)|;
            var u := CellAdded(t, w);
            && p < 16000 && Image(u.lines, u.base) == Image(t.lines, t.base)[p := w]
            && 0 <= Diff(v, 80 * CursorLine(t)) <= k < 16000
            && (LDiff(v, 80 * CursorLine(t)) < 25 <==> k < 2000)
            && Window(u.lines, u.view) == if k < 2000 then Window(t.lines, t.view)[k := w] else Window(t.lines, t.view)
  {
    PutCell(t.lines, t.base, t.view, w);
    hide Image, Window;
    Distances(t);
  }

  lemma RegularCell(t: Term, w: Word)
    requires Ready(t) && |Last(t.lines)| < 80
    ensures var v := Regular(t, w);
            && v.base < 200 && 80 * CursorLine(t) + |Last(t.lines)| < 16000
            && Image(v.lines, v.base)[80 * CursorLine(t) + |Last(t.lines)|] == w
  {
    CellsStay(t, Last(t.lines) + [w], |Last(t.lines)|);
  }

  // The cells of a tab: no character, in the colour of the terminal.
  lemma TabCells(t: Term, cells: seq<Word>)
    requires Ready(t) && |Last(t.lines)| < 80
    requires var v := Tab(t); v.base < 200 && cells == Image(v.lines, v.base)
    ensures |cells| == 16000 && 80 * CursorLine(t) + 80 <= 16000
    ensures forall p :: 80 * CursorLine(t) + |Last(t.lines)| <= p < 80 * CursorLine(t) + (|Last(t.lines)| / 4 + 1) * 4 ==>
              p < 16000 && cells[p] % 256 == 0 && cells[p] / 256 == t.color
  {
    hide Image, Terminal.Crlf, RingLine;
    var line := Tabbed(Last(t.lines), 256 * t.color);
    LineCell(t, 0);
    CellsStay(t, line, 0);
    forall p | 80 * CursorLine(t) + |Last(t.lines)| <= p < 80 * CursorLine(t) + (|Last(t.lines)| / 4 + 1) * 4
      ensures p < 16000 && cells[p] == 256 * t.color
    {
      CellsStay(t, line, p - 80 * CursorLine(t));
    }
  }

  // The terminal after its last cell was taken back.
  ghost function LastErased(t: Term): Term
    requires t.lines != [] && Last(t.lines) != []
  {
    t.(lines := WithLast(t.lines, Last(t.lines)[..|Last(t.lines)| - 1]))
  }

  // Where the cell is in the buffer, and what the buffer holds without it.
  lemma ErasePlace(t: Term)
    requires Ready(t) && Last(t.lines) != []
    ensures var u := LastErased(t);
            var v := 80 * RingLine(t.base, t.view) - (if t.below then 16000 else 0);
            var p := 80 * CursorLine(t) + |Last(u.lines)|;
            && Ready(u) && Measures(u) == Measures(t) && CursorLine(u) == CursorLine(t) && |Last(u.lines)| == |Last(t.lines)| - 1
            && p < 16000 && Diff(v, 80 * CursorLine(t)) >= 0
            && Image(u.lines, u.base) == Image(t.lines, t.base)[p := BLANK]
  {
    TakeCell(t.lines, t.base, t.view);
    hide Image;
    if Measures(t) {
      Distances(t);
    } else {
      StrandedDistance(t);
    }
  }

  // The display follows when distances are measured right, and only then.
  lemma EraseShown(t: Term, before: seq<Word>, after: seq<Word>, loaded: bool)
    requires Ready(t) && Last(t.lines) != [] && |before| >= 16000
    requires !Measures(t) ==> Depth(t) <= 24 && Last(t.lines)[|Last(t.lines)| - 1] != BLANK
    requires loaded ==> before[..2000] == Window(t.lines, t.view)
    requires var v := 80 * RingLine(t.base, t.view) - (if t.below then 16000 else 0);
             var d := Diff(v, 80 * CursorLine(t));
             var p := d + |Last(t.lines)| - 1;
             after == if loaded && LDiff(v, 80 * CursorLine(t)) < 25 && 0 <= p < |before| then before[p := BLANK] else before
    ensures (loaded ==> after[..2000] == Window(LastErased(t).lines, t.view)) <==> Measures(t) || !loaded
  {
    var column := |Last(t.lines)| - 1;
    TakeCell(t.lines, t.base, t.view);
    WindowCell(t.lines, t.view, Depth(t), column);
    hide Image, Window;
    if Measures(t) {
      Distances(t);
    } else {
      StrandedDistance(t);
      assert loaded ==> after[..2000][80 * Depth(t) + column] != BLANK;
    }
  }

  lemma StrandedDistance(t: Term)
    requires Ready(t) && !Measures(t)
    ensures LDiff(80 * RingLine(t.base, t.view) - 16000, 80 * CursorLine(t)) >= 25
    ensures Diff(80 * RingLine(t.base, t.view) - 16000, 80 * CursorLine(t)) >= 0
    ensures 80 * CursorLine(t) + 80 <= 16000
  {
  }

  lemma NextLine(t: Term)
    requires Ready(t)
    ensures (80 * CursorLine(t) + 1 * 80) % 16000 == 80 * RingLine(t.base, |t.lines| % 200)
    ensures |t.lines| < 200 ==> RingLine(t.base, |t.lines|) != t.base
    ensures (80 * t.base + 1 * 80) % 16000 == 80 * RingLine(t.base, 1)
    ensures |t.lines| < 200 ==> CursorLine(Advanced(t)) == RingLine(t.base, |t.lines|)
    ensures |t.lines| == 200 ==> CursorLine(Advanced(t)) == t.base == RingLine(t.base, |t.lines| % 200)
    ensures var u := Advanced(t);
            |t.lines| == 200 ==> RingLine(u.base, u.view) == RingLine(t.base, if t.view == 0 then 1 else t.view)
    ensures t.view > 0 ==> RingLine(t.base, t.view) != t.base
    ensures RingLine(t.base, |t.lines| % 200) < 200 && RingLine(t.base, t.view) < 200
  {
  }

  // The address computed by sb_addline for the line n below (or above) the viewport.
  lemma RowStart(t: Term, n: int)
    requires t.base < 200 && t.view <= 175 && 0 <= t.view + n < 200
    ensures var v := 80 * RingLine(t.base, t.view) - (if t.below then 16000 else 0);
            (v + n * 80) % 16000 == 80 * RingLine(t.base, t.view + n)
  {
  }

  // sb_diff and sb_ldiff
  function Diff(a: int, b: int): int {
    if a <= b then b - a else (16000 - a) + b
  }

  function LDiff(a: int, b: int): int {
    Diff(a, b) / 80
  }

  // sb_addline: n lines on from a, brought back into the buffer by whole turns.
  method AddLine(a: int, n: int) returns (newpos: int)
    ensures newpos == (a + n * 80) % 16000
  {
    newpos := a + n * 80;
    ghost var turns := 0;
    while newpos >= 16000
      invariant newpos == a + n * 80 - turns * 16000
      invariant newpos >= 0 || newpos == a + n * 80
    {
      newpos := newpos - 16000;
      turns := turns + 1;
    }
    while newpos < 0
      invariant newpos < 16000
      invariant newpos == a + n * 80 - turns * 16000
    {
      newpos := newpos + 16000;
      turns := turns - 1;
    }
  }

  // The pointers of the source measure distances along the ring.
  lemma Distances(t: Term)
    requires Ready(t) && Measures(t)
    ensures var v := 80 * RingLine(t.base, t.view) - (if t.below then 16000 else 0);
            && Diff(v, 80 * CursorLine(t)) == 80 * (|t.lines| - 1 - t.view)
            && LDiff(v, 80 * CursorLine(t)) == |t.lines| - 1 - t.view
            && LDiff(80 * t.base, v) == t.view
            && 80 * CursorLine(t) + 80 <= 16000
  {
  }
}
