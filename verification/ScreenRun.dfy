// Whole runs of a screen buffer: what it retains of an unbounded terminal, when backspace undoes
// typing, and when scrolling down shows the cursor.

module ScreenRun {
  import opened Terminal
  import SB = ScreenBuf

  // One operation of the interface of include/kernel/screenbuf.h.
  datatype Event =
    Type(c: Char) | ScrollBy(n: int) | PageUp | PageDown | Paint(color: Byte) | Wipe | Load | Unload

  function React(t: Term, e: Event): Term
    requires WellFormed(t)
  {
    match e
    case Type(c) => Putchar(t, c)
    case ScrollBy(n) => Scrolled(t, n)
    case PageUp => ScrolledTop(t)
    case PageDown => ScrolledDown(t)
    case Paint(color) => t.(color := color)
    case Wipe => InitTerm().(color := t.color)
    case Load | Unload => t
  }

  // The backspaces sb_backspace handles; every other event always is.
  ghost predicate Handled(t: Term, e: Event) {
    e == Type(8) ==> Erasable(t) && !Strands(t)
  }

  lemma ReactWellFormed(t: Term, e: Event)
    requires WellFormed(t) && Handled(t, e)
    ensures WellFormed(React(t, e))
  {
    match e
    case Type(c) => PutcharWellFormed(t, c);
    case ScrollBy(n) => ScrollWellFormed(t, n);
    case _ => ScrollWellFormed(t, 0);
  }

  ghost predicate HandledRun(t: Term, es: seq<Event>)
    decreases |es|
  {
    && WellFormed(t)
    && (es != [] ==> Handled(t, es[0]) && HandledRun(React(t, es[0]), es[1..]))
  }

  ghost function Run(t: Term, es: seq<Event>): Term
    requires HandledRun(t, es)
    decreases |es|
  {
    if es == [] then t else Run(React(t, es[0]), es[1..])
  }

  // The same events on a terminal that keeps every line.
  function Unbounded(ls: seq<Line>, color: Byte, e: Event): seq<Line>
    requires ls != [] && |Last(ls)| < 80
  {
    match e
    case Type(c) =>
      if c == 10 then ls + [[]]
      else if c == 9 then Wrap(WithLast(ls, Tabbed(Last(ls), 256 * color)))
      else if c == 8 then Erased(ls)
      else Wrap(WithLast(ls, Last(ls) + [Glyph(c, color)]))
    case Wipe => [[]]
    case _ => ls
  }

  function Wrap(ls: seq<Line>): seq<Line>
    requires ls != []
  {
    if |Last(ls)| == 80 then ls + [[]] else ls
  }

  ghost predicate Narrow(ls: seq<Line>) {
    ls != [] && |Last(ls)| < 80 && forall d :: 0 <= d < |ls| ==> |ls[d]| <= 80
  }

  ghost function UnboundedRun(ls: seq<Line>, color: Byte, es: seq<Event>): seq<Line>
    requires Narrow(ls)
    decreases |es|
  {
    if es == [] then ls
    else
      var ls' := Unbounded(ls, color, es[0]);
      if Narrow(ls') then UnboundedRun(ls', if es[0].Paint? then es[0].color else color, es[1..]) else ls'
  }

  // The last lines of a list, at most 200 of them.
  function LastLines(ls: seq<Line>): seq<Line> {
    if |ls| <= 200 then ls else ls[|ls| - 200..]
  }

  ghost predicate Suffix(lines: seq<Line>, all: seq<Line>) {
    |lines| <= |all| && lines == all[|all| - |lines|..]
  }

  lemma SuffixLast(lines: seq<Line>, all: seq<Line>, line: Line)
    requires Suffix(lines, all) && lines != []
    ensures Last(lines) == Last(all)
    ensures Suffix(WithLast(lines, line), WithLast(all, line))
    ensures Suffix(lines + [line], all + [line])
    ensures Suffix(lines[1..] + [line], all + [line])
  {
  }

  // The retained lines after a line break.
  function Pushed(lines: seq<Line>): seq<Line>
    requires lines != []
  {
    (if |lines| >= 200 then lines[1..] else lines) + [[]]
  }

  lemma CrlfLines(t: Term)
    requires t.lines != []
    ensures Crlf(t).lines == Pushed(t.lines)
  {
  }

  ghost predicate Keeps(lines: seq<Line>, all: seq<Line>, full: bool) {
    && 1 <= |lines| <= 200
    && Suffix(lines, all)
    && (full ==> lines == LastLines(all))
  }

  lemma PushKeeps(lines: seq<Line>, all: seq<Line>, full: bool)
    requires Keeps(lines, all, full)
    ensures Keeps(Pushed(lines), all + [[]], full)
  {
  }

  lemma EditKeeps(lines: seq<Line>, all: seq<Line>, line: Line, full: bool)
    requires Keeps(lines, all, full)
    ensures Last(lines) == Last(all)
    ensures Keeps(WithLast(lines, line), WithLast(all, line), full)
  {
  }

  // An edit of the last line, with a line break when it fills the width.
  lemma LineKeeps(t: Term, all: seq<Line>, line: Line, full: bool)
    requires Keeps(t.lines, all, full) && |line| <= 80
    ensures var u := t.(lines := WithLast(t.lines, line));
            Keeps((if |Last(u.lines)| == 80 then Crlf(u) else u).lines, Wrap(WithLast(all, line)), full)
  {
    EditKeeps(t.lines, all, line, full);
    var u := t.(lines := WithLast(t.lines, line));
    if |line| == 80 {
      CrlfLines(u);
      PushKeeps(u.lines, WithLast(all, line), full);
    }
  }

  // What the ring keeps of one event.
  lemma ReactKeeps(t: Term, all: seq<Line>, e: Event, full: bool)
    requires WellFormed(t) && Narrow(all) && Keeps(t.lines, all, full)
    requires e == Type(8) ==> !full && (|t.lines| > 1 || Last(t.lines) != [] || |all| == 1)
    ensures Keeps(React(t, e).lines, Unbounded(all, t.color, e), full)
    ensures Narrow(Unbounded(all, t.color, e))
  {
    EditKeeps(t.lines, all, [], full);
    NarrowStays(all, t.color, e);
    KeepsSuffix(t.lines, all, full);
    if e.Type? {
      TypeKeeps(t, all, e.c, full);
    } else {
      hide Keeps, Narrow;
      OtherLines(t, all, e);
      KeepsSuffix([[]], [[]], full);
    }
  }

  lemma TypeKeeps(t: Term, all: seq<Line>, c: Char, full: bool)
    requires WellFormed(t) && Narrow(all) && Keeps(t.lines, all, full) && Last(t.lines) == Last(all)
    requires c == 8 ==> !full && (|t.lines| > 1 || Last(t.lines) != [] || |all| == 1)
    ensures Keeps(Putchar(t, c).lines, Unbounded(all, t.color, Type(c)), full)
  {
    hide Keeps, Crlf, Tabbed, Wrap, Glyph;
    if c == 8 {
      KeepsSuffix(t.lines, all, full);
      SuffixErased(t.lines, all);
      KeepsSuffix(Backspace(t).lines, Erased(all), full);
    } else if c == 9 {
      LineKeeps(t, all, Tabbed(Last(t.lines), 256 * t.color), full);
    } else if c == 10 {
      CrlfLines(t);
      PushKeeps(t.lines, all, full);
    } else {
      LineKeeps(t, all, Last(t.lines) + [Glyph(c, t.color)], full);
    }
  }

  lemma OtherLines(t: Term, all: seq<Line>, e: Event)
    requires WellFormed(t) && Narrow(all) && !e.Type?
    ensures if e.Wipe? then React(t, e).lines == Unbounded(all, t.color, e) == [[]]
            else React(t, e).lines == t.lines && Unbounded(all, t.color, e) == all
  {
  }

  lemma KeepsSuffix(lines: seq<Line>, all: seq<Line>, full: bool)
    ensures Keeps(lines, all, full) ==> 1 <= |lines| <= 200 && Suffix(lines, all)
    ensures 1 <= |lines| <= 200 && Suffix(lines, all) && !full ==> Keeps(lines, all, full)
    ensures Keeps([[]], [[]], full)
  {
  }

  lemma NarrowStays(all: seq<Line>, color: Byte, e: Event)
    requires Narrow(all)
    ensures Narrow(Unbounded(all, color, e))
  {
    hide Glyph;
  }

  lemma SuffixErased(lines: seq<Line>, all: seq<Line>)
    requires Suffix(lines, all) && lines != [] && Narrow(all)
    requires |lines| > 1 || Last(lines) != [] || |all| == 1
    ensures Suffix(Erased(lines), Erased(all)) && 1 <= |Erased(lines)| <= |lines|
  {
    SuffixLast(lines, all, []);
    if Last(lines) == [] && |lines| > 1 {
      var rest, all' := lines[..|lines| - 1], all[..|all| - 1];
      assert Suffix(rest, all');
      SuffixLast(rest, all', Last(rest)[..if Last(rest) == [] then 0 else |Last(rest)| - 1]);
    } else if Last(lines) != [] {
      SuffixLast(lines, all, Last(lines)[..|Last(lines)| - 1]);
    }
  }

  // For every run without backspace, the retained lines are the last 200 of the unbounded
  // terminal fed the same events, whatever scrolling is mixed in.
  lemma {:induction false} RunKeepsLast(t: Term, all: seq<Line>, es: seq<Event>)
    requires WellFormed(t) && Narrow(all) && Keeps(t.lines, all, true)
    requires Type(8) !in es
    ensures HandledRun(t, es)
    ensures Run(t, es).lines == LastLines(UnboundedRun(all, t.color, es))
    decreases |es|
  {
    if es != [] {
      assert es[0] in es;
      hide React, Unbounded, LastLines, WellFormed, Narrow;
      ReactWellFormed(t, es[0]);
      ReactKeeps(t, all, es[0], true);
      ColorAfter(t, es[0]);
      RunKeepsLast(React(t, es[0]), Unbounded(all, t.color, es[0]), es[1..]);
    }
  }

  // With backspace, they are still the end of its lines, as long as no backspace is typed at the
  // start of the oldest line retained while the unbounded terminal has older ones.
  ghost predicate Inside(t: Term, all: seq<Line>, es: seq<Event>)
    requires HandledRun(t, es) && Narrow(all)
    decreases |es|
  {
    es == [] ||
    (&& (es[0] == Type(8) ==> |t.lines| > 1 || Last(t.lines) != [] || |all| == 1)
     && Narrow(Unbounded(all, t.color, es[0]))
     && Inside(React(t, es[0]), Unbounded(all, t.color, es[0]), es[1..]))
  }

  lemma {:induction false} RunKeepsEnd(t: Term, all: seq<Line>, es: seq<Event>)
    requires HandledRun(t, es) && Narrow(all) && Inside(t, all, es)
    requires Suffix(t.lines, all)
    ensures Suffix(Run(t, es).lines, UnboundedRun(all, t.color, es))
    decreases |es|
  {
    if es != [] {
      LinesRetained(t);
      KeepsSuffix(t.lines, all, false);
      hide React, Unbounded, WellFormed, Narrow, Keeps, Suffix;
      ReactKeeps(t, all, es[0], false);
      KeepsSuffix(React(t, es[0]).lines, Unbounded(all, t.color, es[0]), false);
      ColorAfter(t, es[0]);
      RunKeepsEnd(React(t, es[0]), Unbounded(all, t.color, es[0]), es[1..]);
    }
  }

  lemma LinesRetained(t: Term)
    requires WellFormed(t)
    ensures 1 <= |t.lines| <= 200
  {
  }

  lemma ColorAfter(t: Term, e: Event)
    requires WellFormed(t)
    ensures React(t, e).color == if e.Paint? then e.color else t.color
  {
  }

  // From the state after sb_init, in particular.
  lemma BootKeepsLast(es: seq<Event>)
    requires Type(8) !in es
    ensures HandledRun(InitTerm(), es)
    ensures Run(InitTerm(), es).lines == LastLines(UnboundedRun([[]], 0x0F, es))
  {
    RunKeepsLast(InitTerm(), [[]], es);
  }

  // A cell is blank only for a zero character in the default colour.
  lemma GlyphBlank(c: Char, color: Byte)
    ensures Glyph(c, color) == BLANK <==> c == 0 && color == 0x0F
  {
  }

  ghost predicate Inked(lines: seq<Line>) {
    forall d, c :: 0 <= d < |lines| && 0 <= c < |lines[d]| ==> lines[d][c] != BLANK
  }

  // Streams without zeros, and without tabs in the default colour.
  predicate InkedEvents(color: Byte, es: seq<Event>)
    decreases |es|
  {
    es == [] ||
    (&& (es[0].Type? ==> es[0].c != 0 && (es[0].c == 9 ==> color != 0x0F))
     && InkedEvents(if es[0].Paint? then es[0].color else color, es[1..]))
  }

  ghost predicate EntersEmpty(t: Term)
    requires t.lines != []
  {
    Last(t.lines) == [] && |t.lines| > 1 && t.lines[|t.lines| - 2] == []
  }

  // No backspace of the run enters an empty line or strands the viewport pointer.
  ghost predicate Clear(t: Term, es: seq<Event>)
    requires WellFormed(t)
    decreases |es|
  {
    es == [] ||
    (&& (es[0] == Type(8) ==> !EntersEmpty(t) && !Strands(t))
     && WellFormed(React(t, es[0])) && Clear(React(t, es[0]), es[1..]))
  }

  // On such streams no written cell is ever blank, and every backspace is handled exactly when
  // none enters an empty line or strands the viewport pointer.
  lemma {:induction false} InkedRuns(t: Term, es: seq<Event>)
    requires WellFormed(t) && Inked(t.lines) && InkedEvents(t.color, es)
    ensures HandledRun(t, es) <==> Clear(t, es)
    ensures HandledRun(t, es) ==> Inked(Run(t, es).lines)
    decreases |es|
  {
    hide React, WellFormed, Inked, EntersEmpty, Strands, Erasable;
    if es != [] {
      InkedStep(t, es[0]);
      if Handled(t, es[0]) {
        ReactWellFormed(t, es[0]);
        ColorAfter(t, es[0]);
        InkedRuns(React(t, es[0]), es[1..]);
      }
    }
  }

  lemma InkedStep(t: Term, e: Event)
    requires WellFormed(t) && Inked(t.lines)
    requires e.Type? ==> e.c != 0 && (e.c == 9 ==> t.color != 0x0F)
    ensures Inked(React(t, e).lines)
    ensures t.lines != [] && (Erasable(t) <==> !EntersEmpty(t))
  {
    if e.Type? {
      var c := e.c;
      if c == 9 {
        InkedTab(Last(t.lines), 256 * t.color);
        InkedLine(t, Tabbed(Last(t.lines), 256 * t.color));
      } else if c == 8 {
        InkedErased(t.lines);
      } else if c == 10 {
        CrlfLines(t);
      } else {
        GlyphBlank(c, t.color);
        InkedLine(t, Last(t.lines) + [Glyph(c, t.color)]);
      }
      hide Crlf, Tabbed, Glyph;
    } else {
      OtherLines(t, [[]], e);
      hide React;
    }
  }

  lemma InkedLine(t: Term, line: Line)
    requires t.lines != [] && Inked(t.lines) && forall c :: 0 <= c < |line| ==> line[c] != BLANK
    ensures var u := t.(lines := WithLast(t.lines, line)); Inked(u.lines) && Inked(Crlf(u).lines)
  {
    CrlfLines(t.(lines := WithLast(t.lines, line)));
    hide Crlf;
  }

  lemma {:induction false} InkedTab(line: Line, w: Word)
    requires |line| < 80 && w != BLANK && forall c :: 0 <= c < |line| ==> line[c] != BLANK
    ensures forall c :: 0 <= c < |Tabbed(line, w)| ==> Tabbed(line, w)[c] != BLANK
    decreases 80 - |line|
  {
    var r := line + [w];
    if |r| % 4 != 0 && |r| < 80 {
      InkedTab(r, w);
    }
  }

  lemma InkedErased(lines: seq<Line>)
    requires lines != [] && Inked(lines)
    ensures Inked(Erased(lines))
  {
  }

  // Backspace undoes one character: the lines are as before, but for the oldest one when the
  // character's line break pushed it out.
  lemma TypeThenErase(t: Term, c: Char)
    requires WellFormed(t) && c != 8 && c != 9 && c != 10
    ensures var u := Putchar(t, c);
            Erased(u.lines) == if |t.lines| == 200 && |Last(t.lines)| == 79 then t.lines[1..] else t.lines
  {
    var line := Last(t.lines) + [Glyph(c, t.color)];
    var u := Putchar(t, c);
    if |line| < 80 {
      assert line[..|line| - 1] == Last(t.lines);
      assert Erased(u.lines) == t.lines;
    } else {
      var kept := if |t.lines| == 200 then t.lines[1..] else t.lines;
      assert u.lines == WithLast(kept, line) + [[]];
      assert u.lines[..|u.lines| - 1] == WithLast(kept, line);
      assert line[..|line| - 1] == Last(kept);
    }
  }

  // After sb_scroll_down the cursor is on display unless it was exactly 25 lines from the view.
  lemma ScrollDownShows(t: Term)
    requires WellFormed(t)
    ensures Depth(ScrolledDown(t)) <= 24 <==> Depth(t) != 25
  {
  }

  // One line of scrolling up from the bottom is enough to reach that case.
  lemma ScrollDownMisses(t: Term)
    requires WellFormed(t) && Depth(t) == 24 && t.view > 0
    ensures var u := ScrolledDown(Scrolled(t, -1)); Depth(u) == 25 && u == Scrolled(t, -1)
  {
  }

  // A screen buffer that replays a run holds exactly that run, and shows it while loaded.
  method Play(sb: SB.ScreenBuf, es: seq<Event>)
    requires sb.Valid() && HandledRun(sb.term, es)
    modifies sb, sb.buf, sb.vga
    ensures sb.Valid() && sb.term == Run(old(sb.term), es)
    ensures sb.loaded ==> sb.vga[..2000] == Window(sb.term.lines, sb.term.view)
  {
    hide React, Putchar, Window, Image, SB.ScreenBuf.Held, SB.ScreenBuf.Placed;
    assert es[0..] == es;
    for k := 0 to |es|
      invariant sb.Valid() && HandledRun(sb.term, es[k..])
      invariant Run(sb.term, es[k..]) == Run(old(sb.term), es)
    {
      assert es[k..][0] == es[k] && es[k..][1..] == es[k + 1..];
      PlayOne(sb, es[k]);
    }
  }

  method PlayOne(sb: SB.ScreenBuf, e: Event)
    requires sb.Valid() && WellFormed(sb.term) && Handled(sb.term, e)
    modifies sb`top, sb`viewport, sb`cursor, sb`cursorOffset, sb`color, sb`term, sb`loaded, sb.buf, sb.vga
    ensures sb.Valid() && sb.term == React(old(sb.term), e)
    ensures sb.loaded == if e.Load? then true else if e.Unload? then false else old(sb.loaded)
    ensures !sb.loaded ==> sb.vga[..] == old(sb.vga[..])
  {
    hide Putchar, Scrolled, ScrolledTop, ScrolledDown, Window, Image;
    ScrollWellFormed(sb.term, if e.ScrollBy? then e.n else 0);
    match e {
      case Type(c) => sb.Putchar(c);
      case ScrollBy(n) => sb.Scroll(n);
      case PageUp => sb.ScrollTop();
      case PageDown => sb.ScrollDown();
      case Paint(color) => sb.SetColor(color);
      case Wipe => sb.Clear();
      case Load => sb.Load();
      case Unload => sb.Unload();
    }
  }

  function Repeat(e: Event, n: nat): seq<Event> {
    seq(n, _ => e)
  }

  function EmptyLines(k: nat): seq<Line> {
    seq(k, _ => [])
  }

  function Letters(k: nat): Line {
    seq(k, _ => Glyph(97, 0x0F))
  }

  // A fresh buffer after k - 1 line breaks.
  function Scrolling(k: nat): Term {
    Term(EmptyLines(k), if k > 25 then k - 25 else 0, 0x0F, 0, false)
  }

  // A full ring with c letters on its last line.
  function Filling(c: nat): Term {
    Term(EmptyLines(199) + [Letters(c)], 175, 0x0F, 0, false)
  }

  lemma {:induction false} BreakLines(k: nat, n: nat, rest: seq<Event>)
    requires 1 <= k && k + n <= 200 && HandledRun(Scrolling(k + n), rest)
    ensures HandledRun(Scrolling(k), Repeat(Type(10), n) + rest)
    ensures Run(Scrolling(k), Repeat(Type(10), n) + rest) == Run(Scrolling(k + n), rest)
    decreases n
  {
    hide Scrolling, React, WellFormed;
    var es := Repeat(Type(10), n) + rest;
    if n > 0 {
      BreakLines(k + 1, n - 1, rest);
      assert es[0] == Type(10) && es[1..] == Repeat(Type(10), n - 1) + rest;
      BreakLine(k);
    } else {
      assert es == rest;
    }
  }

  lemma BreakLine(k: nat)
    requires 1 <= k < 200
    ensures WellFormed(Scrolling(k)) && React(Scrolling(k), Type(10)) == Scrolling(k + 1)
  {
    assert EmptyLines(k) + [[]] == EmptyLines(k + 1);
  }

  lemma {:induction false} FillLine(c: nat, n: nat, rest: seq<Event>)
    requires c + n < 80 && HandledRun(Filling(c + n), rest)
    ensures HandledRun(Filling(c), Repeat(Type(97), n) + rest)
    ensures Run(Filling(c), Repeat(Type(97), n) + rest) == Run(Filling(c + n), rest)
    decreases n
  {
    hide Filling, React, WellFormed;
    var es := Repeat(Type(97), n) + rest;
    if n > 0 {
      FillLine(c + 1, n - 1, rest);
      assert es[0] == Type(97) && es[1..] == Repeat(Type(97), n - 1) + rest;
      FillCell(c);
    } else {
      assert es == rest;
    }
  }

  lemma FillCell(c: nat)
    requires c < 79
    ensures WellFormed(Filling(c)) && React(Filling(c), Type(97)) == Filling(c + 1)
  {
    assert Letters(c) + [Glyph(97, 0x0F)] == Letters(c + 1);
    assert (EmptyLines(199) + [Letters(c)])[199 := Letters(c + 1)] == EmptyLines(199) + [Letters(c + 1)];
  }

  // The state after the line is full, and after paging up and down from there.
  function Wrapped(view: nat, below: bool): Term {
    Term(EmptyLines(198) + [Letters(80)] + [[]], view, 0x0F, 1, below)
  }

  lemma WrapRing()
    ensures WellFormed(Filling(79)) && React(Filling(79), Type(97)) == Wrapped(175, false)
    ensures WellFormed(Wrapped(175, false)) && React(Wrapped(175, false), PageUp) == Wrapped(0, false)
    ensures WellFormed(Wrapped(0, false)) && React(Wrapped(0, false), PageDown) == Wrapped(175, true)
    ensures WellFormed(Wrapped(175, true))
  {
    assert Letters(79) + [Glyph(97, 0x0F)] == Letters(80);
    var lines := (EmptyLines(199) + [Letters(79)])[199 := Letters(80)];
    assert lines[1..] + [[]] == EmptyLines(198) + [Letters(80)] + [[]];
  }

  // The failing case of sb_backspace is reached by ordinary use: fill the ring, fill a line past
  // its end, page up, page down, and press backspace.
  lemma StrandReached()
    ensures var es := Repeat(Type(10), 199) + (Repeat(Type(97), 79) + [Type(97), PageUp, PageDown]);
            && HandledRun(InitTerm(), es)
            && Erasable(Run(InitTerm(), es)) && Strands(Run(InitTerm(), es))
  {
    var end := [Type(97), PageUp, PageDown];
    WrapRing();
    EndOfStory(end);
    var u := Wrapped(175, true);
    assert Last(u.lines) == [] && u.lines[|u.lines| - 2] == Letters(80);
    assert Strands(u) && Erasable(u);
    hide WellFormed, React;
    FillLine(0, 79, end);
    assert Letters(0) == [];
    assert Filling(0) == Scrolling(200) by {
      assert EmptyLines(199) + [[]] == EmptyLines(200);
    }
    BreakLines(1, 199, Repeat(Type(97), 79) + end);
    assert EmptyLines(1) == [[]];
    assert Scrolling(1) == InitTerm();
  }

  lemma EndOfStory(end: seq<Event>)
    requires end == [Type(97), PageUp, PageDown]
    ensures HandledRun(Filling(79), end) && Run(Filling(79), end) == Wrapped(175, true)
  {
    WrapRing();
    assert end[1..] == [PageUp, PageDown] && end[1..][1..] == [PageDown] && end[1..][1..][1..] == [];
    hide WellFormed, React, Filling, Wrapped;
    assert HandledRun(Wrapped(175, true), []) && Run(Wrapped(175, true), []) == Wrapped(175, true);
    assert HandledRun(Wrapped(0, false), [PageDown]) && Run(Wrapped(0, false), [PageDown]) == Wrapped(175, true);
    assert HandledRun(Wrapped(175, false), [PageUp, PageDown]) && Run(Wrapped(175, false), [PageUp, PageDown]) == Wrapped(175, true);
  }

  // The cases sb_backspace does not handle are reached at once: two line breaks, or a tab and a
  // line break, before a backspace whose column falls below zero; and a tab between two letters,
  // where it takes the cell before the tab and leaves the text after it.
  lemma UnderflowReached()
    ensures var es := [Type(10), Type(10)]; HandledRun(InitTerm(), es) && Underflows(Run(InitTerm(), es))
    ensures var es := [Type(9), Type(10)]; HandledRun(InitTerm(), es) && Underflows(Run(InitTerm(), es))
  {
    TwoEvents(InitTerm(), Type(10), Type(10));
    TwoEvents(InitTerm(), Type(9), Type(10));
    assert Tabbed([], BLANK)[0] == BLANK;
  }

  lemma BlankReached()
    ensures var es := [Type(97), Type(9), Type(98), Type(10)];
            HandledRun(InitTerm(), es) && !Underflows(Run(InitTerm(), es)) && !Erasable(Run(InitTerm(), es))
  {
    var a, b := Glyph(97, 0x0F), Glyph(98, 0x0F);
    var t := InitTerm().(lines := [Tabbed([a], BLANK)]);
    var u := InitTerm().(lines := [Tabbed([a], BLANK) + [b]]);
    var end := [Type(98), Type(10)];
    assert Tabbed([a], BLANK)[..1] == [a] && Tabbed([a], BLANK)[1] == BLANK;
    TwoEvents(InitTerm(), Type(97), Type(9));
    TwoEvents(t, Type(98), Type(10));
    RunParts(InitTerm(), [Type(97), Type(9)], end);
    assert [Type(97), Type(9)] + end == [Type(97), Type(9), Type(98), Type(10)];
    assert Run(t, end).lines == [Tabbed([a], BLANK) + [b], []];
  }

  lemma TwoEvents(t: Term, d: Event, e: Event)
    requires WellFormed(t) && d != Type(8) && e != Type(8)
    ensures HandledRun(t, [d, e]) && WellFormed(React(t, d)) && Run(t, [d, e]) == React(React(t, d), e)
  {
    ReactWellFormed(t, d);
    ReactWellFormed(React(t, d), e);
    hide React, WellFormed;
    assert [d, e][1..] == [e] && [e][1..] == [];
    var u := React(React(t, d), e);
    assert HandledRun(u, []) && Run(u, []) == u;
    assert HandledRun(React(t, d), [e]) && Run(React(t, d), [e]) == u;
  }

  lemma {:induction false} RunParts(t: Term, es: seq<Event>, fs: seq<Event>)
    requires HandledRun(t, es) && HandledRun(Run(t, es), fs)
    ensures HandledRun(t, es + fs) && Run(t, es + fs) == Run(Run(t, es), fs)
    decreases |es|
  {
    hide React, WellFormed;
    if es == [] {
      assert es + fs == fs;
    } else {
      assert (es + fs)[1..] == es[1..] + fs;
      RunParts(React(t, es[0]), es[1..], fs);
    }
  }
}
