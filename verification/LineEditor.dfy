// The line editor of kernel/nsh/nsh.c (nsh_addchar, without the newline case) on top of a screen
// buffer: what is on the screen after the prompt is always the text in nsh_buf.

module LineEditor {
  import opened Terminal
  import opened ScreenRun
  import SB = ScreenBuf

  // The names of the builtin commands, in table order.
  const BUILTINS: seq<string> := ["reboot", "poweroff", "exit", "keymap", "color", "alloc", "free", "info",
                                  "clear", "hexdump", "next", "prev", "help", "interrupt"]

  function Codes(s: string): (r: Text)
    ensures |r| == |s|
  {
    seq(|s|, i requires 0 <= i < |s| => if s[i] as int < 128 then s[i] as int else 0)
  }

  function Name(i: nat): Text
    requires i < 14
  {
    Codes(BUILTINS[i])
  }

  lemma NameFacts(i: nat)
    requires i < 14
    ensures |BUILTINS| == 14
    ensures 4 <= |Name(i)| <= 9
    ensures forall k :: 0 <= k < |Name(i)| ==> 97 <= Name(i)[k] <= 122
  {
  }

  // Any two names differ within three letters.
  lemma NamesDiffer(i: nat, j: nat)
    requires i < j < 14
    ensures |Name(i)| >= 4 && |Name(j)| >= 4
    ensures Name(i)[0] != Name(j)[0] || Name(i)[1] != Name(j)[1] || Name(i)[2] != Name(j)[2]
  {
  }

  predicate ProperPrefix(s: Text, name: Text) {
    |s| < |name| && s == name[..|s|]
  }

  // The completion loop: every name in turn extends the text it properly extends.
  function Completed(s: Text, i: nat): Text
    requires i <= 14
    decreases 14 - i
  {
    if i == 14 then s else Completed(if ProperPrefix(s, Name(i)) then Name(i) else s, i + 1)
  }

  // Although the loop goes on after a match, the result is the first name that extends the text,
  // or the text itself when there is none.
  lemma CompletedFirst(s: Text)
    ensures (Completed(s, 0) == s && (forall j :: 0 <= j < 14 ==> !ProperPrefix(s, Name(j))))
            || (exists i :: 0 <= i < 14 && Completed(s, 0) == Name(i) && ProperPrefix(s, Name(i))
                            && (forall j :: 0 <= j < i ==> !ProperPrefix(s, Name(j))))
  {
    hide Name, ProperPrefix;
    var i := 0;
    while i < 14 && !ProperPrefix(s, Name(i))
      invariant i <= 14 && Completed(s, 0) == Completed(s, i)
      invariant forall j :: 0 <= j < i ==> !ProperPrefix(s, Name(j))
    {
      i := i + 1;
    }
    if i < 14 {
      NameStays(i, i + 1);
    }
  }

  lemma {:induction false} NameStays(i: nat, j: nat)
    requires i < j <= 14
    ensures Completed(Name(i), j) == Name(i)
    decreases 14 - j
  {
    if j < 14 {
      NamesDiffer(i, j);
      hide Name;
      NameStays(i, j + 1);
    }
  }

  lemma CompletedStep(s: Text, i: nat)
    requires i < 14
    ensures Completed(s, i) == Completed(if ProperPrefix(s, Name(i)) then Name(i) else s, i + 1)
  {
  }

  lemma CompletedEnd(s: Text)
    ensures Completed(s, 14) == s
  {
  }

  lemma RestOf(s: Text, name: Text, p: nat)
    requires ProperPrefix(s, name) && p == |s|
    ensures s + name[p..] == name
    ensures forall k :: 0 <= k < |name[p..]| ==> name[p..][k] == name[p + k]
  {
  }

  // The names are those of the table, letter by letter.
  lemma NameSpelled(i: nat)
    requires i < 14
    ensures |Name(i)| == |BUILTINS[i]| && forall k :: 0 <= k < |Name(i)| ==> Name(i)[k] == BUILTINS[i][k] as int
  {
  }

  // A text is completed by what is missing of a name.
  lemma ProperPrefixExact(s: Text, name: Text)
    ensures ProperPrefix(s, name) <==> exists rest: Text :: rest != [] && name == s + rest
  {
    if ProperPrefix(s, name) {
      assert name == s + name[|s|..];
    }
  }

  // What one key does to the text.
  function Edited(s: Text, c: Char): Text {
    if c == 8 then (if s == [] then s else s[..|s| - 1])
    else if c == 9 then (if s == [] then s else Completed(s, 0))
    else if |s| < 1023 then s + [c] else s
  }

  // What one key sends to the screen.
  function Echo(s: Text, c: Char): Text {
    if c == 8 then (if s == [] then [] else [8])
    else if c == 9 then (if s == [] then [] else Rest(s, Completed(s, 0)))
    else if |s| < 1023 then [c] else []
  }

  function Rest(s: Text, whole: Text): Text {
    if |s| <= |whole| then whole[|s|..] else []
  }

  // Everything echoed is stored, and nothing else is.
  lemma EchoExact(s: Text, c: Char)
    ensures c != 8 ==> Edited(s, c) == s + Echo(s, c)
    ensures c == 8 ==> (Echo(s, c) == [8] <==> s != []) && (Echo(s, c) == [] <==> s == [])
  {
    hide Completed, Name;
    if c == 9 && s != [] {
      CompletedFirst(s);
    }
  }

  // Typing a text after a prompt, on a terminal that keeps every line.
  function TypedLines(p: seq<Line>, s: Text, color: Byte): (r: seq<Line>)
    requires p != []
    ensures r != []
    decreases |s|
  {
    if s == [] then p
    else
      var ls := TypedLines(p, s[..|s| - 1], color);
      Wrap(WithLast(ls, Last(ls) + [Glyph(s[|s| - 1], color)]))
  }

  // The prompt ends in a line without blank cells.
  ghost predicate PromptOk(p: seq<Line>) {
    Narrow(p) && forall c :: 0 <= c < |Last(p)| ==> Last(p)[c] != BLANK
  }

  ghost predicate Plain(s: Text) {
    forall k :: 0 <= k < |s| ==> s[k] != 0 && s[k] != 8 && s[k] != 9 && s[k] != 10
  }

  // The typed lines fill up 80 columns at a time, and hold no blank cell.
  lemma {:induction false} TypedShape(p: seq<Line>, s: Text, color: Byte)
    requires PromptOk(p) && Plain(s)
    ensures var u := TypedLines(p, s, color);
            && Narrow(u) && |u| >= |p|
            && 80 * (|u| - |p|) + |Last(u)| == |Last(p)| + |s|
            && (forall c :: 0 <= c < |Last(u)| ==> Last(u)[c] != BLANK)
            && (|u| > |p| && Last(u) == [] ==> Solid(u[|u| - 2]))
    decreases |s|
  {
    if s != [] {
      var n := |s| - 1;
      TypedShape(p, s[..n], color);
      GlyphBlank(s[n], color);
    }
  }

  function Flat(ls: seq<Line>): Line {
    if ls == [] then [] else Flat(ls[..|ls| - 1]) + Last(ls)
  }

  function Glyphs(s: Text, color: Byte): Line {
    seq(|s|, k requires 0 <= k < |s| => Glyph(s[k], color))
  }

  // Read one after the other, the cells from the end of the prompt on spell the text.
  lemma {:induction false} TypedSpells(p: seq<Line>, s: Text, color: Byte)
    requires PromptOk(p) && Plain(s)
    ensures var u := TypedLines(p, s, color);
            |u| >= |p| && Flat(u[|p| - 1..]) == Last(p) + Glyphs(s, color)
    decreases |s|
  {
    assert p != [];
    hide Flat, Narrow, Glyph, Solid;
    TypedShape(p, s, color);
    if s == [] {
      FlatOne(p);
    } else {
      var n := |s| - 1;
      TypedShape(p, s[..n], color);
      TypedSpells(p, s[..n], color);
      var ls, w := TypedLines(p, s[..n], color), Glyph(s[n], color);
      assert Glyphs(s, color) == Glyphs(s[..n], color) + [w];
      PutTail(ls, |p| - 1, w);
    }
  }

  lemma FlatOne(p: seq<Line>)
    requires p != []
    ensures Flat(p[|p| - 1..]) == Last(p)
  {
    assert p[|p| - 1..] == [Last(p)];
    assert [Last(p)][..0] == [];
  }

  lemma PutTail(ls: seq<Line>, k: nat, w: Word)
    requires k < |ls|
    ensures Flat(Wrap(WithLast(ls, Last(ls) + [w]))[k..]) == Flat(ls[k..]) + [w]
  {
    var v, tail := WithLast(ls, Last(ls) + [w]), WithLast(ls[k..], Last(ls[k..]) + [w]);
    FlatAppend(ls[k..], w);
    assert v[k..] == tail;
    FlatAppend(tail, w);
    assert (v + [[]])[k..] == tail + [[]];
  }

  lemma FlatAppend(ls: seq<Line>, w: Word)
    requires ls != []
    ensures Flat(WithLast(ls, Last(ls) + [w])) == Flat(ls) + [w]
    ensures Flat(ls + [[]]) == Flat(ls)
  {
    assert WithLast(ls, Last(ls) + [w])[..|ls| - 1] == ls[..|ls| - 1];
    assert (ls + [[]])[..|ls|] == ls;
  }

  // The retained lines end with the prompt line and everything typed after it.
  ghost predicate Spells(lines: seq<Line>, p: seq<Line>, s: Text, color: Byte)
    requires p != []
  {
    && 1 <= |lines| <= 200
    && Suffix(lines, TypedLines(p, s, color))
    && |TypedLines(p, s, color)| - |p| < |lines|
  }

  // So the screen line of the prompt and those below it spell the prompt and the text.
  lemma SpellsOnScreen(lines: seq<Line>, p: seq<Line>, s: Text, color: Byte)
    requires PromptOk(p) && Plain(s) && Spells(lines, p, s, color)
    ensures var below := |TypedLines(p, s, color)| - |p|;
            && 0 <= below < |lines|
            && Flat(lines[|lines| - below - 1..]) == Last(p) + Glyphs(s, color)
  {
    TypedSpells(p, s, color);
    var u := TypedLines(p, s, color);
    assert lines[|lines| - (|u| - |p|) - 1..] == u[|p| - 1..];
  }

  lemma TypeSpells(t: Term, p: seq<Line>, s: Text, c: Char)
    requires WellFormed(t) && PromptOk(p) && Plain(s + [c]) && |s| <= 1023
    requires Spells(t.lines, p, s, t.color)
    ensures Spells(Putchar(t, c).lines, p, s + [c], t.color)
    ensures Putchar(t, c).color == t.color && WellFormed(Putchar(t, c))
  {
    assert (s + [c])[|s|] == c;
    assert Plain(s) by {
      assert forall k :: 0 <= k < |s| ==> (s + [c])[k] == s[k];
    }
    TypedMore(p, s, c, t.color);
    TypedShape(p, s, t.color);
    TypedShape(p, s + [c], t.color);
    PutcharWellFormed(t, c);
    ColorAfter(t, Type(c));
    PutLength(t, c);
    hide TypedLines, Putchar, Unbounded, Keeps, Suffix, Narrow, WellFormed, Solid, Handled;
    var u := TypedLines(p, s, t.color);
    KeepsSuffix(t.lines, u, false);
    ReactKeeps(t, u, Type(c), false);
    KeepsSuffix(Putchar(t, c).lines, TypedLines(p, s + [c], t.color), false);
  }

  lemma TypedMore(p: seq<Line>, s: Text, c: Char, color: Byte)
    requires p != [] && c != 8 && c != 9 && c != 10
    requires |Last(TypedLines(p, s, color))| < 80
    ensures TypedLines(p, s + [c], color) == Unbounded(TypedLines(p, s, color), color, Type(c))
  {
    assert (s + [c])[..|s|] == s;
    hide Glyph, Wrap;
  }

  lemma PutLength(t: Term, c: Char)
    requires WellFormed(t) && c != 8 && c != 9 && c != 10
    ensures |Putchar(t, c).lines| == if |Last(t.lines)| == 79 && |t.lines| < 200 then |t.lines| + 1 else |t.lines|
  {
  }

  lemma {:induction false} TypeAllSpells(t: Term, p: seq<Line>, s: Text, r: Text)
    requires WellFormed(t) && PromptOk(p) && Plain(s) && Plain(r) && |s| + |r| <= 1024
    requires Spells(t.lines, p, s, t.color)
    ensures Printable(t, r)
    ensures Spells(Typed(t, r).lines, p, s + r, t.color) && Typed(t, r).color == t.color
    decreases |r|
  {
    if r == [] {
      assert s + r == s;
    } else {
      assert Plain(s + [r[0]]);
      hide Putchar, Spells, WellFormed, PromptOk;
      TypeSpells(t, p, s, r[0]);
      assert s + [r[0]] + r[1..] == s + r;
      TypeAllSpells(Putchar(t, r[0]), p, s + [r[0]], r[1..]);
      TypedStep(t, r);
    }
  }

  // Taking one character back.
  lemma EraseSpells(t: Term, p: seq<Line>, s: Text)
    requires WellFormed(t) && PromptOk(p) && Plain(s) && s != [] && |s| <= 1023
    requires Spells(t.lines, p, s, t.color)
    ensures Erasable(t)
    ensures Spells(Erased(t.lines), p, s[..|s| - 1], t.color)
  {
    var n := |s| - 1;
    assert Plain(s[..n]);
    TypedShape(p, s, t.color);
    TypedShape(p, s[..n], t.color);
    var u := TypedLines(p, s, t.color);
    var v := TypedLines(p, s[..n], t.color);
    SuffixLast(t.lines, u, []);
    EraseTyped(v, Glyph(s[n], t.color));
    SuffixErased(t.lines, u);
    if Last(t.lines) == [] && |t.lines| > 1 {
      assert t.lines[|t.lines| - 2] == u[|u| - 2];
    }
  }

  // Moving the view makes no difference to the lines.
  lemma BackspaceErases(t: Term)
    requires WellFormed(t)
    ensures Terminal.Putchar(t, 8).lines == Erased(t.lines) && Terminal.Putchar(t, 8).color == t.color
  {
  }

  lemma EraseTyped(v: seq<Line>, w: Word)
    requires Narrow(v)
    ensures Erased(Wrap(WithLast(v, Last(v) + [w]))) == v
  {
    var line := Last(v) + [w];
    assert line[..|line| - 1] == Last(v);
    assert (WithLast(v, line) + [[]])[..|v|] == WithLast(v, line);
    assert WithLast(WithLast(v, line), Last(v)) == v;
  }

  lemma NothingPrinted(t: Term)
    requires WellFormed(t)
    ensures Printable(t, [])
  {
  }

  class Editor {
    const buf: array<Char>      // nsh_buf
    var bufindex: nat           // nsh_bufindex
    const sb: SB.ScreenBuf      // sb_current
    // The lines up to the end of the prompt, and the colour of what is typed after it.
    ghost const prompt: seq<Line>
    ghost const ink: Byte

    // The retained lines spell the text.
    ghost predicate Agrees()
      reads this, buf, sb
    {
      && buf.Length == 1024 && bufindex <= 1023
      && PromptOk(prompt) && Plain(buf[..bufindex])
      && (forall k :: bufindex <= k < 1024 ==> buf[k] == 0)
      && sb.term.color == ink && Spells(sb.term.lines, prompt, buf[..bufindex], ink)
    }

    ghost predicate Valid()
      reads this, buf, sb, sb.buf, sb.vga
    {
      Agrees() && sb.Valid() && WellFormed(sb.term)
    }

    ghost function Input(): Text
      reads this, buf
      requires bufindex <= buf.Length
    {
      buf[..bufindex]
    }

    // nsh_newline: an empty text, right after the prompt has been printed.
    constructor (sb: SB.ScreenBuf, ghost prompt: seq<Line>)
      requires sb.Valid() && WellFormed(sb.term) && PromptOk(prompt) && Suffix(sb.term.lines, prompt)
      ensures Valid() && Input() == [] && this.sb == sb && this.prompt == prompt && fresh(buf)
    {
      buf := new Char[1024](_ => 0);
      bufindex := 0;
      this.sb := sb;
      this.prompt := prompt;
      this.ink := sb.term.color;
    }

    // nsh_addchar, for any key but the newline: text and lines always agree, and all stays in order
    // unless a backspace strands the viewport pointer below the buffer.
    method AddChar(c: Char)
      requires Valid() && c != 0 && c != 10
      modifies this`bufindex, buf, sb, sb.buf, sb.vga
      ensures Agrees() && sb.Held() && Input() == Edited(old(Input()), c)
      ensures c != 8 && c != 9 ==>
                Input() == if |old(Input())| < 1023 then old(Input()) + [c] else old(Input())
      ensures Valid() <==> !(c == 8 && old(bufindex) > 0 && Strands(ScrolledDown(old(sb.term))))
      ensures sb.term == Typed(ScrolledDown(old(sb.term)), Echo(old(Input()), c))
      ensures Following(old(sb.term)) ==> Following(sb.term)
    {
      hide Completed, Typed, Terminal.Putchar, Spells, Image, Window, RingLine;
      if Following(sb.term) {
        TypingFollows(sb.term, 97);
      }
      sb.ScrollDown();
      ScrollWellFormed(old(sb.term), 0);
      TypedNil(sb.term);
      if c == 8 {
        if bufindex > 0 {
          TypedOne(sb.term, 8);
          Rubout();
        }
      } else if c == 9 {
        if bufindex == 0 {
          return;
        }
        Complete();
      } else {
        if bufindex < 1024 - 1 {
          Append([c]);
        }
      }
    }

    method Rubout()
      requires Valid() && bufindex > 0
      modifies this`bufindex, buf, sb, sb.buf, sb.vga
      ensures Agrees() && sb.Held() && Input() == old(Input())[..old(bufindex) - 1]
      ensures Valid() <==> !Strands(old(sb.term))
      ensures sb.term == Terminal.Putchar(old(sb.term), 8)
      ensures Following(old(sb.term)) ==> Following(sb.term)
    {
      hide Image, Window, RingLine, CursorLine, Measures, Spells, Backspace, Terminal.Putchar, Erased, Erasable;
      BackspaceErases(sb.term);
      EraseSpells(sb.term, prompt, buf[..bufindex]);
      ghost var t := sb.term;
      bufindex := bufindex - 1;
      buf[bufindex] := 0;
      assert buf[..bufindex] == old(buf[..bufindex])[..bufindex];
      assert Plain(buf[..bufindex]);
      PutcharWellFormed(t, 8);
      if Following(t) {
        TypingFollows(t, 8);
      }
      ErasableStays(t);
      sb.Putchar(8);
    }

    // Text that is stored and echoed.
    method Append(r: Text)
      requires Valid() && Plain(r) && bufindex + |r| <= 1023
      modifies this`bufindex, buf, sb, sb.buf, sb.vga
      ensures Valid() && Input() == old(Input()) + r
      ensures Printable(old(sb.term), r) && sb.term == Typed(old(sb.term), r)
      ensures Following(old(sb.term)) ==> Following(sb.term)
    {
      TypeAllSpells(sb.term, prompt, buf[..bufindex], r);
      TypedFollows(sb.term, r);
      sb.Putstr(r);
      for k := 0 to |r|
        invariant bufindex == old(bufindex) + k && buf.Length == 1024
        invariant buf[..bufindex] == old(buf[..bufindex]) + r[..k]
        invariant forall j :: bufindex <= j < 1024 ==> buf[j] == 0
        modifies this`bufindex, buf
      {
        buf[bufindex] := r[k];
        bufindex := bufindex + 1;
      }
      assert r[..|r|] == r;
    }

    // The completion loop of nsh_addchar.
    method Complete()
      requires Valid() && bufindex > 0
      modifies this`bufindex, buf, sb, sb.buf, sb.vga
      ensures Valid() && Input() == Completed(old(Input()), 0)
      ensures |Input()| >= |old(Input())| && sb.term == Typed(old(sb.term), Input()[|old(Input())|..])
      ensures Following(old(sb.term)) ==> Following(sb.term)
    {
      hide *;
      InBuffer();
      ghost var t, s := sb.term, Input();
      TypedNil(t);
      NothingPrinted(t);
      assert s[|s|..] == [];
      for i := 0 to 14
        invariant Valid() && bufindex <= 1023 && buf.Length == 1024
        invariant Completed(Input(), i) == Completed(old(Input()), 0)
        invariant sb.term.lines != [] && (Following(old(sb.term)) ==> Following(sb.term))
        invariant |s| <= |Input()| && Printable(t, Input()[|s|..]) && sb.term == Typed(t, Input()[|s|..])
      {
        NameFacts(i);
        CompletedStep(Input(), i);
        var name := Name(i);
        var p := MatchLength(name);
        if buf[p] == 0 && p < |name| {
          RestOf(Input(), name, p);
          ghost var input := Input();
          TypedJoin(t, input[|s|..], name[p..]);
          assert (input + name[p..])[|s|..] == input[|s|..] + name[p..];
          Append(name[p..]);
          InBuffer();
        }
      }
      CompletedEnd(Input());
    }

    lemma InBuffer()
      requires Valid()
      ensures bufindex <= 1023 && buf.Length == 1024 && sb.term.lines != []
      ensures WellFormed(sb.term) && |Last(sb.term.lines)| < 80
    {
    }

    // How far the text and a name agree.
    method MatchLength(name: Text) returns (p: nat)
      requires Valid() && |name| <= 9 && Plain(name)
      ensures buf.Length == 1024 && bufindex <= 1023 && p < 1024
      ensures buf[p] == 0 && p < |name| <==> ProperPrefix(Input(), name)
      ensures buf[p] == 0 && p < |name| ==> p == bufindex == |Input()| && bufindex + |name[p..]| <= 1023
    {
      p := 0;
      while buf[p] != 0 && p < |name| && buf[p] == name[p]
        invariant p <= bufindex && p <= |name| && buf[..p] == name[..p]
        decreases |name| - p
      {
        p := p + 1;
      }
      if p < bufindex {
        assert buf[..bufindex][p] == buf[p] != 0;
      }
    }

    // Any keys at one prompt, with no scrolling in between: whatever is typed, completed and
    // erased, buffer and screen stay in agreement.
    method TypeKeys(keys: seq<Char>)
      requires Valid() && Following(sb.term)
      requires forall k :: 0 <= k < |keys| ==> keys[k] != 0 && keys[k] != 10
      modifies this`bufindex, buf, sb, sb.buf, sb.vga
      ensures Valid() && Input() == EditedAll(old(Input()), keys)
    {
      assert keys[0..] == keys;
      for k := 0 to |keys|
        invariant Valid() && Following(sb.term)
        invariant EditedAll(Input(), keys[k..]) == EditedAll(old(Input()), keys)
      {
        hide Edited;
        assert keys[k..][1..] == keys[k + 1..];
        TypingFollows(sb.term, 97);
        AddChar(keys[k]);
      }
    }
  }

  // What a list of keys leaves of a text.
  function EditedAll(s: Text, keys: seq<Char>): Text
    decreases |keys|
  {
    if keys == [] then s else EditedAll(Edited(s, keys[0]), keys[1..])
  }

  lemma {:induction false} EditedMore(s: Text, keys: seq<Char>, more: seq<Char>)
    ensures EditedAll(s, keys + more) == EditedAll(EditedAll(s, keys), more)
    decreases |keys|
  {
    hide Edited;
    if keys == [] {
      assert keys + more == more;
    } else {
      assert (keys + more)[1..] == keys[1..] + more;
      EditedMore(Edited(s, keys[0]), keys[1..], more);
    }
  }

  // Ordinary keys are all kept, up to 1023 characters; the ones after that change nothing.
  lemma {:induction false} TypedText(s: Text, keys: seq<Char>)
    requires Plain(keys) && |s| <= 1023
    ensures EditedAll(s, keys) == (s + keys)[..if |s| + |keys| <= 1023 then |s| + |keys| else 1023]
    decreases |keys|
  {
    if keys != [] {
      assert Edited(s, keys[0]) == if |s| < 1023 then s + [keys[0]] else s;
      TypedText(Edited(s, keys[0]), keys[1..]);
      if |s| < 1023 {
        assert s + [keys[0]] + keys[1..] == s + keys;
      } else {
        assert (s + keys)[..1023] == s == (s + keys[1..])[..1023];
      }
    } else {
      assert s + [] == s;
    }
  }

  // Erasing takes back the last character, and nothing from an empty text.
  lemma {:induction false} ErasedText(s: Text, n: nat)
    ensures EditedAll(s, seq(n, _ => 8)) == s[..if n <= |s| then |s| - n else 0]
    decreases n
  {
    if n > 0 {
      assert seq(n, _ => 8)[1..] == seq(n - 1, _ => 8);
      ErasedText(Edited(s, 8), n - 1);
    }
  }

  // So typing and then erasing as often gives the text back, when there was room for it.
  lemma TypedThenErased(s: Text, keys: seq<Char>)
    requires Plain(keys) && |s| + |keys| <= 1023
    ensures EditedAll(s, keys + seq(|keys|, _ => 8)) == s
  {
    hide Edited;
    EditedMore(s, keys, seq(|keys|, _ => 8));
    TypedText(s, keys);
    assert (s + keys)[..|s| + |keys|] == s + keys;
    ErasedText(s + keys, |keys|);
    assert (s + keys)[..|s|] == s;
  }
}
