// The screens of kernel/kernel.c and the commands that switch between them
// (kernel/nsh/builtins/utils.c): several buffers, one VGA memory.

module Screens {
  import opened Terminal
  import SB = ScreenBuf

  class Screens {
    const sb: seq<SB.ScreenBuf>
    var current: nat              // sb_current, as an index
    const vga: array<Word>

    ghost predicate Apart()
      reads this
    {
      && (forall i :: 0 <= i < |sb| ==> sb[i].vga == vga && sb[i].buf != vga)
      && (forall i, j :: 0 <= i < j < |sb| ==> sb[i] != sb[j] && sb[i].buf != sb[j].buf)
    }

    // Every screen is in order, and only the current one is loaded.
    ghost predicate Valid()
      reads this, vga, sb, set i | 0 <= i < |sb| :: sb[i].buf
    {
      && current < |sb| && Apart() && vga.Length >= 16000
      && forall i :: 0 <= i < |sb| ==> sb[i].Valid() && sb[i].loaded == (i == current)
    }

    constructor (sb: seq<SB.ScreenBuf>, vga: array<Word>)
      requires sb != [] && vga.Length >= 16000
      requires forall i :: 0 <= i < |sb| ==> sb[i].vga == vga && sb[i].buf != vga
      requires forall i, j :: 0 <= i < j < |sb| ==> sb[i] != sb[j] && sb[i].buf != sb[j].buf
      requires forall i :: 0 <= i < |sb| ==> sb[i].Valid() && sb[i].loaded == (i == 0)
      ensures Valid() && current == 0 && this.sb == sb
    {
      this.sb := sb;
      this.vga := vga;
      current := 0;
    }

    // The next command: the following screen, in a circle, takes over the display.
    method Next()
      requires Valid()
      modifies this`current, sb, vga
      ensures Valid() && current == (old(current) + 1) % |sb|
      ensures forall i :: 0 <= i < |sb| ==> sb[i].term == old(sb[i].term)
      ensures vga[..2000] == Window(sb[current].term.lines, sb[current].term.view)
    {
      hide Window;
      var to := current + 1;
      Around(current, |sb|);
      if to == |sb| {
        to := 0;
      }
      Switch(to);
    }

    // The prev command: the one before it.
    method Prev()
      requires Valid()
      modifies this`current, sb, vga
      ensures Valid() && (current + 1) % |sb| == old(current)
      ensures forall i :: 0 <= i < |sb| ==> sb[i].term == old(sb[i].term)
      ensures vga[..2000] == Window(sb[current].term.lines, sb[current].term.view)
    {
      hide Window;
      var to := |sb| - 1;
      if current > 0 {
        to := current - 1;
      }
      Around(to, |sb|);
      Switch(to);
    }

    // Unload the current screen, load another.
    method Switch(to: nat)
      requires Valid() && to < |sb|
      modifies this`current, sb, vga
      ensures Valid() && current == to
      ensures forall i :: 0 <= i < |sb| ==> sb[i].term == old(sb[i].term)
      ensures vga[..2000] == Window(sb[current].term.lines, sb[current].term.view)
    {
      hide Window, Image;
      sb[current].Unload();
      current := to;
      sb[current].Load();
    }

    // Output goes to the current screen, and to no other.
    method Putchar(c: Char)
      requires Valid() && (c == 8 ==> !Underflows(sb[current].term))
      modifies sb[current], sb[current].buf, vga
      ensures Valid() <==> (c == 8 ==> old(Erasable(sb[current].term) && !Strands(sb[current].term)))
      ensures sb[current].term == Terminal.Putchar(old(sb[current].term), c)
      ensures forall i :: 0 <= i < |sb| && i != current ==> sb[i].Valid() && sb[i].term == old(sb[i].term)
    {
      hide Erasable, Strands, Underflows;
      sb[current].Putchar(c);
    }
  }

  lemma Around(i: nat, n: nat)
    requires i < n
    ensures (i + 1) % n == if i + 1 < n then i + 1 else 0
  {
  }
}
