// nsh_createcmd of kernel/nsh/nsh.c: splitting the command line in place.

module Tokenizer {
  import opened Terminal

  const SPACE: Char := 32

  // A word starts at a non-space that no non-space precedes.
  predicate IsStart(s: Text, k: nat) {
    k < |s| && s[k] != SPACE && (k == 0 || s[k - 1] == SPACE)
  }

  function StartsFrom(s: Text, k: nat): seq<nat>
    requires k <= |s|
    decreases |s| - k
  {
    if k == |s| then [] else if IsStart(s, k) then [k] + StartsFrom(s, k + 1) else StartsFrom(s, k + 1)
  }

  // The characters from k up to the next space.
  function WordFrom(s: Text, k: nat): Text
    requires k <= |s|
    decreases |s| - k
  {
    if k == |s| || s[k] == SPACE then [] else [s[k]] + WordFrom(s, k + 1)
  }

  // The words of a line: its maximal runs of non-space characters, in order.
  function WordsFrom(s: Text, k: nat): seq<Text>
    requires k <= |s|
    decreases |s| - k
  {
    if k == |s| then []
    else if IsStart(s, k) then [WordFrom(s, k)] + WordsFrom(s, k + 1)
    else WordsFrom(s, k + 1)
  }

  function Words(s: Text): seq<Text> {
    WordsFrom(s, 0)
  }

  // The zero-terminated string at offset p of a buffer.
  function CString(bytes: seq<Char>, p: nat): Text
    requires p <= |bytes|
    decreases |bytes| - p
  {
    if p == |bytes| || bytes[p] == 0 then [] else [bytes[p]] + CString(bytes, p + 1)
  }

  // The first space of every run of spaces is replaced by a terminator.
  function Terminated(s: Text, k: nat): Char
    requires k < |s|
  {
    if s[k] == SPACE && (k == 0 || s[k - 1] != SPACE) then 0 else s[k]
  }

  lemma {:induction false} StartsAndWords(s: Text, k: nat)
    requires k <= |s|
    ensures |WordsFrom(s, k)| == |StartsFrom(s, k)|
    ensures forall j :: 0 <= j < |StartsFrom(s, k)| ==>
              k <= StartsFrom(s, k)[j] < |s| && WordsFrom(s, k)[j] == WordFrom(s, StartsFrom(s, k)[j])
    decreases |s| - k
  {
    if k < |s| {
      StartsAndWords(s, k + 1);
    }
  }

  // In the edited buffer, the string at the start of a word is that word.
  lemma {:induction false} StringIsWord(s: Text, bytes: seq<Char>, k: nat)
    requires k <= |s| < |bytes| && bytes[|s|] == 0
    requires forall i :: 0 <= i < |s| ==> s[i] != 0 && bytes[i] == Terminated(s, i)
    requires k > 0 && k < |s| && s[k] == SPACE ==> s[k - 1] != SPACE
    requires k == 0 && |s| > 0 ==> s[0] != SPACE
    ensures CString(bytes, k) == WordFrom(s, k)
    decreases |s| - k
  {
    if k < |s| && s[k] != SPACE {
      StringIsWord(s, bytes, k + 1);
    }
  }

  lemma {:induction false} StartsAreStarts(s: Text, k: nat)
    requires k <= |s|
    ensures forall j :: 0 <= j < |StartsFrom(s, k)| ==> IsStart(s, StartsFrom(s, k)[j])
    decreases |s| - k
  {
    if k < |s| {
      StartsAreStarts(s, k + 1);
    }
  }

  // Inside a run of spaces, or inside a word, no word starts.
  lemma SkipOne(s: Text, k: nat)
    requires k < |s|
    ensures StartsFrom(s, k) == if IsStart(s, k) then [k] + StartsFrom(s, k + 1) else StartsFrom(s, k + 1)
  {
  }

  lemma NoMoreStarts(s: Text)
    ensures StartsFrom(s, |s|) == []
  {
  }

  // A word reaches from its start to the next space or the end of the line.
  lemma {:induction false} WordExtent(s: Text, k: nat)
    requires k <= |s|
    ensures var e := k + |WordFrom(s, k)|;
            && e <= |s| && WordFrom(s, k) == s[k..e]
            && (forall i :: k <= i < e ==> s[i] != SPACE) && (e < |s| ==> s[e] == SPACE)
    decreases |s| - k
  {
    if k < |s| && s[k] != SPACE {
      WordExtent(s, k + 1);
      assert s[k..] == [s[k]] + s[k + 1..];
    }
  }

  // Position k lies in word j of the line.
  ghost predicate InWord(s: Text, j: nat, k: nat) {
    && j < |StartsFrom(s, 0)| && j < |Words(s)|
    && StartsFrom(s, 0)[j] <= k < StartsFrom(s, 0)[j] + |Words(s)[j]|
  }

  // For any line: every position that is not a space lies in a word, and only in one; no other
  // position lies in any.
  lemma WordsCover(s: Text, k: nat)
    requires k < |s|
    ensures s[k] != SPACE <==> exists j: nat :: InWord(s, j, k)
    ensures forall i: nat, j: nat :: InWord(s, i, k) && InWord(s, j, k) ==> i == j
  {
    var starts := StartsFrom(s, 0);
    StartsAndWords(s, 0);
    StartsAreStarts(s, 0);
    StartsOrdered(s, 0);
    hide StartsFrom, Words;
    if s[k] != SPACE {
      var i := StartOf(s, k);
      StartsComplete(s, 0, i);
      var j :| 0 <= j < |starts| && starts[j] == i;
      WordExtent(s, i);
      assert InWord(s, j, k);
    }
    forall j: nat | InWord(s, j, k)
      ensures s[k] != SPACE && starts[j] == StartOf(s, k)
    {
      WordExtent(s, starts[j]);
      StartUnique(s, starts[j], k);
    }
  }

  // The start of the run of non-spaces around position k.
  function StartOf(s: Text, k: nat): (i: nat)
    requires k < |s|
    ensures i <= k && (s[k] != SPACE ==> IsStart(s, i)) && forall m :: i <= m < k ==> s[m] != SPACE
  {
    if k == 0 || s[k - 1] == SPACE then k else StartOf(s, k - 1)
  }

  lemma StartUnique(s: Text, i: nat, k: nat)
    requires i <= k < |s| && IsStart(s, i) && forall m :: i <= m <= k ==> s[m] != SPACE
    ensures StartOf(s, k) == i
  {
  }

  lemma {:induction false} StartsComplete(s: Text, k: nat, i: nat)
    requires k <= i && IsStart(s, i)
    ensures i in StartsFrom(s, k)
    decreases |s| - k
  {
    if k < i {
      StartsComplete(s, k + 1, i);
    }
  }

  lemma {:induction false} StartsOrdered(s: Text, k: nat)
    requires k <= |s|
    ensures forall j :: 0 <= j < |StartsFrom(s, k)| ==> k <= StartsFrom(s, k)[j] < |s|
    ensures forall i, j :: 0 <= i < j < |StartsFrom(s, k)| ==> StartsFrom(s, k)[i] < StartsFrom(s, k)[j]
    decreases |s| - k
  {
    if k < |s| {
      StartsOrdered(s, k + 1);
    }
  }

  ghost predicate AfterWord(s: Text, j: nat, k: nat) {
    && j < |StartsFrom(s, 0)| && j < |Words(s)|
    && k == StartsFrom(s, 0)[j] + |Words(s)[j]|
  }

  // The characters edited are the one after each word, and a space at the start of the line.
  lemma TerminatedExact(s: Text, k: nat)
    requires k < |s| && s[k] != 0
    ensures Terminated(s, k) == s[k] || Terminated(s, k) == 0
    ensures Terminated(s, k) == 0 <==>
              (k == 0 && s[0] == SPACE)
              || exists j: nat :: AfterWord(s, j, k)
  {
    var starts := StartsFrom(s, 0);
    StartsAndWords(s, 0);
    StartsAreStarts(s, 0);
    StartsOrdered(s, 0);
    hide StartsFrom, Words;
    if Terminated(s, k) == 0 && k > 0 {
      var i := StartOf(s, k - 1);
      StartsComplete(s, 0, i);
      var j :| 0 <= j < |starts| && starts[j] == i;
      WordExtent(s, i);
      assert AfterWord(s, j, k);
    }
    forall j: nat | AfterWord(s, j, k)
      ensures Terminated(s, k) == 0
    {
      WordExtent(s, starts[j]);
      assert IsStart(s, starts[j]) && k > starts[j];
      assert s[k - 1] != SPACE;
    }
  }

  // The starts of the words point to the words, in order.
  lemma WordsAt(s: Text, bytes: seq<Char>, starts: seq<nat>)
    requires |s| < |bytes| && bytes[|s|] == 0 && starts == StartsFrom(s, 0)
    requires forall i :: 0 <= i < |s| ==> s[i] != 0 && bytes[i] == Terminated(s, i)
    ensures |starts| == |Words(s)|
    ensures forall j :: 0 <= j < |starts| ==> starts[j] < |s| && CString(bytes, starts[j]) == Words(s)[j]
  {
    StartsAndWords(s, 0);
    StartsAreStarts(s, 0);
    hide StartsFrom, WordsFrom, CString, WordFrom, Terminated;
    forall j | 0 <= j < |starts|
      ensures starts[j] < |s| && CString(bytes, starts[j]) == Words(s)[j]
    {
      assert IsStart(s, starts[j]);
      StringIsWord(s, bytes, starts[j]);
    }
  }

  // The line s at the start of a buffer, edited up to position i.
  ghost predicate Cut(bytes: seq<Char>, before: seq<Char>, s: Text, i: nat) {
    && i <= |s| <= |before| == |bytes| && s == before[..|s|]
    && forall k :: 0 <= k < |bytes| ==> bytes[k] == if k < i then Terminated(s, k) else before[k]
  }

  lemma CutNothing(before: seq<Char>, s: Text)
    requires |s| <= |before| && s == before[..|s|]
    ensures Cut(before, before, s, 0)
  {
  }

  lemma CutRest(bytes: seq<Char>, before: seq<Char>, s: Text, i: nat)
    requires Cut(bytes, before, s, i)
    ensures i <= |s| <= |bytes| == |before|
    ensures forall k :: i <= k < |s| ==> bytes[k] == s[k]
    ensures forall k :: |s| <= k < |bytes| ==> bytes[k] == before[k]
    ensures forall k :: 0 <= k < i ==> bytes[k] == Terminated(s, k)
  {
  }

  lemma CutWord(bytes: seq<Char>, before: seq<Char>, s: Text, i: nat, j: nat)
    requires Cut(bytes, before, s, i) && i <= j <= |s|
    requires forall k :: i <= k < j ==> s[k] != SPACE
    ensures Cut(bytes, before, s, j)
  {
  }

  lemma CutGap(bytes: seq<Char>, before: seq<Char>, s: Text, i: nat, j: nat)
    requires Cut(bytes, before, s, i) && i < j <= |s|
    requires (i == 0 || s[i - 1] != SPACE) && forall k :: i <= k < j ==> s[k] == SPACE
    ensures Cut(bytes[i := 0], before, s, j)
  {
  }

  class Command {
    const buf: array<Char>       // nsh_buf
    const cmd: array<nat>        // nsh_cmd, as offsets into nsh_buf
    var nargs: nat               // nsh_cmdnarg

    constructor (buf: array<Char>)
      ensures this.buf == buf && cmd.Length == 513
    {
      this.buf := buf;
      cmd := new nat[513];
      nargs := 0;
    }

    // nsh_createcmd, on a line of n characters without zeros in a cleared buffer.
    method CreateCmd(n: nat)
      requires buf.Length == 1024 && n <= 1023 && cmd.Length == 513
      requires forall k :: 0 <= k < n ==> buf[k] != 0
      requires buf[n] == 0
      modifies this`nargs, buf, cmd
      ensures var s := old(buf[..n]);
              && nargs == |Words(s)| <= 512
              && (forall k :: 0 <= k < n ==> buf[k] == Terminated(s, k))
              && (forall j :: 0 <= j < nargs ==> cmd[j] < n && CString(buf[..], cmd[j]) == Words(s)[j])
      ensures forall k :: n <= k < 1024 ==> buf[k] == old(buf[k])
    {
      hide StartsFrom, Words, CString, Cut;
      ghost var s, before := buf[..n], buf[..];
      var ibuf, icmd := 0, 0;
      CutNothing(before, s);
      while ibuf < n
        invariant ibuf <= n && 2 * icmd <= ibuf + 1
        invariant 0 < ibuf < n ==> (s[ibuf] == SPACE <==> s[ibuf - 1] != SPACE)
        invariant ibuf < n && s[ibuf] != SPACE ==> 2 * icmd <= ibuf
        invariant Cut(buf[..], before, s, ibuf)
        invariant StartsFrom(s, 0) == cmd[..icmd] + StartsFrom(s, ibuf)
      {
        ghost var i, bytes := ibuf, buf[..];
        CutRest(bytes, before, s, i);
        var c := buf[ibuf];
        if c != SPACE && c != 0 {
          SkipOne(s, ibuf);
          ghost var found := cmd[..icmd];
          cmd[icmd] := ibuf;
          icmd := icmd + 1;
          assert cmd[..icmd] == found + [ibuf];
          ibuf := SkipWord(n, ibuf, s);
          CutWord(bytes, before, s, i, ibuf);
        } else if c == SPACE {
          SkipOne(s, ibuf);
          buf[ibuf] := 0;
          ibuf := ibuf + 1;
          assert buf[..] == bytes[i := 0];
          ibuf := SkipSpaces(n, ibuf, s);
          CutGap(bytes, before, s, i, ibuf);
        }
      }
      CutRest(buf[..], before, s, n);
      nargs := icmd;
      NoMoreStarts(s);
      assert cmd[..icmd] + [] == cmd[..icmd];
      WordsAt(s, buf[..], cmd[..icmd]);
      forall j | 0 <= j < nargs
        ensures cmd[j] < n && CString(buf[..], cmd[j]) == Words(s)[j]
      {
        assert cmd[j] == cmd[..icmd][j];
      }
    }

    // The loop over the characters of a word.
    method SkipWord(n: nat, start: nat, ghost s: Text) returns (ibuf: nat)
      requires buf.Length == 1024 && start < n <= 1023 && |s| == n && s[start] != SPACE
      requires forall k :: start <= k < n ==> buf[k] == s[k] && s[k] != 0
      requires buf[n] == 0
      ensures start < ibuf <= n
      ensures forall k :: start <= k < ibuf ==> s[k] != SPACE
      ensures ibuf < n ==> s[ibuf] == SPACE
      ensures StartsFrom(s, start + 1) == StartsFrom(s, ibuf)
    {
      ibuf := start;
      while buf[ibuf] != SPACE && buf[ibuf] != 0
        invariant start <= ibuf <= n
        invariant forall k :: start <= k < ibuf ==> s[k] != SPACE
        invariant ibuf > start ==> StartsFrom(s, start + 1) == StartsFrom(s, ibuf)
        decreases n - ibuf
      {
        if ibuf > start {
          SkipOne(s, ibuf);
        }
        ibuf := ibuf + 1;
      }
    }

    // The loop over the spaces after the first one of a run.
    method SkipSpaces(n: nat, start: nat, ghost s: Text) returns (ibuf: nat)
      requires buf.Length == 1024 && 0 < start <= n <= 1023 && |s| == n && s[start - 1] == SPACE
      requires forall k :: start <= k < n ==> buf[k] == s[k] && s[k] != 0
      requires buf[n] == 0
      ensures start <= ibuf <= n
      ensures forall k :: start <= k < ibuf ==> s[k] == SPACE
      ensures ibuf < n ==> s[ibuf] != SPACE
      ensures StartsFrom(s, start) == StartsFrom(s, ibuf)
    {
      ibuf := start;
      while buf[ibuf] == SPACE
        invariant start <= ibuf <= n
        invariant forall k :: start <= k < ibuf ==> s[k] == SPACE
        invariant StartsFrom(s, start) == StartsFrom(s, ibuf)
        decreases n - ibuf
      {
        SkipOne(s, ibuf);
        ibuf := ibuf + 1;
      }
    }
  }

  // Words joined by single spaces.
  function Joined(ws: seq<Text>): Text {
    if ws == [] then [] else if |ws| == 1 then ws[0] else ws[0] + [SPACE] + Joined(ws[1..])
  }

  predicate IsWord(w: Text) {
    w != [] && forall k :: 0 <= k < |w| ==> w[k] != SPACE
  }

  // A line made of words splits into exactly those words.
  lemma {:induction false} SplitJoined(ws: seq<Text>)
    requires forall k :: 0 <= k < |ws| ==> IsWord(ws[k])
    ensures Words(Joined(ws)) == ws
    decreases |ws|
  {
    if ws != [] {
      var s, w := Joined(ws), ws[0];
      var rest := if |ws| == 1 then [] else [SPACE] + Joined(ws[1..]);
      assert s == w + rest;
      WordThenSpace(w, rest, 0);
      InsideWord(w, rest, 1);
      if |ws| > 1 {
        SplitJoined(ws[1..]);
        assert w + rest == w + [SPACE] + Joined(ws[1..]);
        AfterSpace(w + [SPACE], Joined(ws[1..]), 0);
        assert WordsFrom(s, |w|) == WordsFrom(s, |w| + 1);
      }
      assert ws == [w] + ws[1..];
    }
  }

  lemma {:induction false} WordThenSpace(w: Text, rest: Text, k: nat)
    requires IsWord(w) && k <= |w| && (rest == [] || rest[0] == SPACE)
    ensures WordFrom(w + rest, k) == w[k..]
    decreases |w| - k
  {
    if k < |w| {
      WordThenSpace(w, rest, k + 1);
      assert (w + rest)[k] == w[k];
    } else if rest != [] {
      assert (w + rest)[k] == rest[0];
    }
  }

  lemma {:induction false} InsideWord(w: Text, rest: Text, k: nat)
    requires IsWord(w) && 1 <= k <= |w|
    ensures WordsFrom(w + rest, k) == WordsFrom(w + rest, |w|)
    decreases |w| - k
  {
    if k < |w| {
      assert (w + rest)[k - 1] == w[k - 1];
      InsideWord(w, rest, k + 1);
    }
  }

  // What follows a space splits on its own.
  lemma {:induction false} AfterSpace(pre: Text, t: Text, k: nat)
    requires pre != [] && pre[|pre| - 1] == SPACE && k <= |t|
    ensures WordsFrom(pre + t, |pre| + k) == WordsFrom(t, k)
    decreases |t| - k
  {
    if k < |t| {
      AfterSpace(pre, t, k + 1);
      assert (pre + t)[|pre| + k] == t[k];
      assert (pre + t)[|pre| + k - 1] == if k == 0 then SPACE else t[k - 1];
      if IsStart(t, k) {
        SameWord(pre, t, k);
      }
    }
  }

  lemma {:induction false} SameWord(pre: Text, t: Text, k: nat)
    requires k <= |t|
    ensures WordFrom(pre + t, |pre| + k) == WordFrom(t, k)
    decreases |t| - k
  {
    if k < |t| {
      assert (pre + t)[|pre| + k] == t[k];
      if t[k] != SPACE {
        SameWord(pre, t, k + 1);
      }
    }
  }
}
