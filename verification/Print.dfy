// The formatted output of kernel/print.c.

module Print {
  import opened Words

  const DIGITS: string := "0123456789abcdef"

  // A signed word read as an unsigned one.
  function Unsigned(n: I32): U32 {
    if n < 0 then n + 0x1_0000_0000 else n
  }

  // The digits of a number, most significant first.
  function Digits(n: nat, base: nat): (r: string)
    requires 2 <= base <= 16
    ensures |r| > 0
  {
    if n < base then [DIGITS[n]] else Shrinks(n, base); Digits(n / base, base) + [DIGITS[n % base]]
  }

  lemma Shrinks(n: nat, base: nat)
    requires 2 <= base <= n
    ensures 0 < n / base < n
  {
  }

  function Zeros(n: int): (r: string)
    ensures |r| == if n > 0 then n else 0
  {
    seq(if n > 0 then n else 0, _ => '0')
  }

  function Take(s: string, size: nat): string {
    if |s| <= size then s else s[..size]
  }

  // What is being printed: the sign, and the magnitude in unsigned arithmetic.
  function Negative(n: I32, issigned: bool): bool {
    issigned && n < 0
  }

  function Magnitude(n: I32, issigned: bool): U32 {
    if Negative(n, issigned) then (var m: int := n; -m) else Unsigned(n)
  }

  function Sign(n: I32, issigned: bool): string {
    if Negative(n, issigned) then "-" else ""
  }

  function Fill(n: I32, base: nat, issigned: bool, padding: int): string
    requires 2 <= base <= 16
  {
    Zeros(padding - |Digits(Magnitude(n, issigned), base)|)
  }

  // The whole text of a number: sign, padding zeros, digits.
  function NumText(n: I32, base: nat, issigned: bool, padding: int): string
    requires 2 <= base <= 16
  {
    Sign(n, issigned) + Fill(n, base, issigned, padding) + Digits(Magnitude(n, issigned), base)
  }

  // The padding loop stops when it fills the last byte, so it misses a limit that the sign has
  // already used up.
  predicate Overruns(n: I32, base: nat, issigned: bool, padding: int, size: nat)
    requires 2 <= base <= 16
  {
    size == 1 && Negative(n, issigned) && Fill(n, base, issigned, padding) != []
  }

  // The bytes snprintnum writes.
  function NumOut(n: I32, base: nat, issigned: bool, padding: int, size: nat): string
    requires 2 <= base
  {
    if base > 16 || size == 0 then ""
    else if Overruns(n, base, issigned, padding, size) then Sign(n, issigned) + Fill(n, base, issigned, padding)
    else Take(NumText(n, base, issigned, padding), size)
  }

  // The limit is kept, and the text cut at the limit, exactly when the padding does not overrun it.
  lemma NumOutExact(n: I32, base: nat, issigned: bool, padding: int, size: nat)
    requires 2 <= base <= 16 && size > 0
    ensures var out := NumOut(n, base, issigned, padding, size);
            && (|out| <= size <==> !Overruns(n, base, issigned, padding, size))
            && (out == Take(NumText(n, base, issigned, padding), size) <==> !Overruns(n, base, issigned, padding, size))
  {
  }

  lemma OverrunWitness()
    ensures NumOut(-5, 10, true, 3, 1) == "-00"
  {
    assert Digits(5, 10) == "5";
    assert Zeros(2) == "00";
  }

  // The last digit of a number, and the number without it.
  lemma DigitStep(n: nat, base: nat)
    requires 2 <= base <= 16
    ensures var d := Digits(n, base);
            && d[|d| - 1] == DIGITS[n % base]
            && (n < base ==> |d| == 1 && n / base == 0)
            && (n >= base ==> 0 < n / base < n && d[..|d| - 1] == Digits(n / base, base))
  {
    if n >= base {
      Shrinks(n, base);
      var rest := Digits(n / base, base);
      assert (rest + [DIGITS[n % base]])[..|rest|] == rest;
    }
  }

  // basepow: the number of digits.
  method Basepow(n: U32, base: nat) returns (len: nat)
    requires 2 <= base <= 16
    ensures len == |Digits(n, base)|
  {
    len := 0;
    var m: nat := n;
    while true
      invariant |Digits(n, base)| == len + |Digits(m, base)|
      decreases m
    {
      DigitStep(m, base);
      hide Digits;
      m := m / base;
      len := len + 1;
      if m == 0 {
        break;
      }
    }
  }

  // The text `out` written over a buffer at some position.
  ghost predicate Spliced(now: seq<char>, before: seq<char>, at: nat, out: string) {
    && |now| == |before| && at + |out| <= |now|
    && forall j :: 0 <= j < |now| ==> now[j] == if at <= j < at + |out| then out[j - at] else before[j]
  }

  lemma SpliceMore(a: seq<char>, b: seq<char>, c: seq<char>, at: nat, x: string, y: string)
    requires Spliced(b, a, at, x) && Spliced(c, b, at + |x|, y)
    ensures Spliced(c, a, at, x + y)
  {
  }

  lemma SpliceNone(a: seq<char>, at: nat)
    requires at <= |a|
    ensures Spliced(a, a, at, "")
  {
  }

  lemma SpliceOne(a: seq<char>, b: seq<char>, at: nat, x: string, c: char)
    requires Spliced(b, a, at, x) && at + |x| < |b|
    ensures Spliced(b[at + |x| := c], a, at, x + [c])
  {
  }

  // snprintnum, writing from position `at` of the buffer.
  method Snprintnum(buf: array<char>, at: nat, size: nat, n: I32, base: nat, issigned: bool, padding: int) returns (count: nat)
    requires 2 <= base && at + |NumOut(n, base, issigned, padding, size)| <= buf.Length
    modifies buf
    ensures count == |NumOut(n, base, issigned, padding, size)|
    ensures Spliced(buf[..], old(buf[..]), at, NumOut(n, base, issigned, padding, size))
  {
    hide *;
    count := 0;
    ghost var cells := buf[..];
    SpliceNone(cells, at);
    OutShape(n, base, issigned, padding, size);
    if base > 16 || size == 0 {
      return 0;
    }
    ghost var sign, digits := Sign(n, issigned), Digits(Magnitude(n, issigned), base);
    var un := Magnitude(n, issigned);
    var p := at;
    if issigned && n < 0 {
      buf[p] := '-';
      assert buf[..] == cells[p := '-'];
      SpliceOne(cells, cells, at, "", '-');
      assert "" + ['-'] == sign;
      p := p + 1;
      count := 1;
    }
    var nl := Basepow(un, base);
    ghost var signed := buf[..];
    var i := WriteZeros(buf, p, count, size, padding - nl);
    p, count := p + i, count + i;
    SpliceMore(cells, signed, buf[..], at, sign, Zeros(i));
    ghost var padded := buf[..];
    count := WriteDigits(buf, p, count, size, un, base, nl);
    SpliceMore(cells, padded, buf[..], at, sign + Zeros(i), Kept(digits, |sign| + i, size));
  }

  // How many padding zeros the loop writes, when `count` bytes have been written before it.
  function PadCount(padding: int, count: nat, size: nat): nat {
    if padding <= 0 then 0 else if count < size < count + padding then size - count else padding
  }

  // The output is what the sign, the padding loop and the digit loop write.
  lemma OutShape(n: I32, base: nat, issigned: bool, padding: int, size: nat)
    requires 2 <= base
    ensures base > 16 || size == 0 ==> NumOut(n, base, issigned, padding, size) == ""
    ensures Sign(n, issigned) == if issigned && n < 0 then "-" else ""
    ensures base <= 16 && size > 0 ==>
              var sign, digits := Sign(n, issigned), Digits(Magnitude(n, issigned), base);
              var z := PadCount(padding - |digits|, |sign|, size);
              && |Zeros(z)| == z
              && NumOut(n, base, issigned, padding, size) == sign + Zeros(z) + Kept(digits, |sign| + z, size)
  {
    if base <= 16 && size > 0 {
      var sign, digits := Sign(n, issigned), Digits(Magnitude(n, issigned), base);
      OutParts(n, base, issigned, padding, size, PadCount(padding - |digits|, |sign|, size));
    }
  }

  // The padding loop of snprintnum: it stops when the count reaches the limit, not past it.
  method WriteZeros(buf: array<char>, p: nat, count: nat, size: nat, padding: int) returns (i: nat)
    requires p + PadCount(padding, count, size) <= buf.Length
    modifies buf
    ensures i == PadCount(padding, count, size)
    ensures |Zeros(i)| == i && Spliced(buf[..], old(buf[..]), p, Zeros(i))
  {
    ghost var cells := buf[..];
    i := 0;
    while i < padding
      invariant i <= PadCount(padding, count, size)
      invariant i == 0 || count + i != size
      invariant |Zeros(i)| == i && Spliced(buf[..], cells, p, Zeros(i))
    {
      ghost var b := buf[..];
      buf[p + i] := '0';
      assert buf[..] == b[p + i := '0'];
      SpliceOne(cells, b, p, Zeros(i), '0');
      assert Zeros(i + 1) == Zeros(i) + ['0'];
      i := i + 1;
      if count + i == size {
        break;
      }
    }
  }

  function Kept(digits: string, count: nat, size: nat): string {
    if count < size then Take(digits, size - count) else ""
  }

  // What the padding loop leaves, followed by the digits that still fit, is the output.
  lemma OutParts(n: I32, base: nat, issigned: bool, padding: int, size: nat, i: nat)
    requires 2 <= base <= 16 && size > 0 && i <= |Fill(n, base, issigned, padding)|
    requires i == |Fill(n, base, issigned, padding)| || |Sign(n, issigned)| + i == size
    requires if Overruns(n, base, issigned, padding, size) then i == |Fill(n, base, issigned, padding)|
             else |Sign(n, issigned)| + i <= size
    ensures NumOut(n, base, issigned, padding, size) ==
            Sign(n, issigned) + Zeros(i) + Kept(Digits(Magnitude(n, issigned), base), |Sign(n, issigned)| + i, size)
  {
    var sign, fill, digits := Sign(n, issigned), Fill(n, base, issigned, padding), Digits(Magnitude(n, issigned), base);
    assert fill[..i] == Zeros(i);
    if i == |fill| {
      assert fill == Zeros(i);
    }
    if !Overruns(n, base, issigned, padding, size) {
      CutParts(sign, fill, digits, size, i);
    }
  }

  lemma CutParts(sign: string, fill: string, digits: string, size: nat, i: nat)
    requires i <= |fill| && |sign| + i <= size
    requires i == |fill| || |sign| + i == size
    ensures Take(sign + fill + digits, size) == sign + fill[..i] + Kept(digits, |sign| + i, size)
  {
  }

  // The digit loop of snprintnum: right to left, skipping the digits past the limit.
  method WriteDigits(buf: array<char>, p: nat, count0: nat, size: nat, n: nat, base: nat, len: nat) returns (count: nat)
    requires 2 <= base <= 16 && len == |Digits(n, base)|
    requires p + |Kept(Digits(n, base), count0, size)| <= buf.Length
    modifies buf
    ensures var kept := Kept(Digits(n, base), count0, size);
            count == count0 + |kept| && Spliced(buf[..], old(buf[..]), p, kept)
  {
    hide Kept, Digits;
    ghost var cells := buf[..];
    ghost var digits := Digits(n, base);
    ghost var kept := Kept(digits, count0, size);
    count := count0;
    var un: nat := n;
    var nl: int := len;
    KeptShape(digits, count0, size);
    while true
      invariant 1 <= nl <= |digits| && Digits(un, base) == digits[..nl]
      invariant count == count0 + (if nl < |kept| then |kept| - nl else 0)
      invariant forall j :: 0 <= j < buf.Length ==>
                  buf[j] == if p + nl <= j < p + |kept| then kept[j - p] else cells[j]
      decreases nl
    {
      DigitStep(un, base);
      nl := nl - 1;
      assert digits[..nl + 1][nl] == digits[nl];
      assert digits[..nl + 1][..nl] == digits[..nl];
      if count + nl < size {
        buf[p + nl] := DIGITS[un % base];
        count := count + 1;
      }
      un := un / base;
      if un == 0 {
        break;
      }
    }
  }

  lemma KeptShape(digits: string, count: nat, size: nat)
    ensures var kept := Kept(digits, count, size);
            && |kept| <= |digits| && kept == digits[..|kept|]
            && (|kept| < |digits| ==> |kept| == if count < size then size - count else 0)
            && (|kept| > 0 ==> count + |kept| <= size)
  {
  }

  // One variable argument: the word va_arg reads, and the string it points to when it is a pointer.
  datatype Arg = Arg(word: I32, text: string)

  // One piece of a format string, with the padding in force after it and what follows it.
  datatype Directive = Literal(c: char) | Conversion(kind: char) | Stop
  datatype Piece = Piece(directive: Directive, padding: nat, rest: string)

  function NextPiece(fmt: string, padding: nat): (r: Piece)
    requires fmt != ""
    ensures |r.rest| < |fmt|
  {
    if fmt[0] != '%' then Piece(Literal(fmt[0]), padding, fmt[1..])
    else
      var f := fmt[1..];
      var wide := f != "" && '0' <= f[0] <= '9';
      var pad := if wide then f[0] as int - '0' as int else padding;
      var g := if wide then f[1..] else f;
      if g == "" then Piece(Stop, pad, "")
      else if g[0] == '%' then Piece(Literal('%'), pad, g[1..])
      else if g[0] in "csxpbdu" then Piece(Conversion(g[0]), pad, g[1..])
      else Piece(Stop, pad, "")
  }

  function BaseOf(kind: char): nat {
    if kind == 'b' then 2 else if kind == 'd' || kind == 'u' then 10 else 16
  }

  function CharOf(word: I32): char {
    (Unsigned(word) % 256) as char
  }

  // The text of one conversion, without a limit.
  function Converted(kind: char, arg: Arg, padding: nat): string {
    if kind == 'c' then [CharOf(arg.word)]
    else if kind == 's' then arg.text
    else (if kind == 'p' then "0x" else "") + NumText(arg.word, BaseOf(kind), kind == 'd', padding)
  }

  // The bytes one conversion writes when `size` bytes are left. A pointer is skipped, without
  // taking its argument, unless more than two bytes are left.
  function ConvertedOut(kind: char, arg: Arg, padding: nat, size: nat): string
    requires size > 0
  {
    if kind == 'c' then [CharOf(arg.word)]
    else if kind == 's' then Take(arg.text, size)
    else if kind == 'p' then (if size > 2 then "0x" + NumOut(arg.word, 16, false, padding, size - 2) else "")
    else NumOut(arg.word, BaseOf(kind), kind == 'd', padding, size)
  }

  function Takes(kind: char, size: nat): nat {
    if kind == 'p' && size <= 2 then 0 else 1
  }

  // Everything a format string stands for, and what vsnprintf writes of it.
  function Text(fmt: string, va: nat -> Arg, k: nat, padding: nat): string
    decreases |fmt|
  {
    if fmt == "" then ""
    else
      var n := NextPiece(fmt, padding);
      match n.directive
      case Literal(c) => [c] + Text(n.rest, va, k, n.padding)
      case Conversion(kind) => Converted(kind, va(k), n.padding) + Text(n.rest, va, k + 1, n.padding)
      case Stop => ""
  }

  function Out(fmt: string, va: nat -> Arg, k: nat, padding: nat, size: nat): string
    decreases |fmt|
  {
    if fmt == "" || size == 0 then ""
    else
      var n := NextPiece(fmt, padding);
      match n.directive
      case Literal(c) => [c] + Out(n.rest, va, k, n.padding, size - 1)
      case Conversion(kind) =>
        var t := ConvertedOut(kind, va(k), n.padding, size);
        t + if |t| > size then "" else Out(n.rest, va, k + Takes(kind, size), n.padding, size - |t|)
      case Stop => ""
  }

  // Only a negative %d on the last byte can write past the limit.
  lemma ConvertedFits(kind: char, arg: Arg, padding: nat, size: nat)
    requires size > 0
    ensures |ConvertedOut(kind, arg, padding, size)| > size <==> kind == 'd' && Overruns(arg.word, 10, true, padding, size)
    ensures (kind == 'p' ==> size > 2) && |ConvertedOut(kind, arg, padding, size)| <= size ==>
              ConvertedOut(kind, arg, padding, size) == Take(Converted(kind, arg, padding), size)
  {
    hide NumOut, NumText, Overruns, CharOf;
    if kind !in "csp" {
      NumOutExact(arg.word, BaseOf(kind), kind == 'd', padding, size);
      UnsignedStays(arg.word, BaseOf(kind), padding, size);
      assert "" + NumText(arg.word, BaseOf(kind), kind == 'd', padding) == NumText(arg.word, BaseOf(kind), kind == 'd', padding);
    } else if kind == 'p' && size > 2 {
      NumOutExact(arg.word, 16, false, padding, size - 2);
      UnsignedStays(arg.word, 16, padding, size - 2);
      TakeParts("0x", NumText(arg.word, 16, false, padding), size);
    }
  }

  lemma UnsignedStays(n: I32, base: nat, padding: int, size: nat)
    requires 2 <= base <= 16
    ensures !Overruns(n, base, false, padding, size)
  {
  }

  // Some %d meets its last byte with a sign and padding to write.
  predicate Spills(fmt: string, va: nat -> Arg, k: nat, padding: nat, size: nat)
    decreases |fmt|
  {
    if fmt == "" || size == 0 then false
    else
      var n := NextPiece(fmt, padding);
      match n.directive
      case Literal(c) => Spills(n.rest, va, k, n.padding, size - 1)
      case Conversion(kind) =>
        ConvertedFits(kind, va(k), n.padding, size);
        if kind == 'd' && Overruns(va(k).word, 10, true, n.padding, size) then true
        else Spills(n.rest, va, k + Takes(kind, size), n.padding, size - |ConvertedOut(kind, va(k), n.padding, size)|)
      case Stop => false
  }

  // vsnprintf keeps its limit exactly when no %d spills.
  lemma {:induction false} LimitKept(fmt: string, va: nat -> Arg, k: nat, padding: nat, size: nat)
    ensures |Out(fmt, va, k, padding, size)| <= size <==> !Spills(fmt, va, k, padding, size)
    decreases |fmt|
  {
    hide NextPiece, ConvertedOut, Overruns;
    if fmt != "" && size > 0 {
      var n := NextPiece(fmt, padding);
      match n.directive
      case Literal(c) => LimitKept(n.rest, va, k, n.padding, size - 1);
      case Conversion(kind) =>
        ConvertedFits(kind, va(k), n.padding, size);
        var t := ConvertedOut(kind, va(k), n.padding, size);
        if |t| <= size {
          LimitKept(n.rest, va, k + Takes(kind, size), n.padding, size - |t|);
        }
      case Stop =>
    }
  }

  lemma SpillWitness(va: nat -> Arg)
    requires va(0).word == -5
    ensures Spills("%3d", va, 0, 0, 1) && Out("%3d", va, 0, 0, 1) == "-00"
  {
    assert NextPiece("%3d", 0) == Piece(Conversion('d'), 3, "");
    assert Digits(5, 10) == "5";
    OverrunWitness();
  }

  // Every pointer met has more than the two bytes of its prefix left.
  predicate PointersFit(fmt: string, va: nat -> Arg, k: nat, padding: nat, size: nat)
    decreases |fmt|
  {
    if fmt == "" || size == 0 then true
    else
      var n := NextPiece(fmt, padding);
      match n.directive
      case Literal(c) => PointersFit(n.rest, va, k, n.padding, size - 1)
      case Conversion(kind) =>
        var t := ConvertedOut(kind, va(k), n.padding, size);
        (kind == 'p' ==> size > 2) && (|t| <= size ==> PointersFit(n.rest, va, k + 1, n.padding, size - |t|))
      case Stop => true
  }

  // As before, or what follows the first pointer skipped happens to write the prefix in its place.
  predicate PrefixWritten(fmt: string, va: nat -> Arg, k: nat, padding: nat, size: nat)
    decreases |fmt|
  {
    if fmt == "" || size == 0 then true
    else
      var n := NextPiece(fmt, padding);
      match n.directive
      case Literal(c) => PrefixWritten(n.rest, va, k, n.padding, size - 1)
      case Conversion(kind) =>
        var t := ConvertedOut(kind, va(k), n.padding, size);
        if kind == 'p' && size <= 2 then Out(n.rest, va, k, n.padding, size) == "0x"[..size]
        else |t| <= size ==> PrefixWritten(n.rest, va, k + 1, n.padding, size - |t|)
      case Stop => true
  }

  // What is written is the whole text cut at the limit, so that a smaller limit gives a prefix of
  // what a larger one gives, when no %d spills and every pointer met fits.
  lemma OutIsPrefix(fmt: string, va: nat -> Arg, k: nat, padding: nat, size: nat)
    requires PointersFit(fmt, va, k, padding, size) && !Spills(fmt, va, k, padding, size)
    ensures Out(fmt, va, k, padding, size) == Take(Text(fmt, va, k, padding), size)
  {
    FittingPrefix(fmt, va, k, padding, size);
    OutExact(fmt, va, k, padding, size);
  }

  lemma SmallerIsPrefix(fmt: string, va: nat -> Arg, k: nat, padding: nat, small: nat, large: nat)
    requires small <= large
    requires PointersFit(fmt, va, k, padding, small) && !Spills(fmt, va, k, padding, small)
    requires PointersFit(fmt, va, k, padding, large) && !Spills(fmt, va, k, padding, large)
    ensures Out(fmt, va, k, padding, small) == Take(Out(fmt, va, k, padding, large), small)
  {
    hide Out, PointersFit, Spills, Text;
    OutIsPrefix(fmt, va, k, padding, small);
    OutIsPrefix(fmt, va, k, padding, large);
  }

  lemma {:induction false} FittingPrefix(fmt: string, va: nat -> Arg, k: nat, padding: nat, size: nat)
    requires PointersFit(fmt, va, k, padding, size)
    ensures PrefixWritten(fmt, va, k, padding, size)
    decreases |fmt|
  {
    hide NextPiece, ConvertedOut;
    if fmt != "" && size > 0 {
      var n := NextPiece(fmt, padding);
      match n.directive
      case Literal(c) => FittingPrefix(n.rest, va, k, n.padding, size - 1);
      case Conversion(kind) =>
        var t := ConvertedOut(kind, va(k), n.padding, size);
        if |t| <= size {
          FittingPrefix(n.rest, va, k + 1, n.padding, size - |t|);
        }
      case Stop =>
    }
  }

  // And, but for the coincidence above, only then.
  lemma {:induction false} OutExact(fmt: string, va: nat -> Arg, k: nat, padding: nat, size: nat)
    ensures Out(fmt, va, k, padding, size) == Take(Text(fmt, va, k, padding), size) <==>
            !Spills(fmt, va, k, padding, size) && PrefixWritten(fmt, va, k, padding, size)
    decreases |fmt|
  {
    if fmt != "" && size > 0 {
      match NextPiece(fmt, padding).directive
      case Literal(c) => LiteralExact(fmt, va, k, padding, size, c);
      case Conversion(kind) =>
        if kind == 'p' && size <= 2 {
          SkippedExact(fmt, va, k, padding, size);
        } else {
          ConversionExact(fmt, va, k, padding, size, kind);
        }
      case Stop => hide NextPiece, ConvertedOut;
    } else {
      hide NextPiece, ConvertedOut;
    }
  }

  lemma {:induction false} LiteralExact(fmt: string, va: nat -> Arg, k: nat, padding: nat, size: nat, c: char)
    requires fmt != "" && size > 0 && NextPiece(fmt, padding).directive == Literal(c)
    ensures Out(fmt, va, k, padding, size) == Take(Text(fmt, va, k, padding), size) <==>
            !Spills(fmt, va, k, padding, size) && PrefixWritten(fmt, va, k, padding, size)
    decreases |fmt|, 0
  {
    hide NextPiece, ConvertedOut, Overruns, Take;
    var n := NextPiece(fmt, padding);
    OutExact(n.rest, va, k, n.padding, size - 1);
    TakeOne(c, size);
    TakeParts([c], Text(n.rest, va, k, n.padding), size);
    Cancels([c], Out(n.rest, va, k, n.padding, size - 1), Take(Text(n.rest, va, k, n.padding), size - 1));
  }

  lemma SkippedExact(fmt: string, va: nat -> Arg, k: nat, padding: nat, size: nat)
    requires fmt != "" && 1 <= size <= 2 && NextPiece(fmt, padding).directive == Conversion('p')
    ensures Out(fmt, va, k, padding, size) == Take(Text(fmt, va, k, padding), size) <==>
            !Spills(fmt, va, k, padding, size) && PrefixWritten(fmt, va, k, padding, size)
  {
    hide NextPiece, Out, Text, Take, Overruns, ConvertedOut, Converted;
    PointerSkipped(fmt, va, k, padding, size);
    var n := NextPiece(fmt, padding);
    LimitKept(n.rest, va, k, n.padding, size);
    NoPointerOut(va(k), n.padding, size);
  }

  lemma {:induction false} ConversionExact(fmt: string, va: nat -> Arg, k: nat, padding: nat, size: nat, kind: char)
    requires fmt != "" && size > 0 && NextPiece(fmt, padding).directive == Conversion(kind)
    requires kind == 'p' ==> size > 2
    ensures Out(fmt, va, k, padding, size) == Take(Text(fmt, va, k, padding), size) <==>
            !Spills(fmt, va, k, padding, size) && PrefixWritten(fmt, va, k, padding, size)
    decreases |fmt|, 0
  {
    hide NextPiece, ConvertedOut, Converted, Overruns, Take;
    TakeParts(Text(fmt, va, k, padding), "", size);
    var n := NextPiece(fmt, padding);
    var t := ConvertedOut(kind, va(k), n.padding, size);
    ConvertedFits(kind, va(k), n.padding, size);
    if |t| <= size {
      OutExact(n.rest, va, k + 1, n.padding, size - |t|);
      TakeParts(Converted(kind, va(k), n.padding), Text(n.rest, va, k + 1, n.padding), size);
      Cancels(t, Out(n.rest, va, k + 1, n.padding, size - |t|), Take(Text(n.rest, va, k + 1, n.padding), size - |t|));
    }
  }

  lemma TakeOne(c: char, size: nat)
    requires size > 0
    ensures Take([c], size) == [c]
  {
  }

  lemma Cancels(a: string, b: string, c: string)
    ensures a + b == a + c <==> b == c
  {
    if a + b == a + c {
      assert (a + b)[|a|..] == b && (a + c)[|a|..] == c;
    }
  }

  lemma TakeParts(a: string, b: string, size: nat)
    ensures |Take(a, size)| <= size
    ensures Take(a + b, size) == Take(a, size) + Take(b, size - |Take(a, size)|)
  {
  }

  lemma NoPointerOut(arg: Arg, padding: nat, size: nat)
    requires 1 <= size <= 2
    ensures ConvertedOut('p', arg, padding, size) == ""
  {
  }

  // A pointer met with one or two bytes left takes no argument, and its text is missing, whatever
  // follows: the rest is written as if it were not there.
  lemma PointerSkipped(fmt: string, va: nat -> Arg, k: nat, padding: nat, size: nat)
    requires fmt != "" && 1 <= size <= 2 && NextPiece(fmt, padding).directive == Conversion('p')
    ensures var n := NextPiece(fmt, padding);
            && Out(fmt, va, k, padding, size) == Out(n.rest, va, k, n.padding, size)
            && Take(Text(fmt, va, k, padding), size) == "0x"[..size]
  {
    hide NextPiece, NumText, NumOut;
    var n := NextPiece(fmt, padding);
    var text := Converted('p', va(k), n.padding);
    assert text[0] == '0' && text[1] == 'x';
    assert "" + Out(n.rest, va, k, n.padding, size) == Out(n.rest, va, k, n.padding, size);
  }

  lemma PointerWitness(va: nat -> Arg)
    ensures !PointersFit("%pab", va, 0, 0, 2)
    ensures Out("%pab", va, 0, 0, 2) == "ab" && Take(Text("%pab", va, 0, 0), 2) == "0x"
  {
    assert NextPiece("%pab", 0) == Piece(Conversion('p'), 0, "ab");
    PointerSkipped("%pab", va, 0, 0, 2);
    assert NextPiece("ab", 0) == Piece(Literal('a'), 0, "b");
    assert NextPiece("b", 0) == Piece(Literal('b'), 0, "");
    assert Out("b", va, 0, 0, 1) == "b" + Out("", va, 0, 0, 0);
    assert Out("ab", va, 0, 0, 2) == "a" + Out("b", va, 0, 0, 1);
  }

  // One conversion of vsnprintf, written from position `at` with `size` bytes left.
  method Convert(buf: array<char>, at: nat, size: nat, kind: char, arg: Arg, padding: nat) returns (count: nat)
    requires size > 0 && at + |ConvertedOut(kind, arg, padding, size)| <= buf.Length
    modifies buf
    ensures count == |ConvertedOut(kind, arg, padding, size)|
    ensures Spliced(buf[..], old(buf[..]), at, ConvertedOut(kind, arg, padding, size))
  {
    ghost var cells := buf[..];
    SpliceNone(cells, at);
    count := 0;
    if kind == 'c' {
      buf[at] := CharOf(arg.word);
      count := 1;
    } else if kind == 's' {
      hide Spliced;
      while count < |arg.text| && count < size
        invariant count <= |Take(arg.text, size)| && buf.Length == |cells|
        invariant Spliced(buf[..], cells, at, Take(arg.text, size)[..count])
      {
        ghost var b := buf[..];
        buf[at + count] := arg.text[count];
        assert buf[..] == b[at + count := arg.text[count]];
        SpliceOne(cells, b, at, Take(arg.text, size)[..count], arg.text[count]);
        assert Take(arg.text, size)[..count] + [arg.text[count]] == Take(arg.text, size)[..count + 1];
        count := count + 1;
      }
      assert Take(arg.text, size)[..count] == Take(arg.text, size);
    } else if kind == 'p' {
      if size > 2 {
        buf[at] := '0';
        buf[at + 1] := 'x';
        assert Spliced(buf[..], cells, at, "0x");
        hide Spliced, NumOut;
        ghost var b := buf[..];
        count := Snprintnum(buf, at + 2, size - 2, arg.word, 16, false, padding);
        count := count + 2;
        SpliceMore(cells, b, buf[..], at, "0x", NumOut(arg.word, 16, false, padding, size - 2));
      }
    } else {
      hide Spliced, NumOut;
      count := Snprintnum(buf, at, size, arg.word, BaseOf(kind), kind == 'd', padding);
    }
  }

  lemma NextPieceAt(fmt: string, i: nat, padding: nat)
    requires i < |fmt|
    ensures fmt[i] != '%' ==> NextPiece(fmt[i..], padding) == Piece(Literal(fmt[i]), padding, fmt[i + 1..])
    ensures fmt[i] == '%' ==>
              var wide := i + 1 < |fmt| && '0' <= fmt[i + 1] <= '9';
              var pad := if wide then fmt[i + 1] as int - '0' as int else padding;
              var g := if wide then i + 2 else i + 1;
              NextPiece(fmt[i..], padding) ==
              if g < |fmt| && fmt[g] == '%' then Piece(Literal('%'), pad, fmt[g + 1..])
              else if g < |fmt| && fmt[g] in "csxpbdu" then Piece(Conversion(fmt[g]), pad, fmt[g + 1..])
              else Piece(Stop, pad, "")
  {
    assert fmt[i..][1..] == fmt[i + 1..];
    if i + 1 < |fmt| {
      assert fmt[i + 1..][1..] == fmt[i + 2..];
    }
    if i + 2 < |fmt| {
      assert fmt[i + 2..][1..] == fmt[i + 3..];
    }
  }

  // The bytes one piece of a format string puts out.
  function PieceOut(directive: Directive, arg: Arg, padding: nat, size: nat): string
    requires size > 0
  {
    match directive
    case Literal(c) => [c]
    case Conversion(kind) => ConvertedOut(kind, arg, padding, size)
    case Stop => ""
  }

  lemma OutUnfold(fmt: string, va: nat -> Arg, k: nat, padding: nat, size: nat)
    requires fmt != "" && size > 0
    ensures var n := NextPiece(fmt, padding);
            var piece := PieceOut(n.directive, va(k), n.padding, size);
            var taken := if n.directive.Conversion? then Takes(n.directive.kind, size) else 0;
            && (n.directive.Stop? ==> piece == "" && Out(fmt, va, k, padding, size) == "")
            && (!n.directive.Stop? ==>
                  Out(fmt, va, k, padding, size) ==
                  piece + if |piece| > size then "" else Out(n.rest, va, k + taken, n.padding, size - |piece|))
  {
    hide NextPiece, ConvertedOut;
  }

  // One turn of the loop of vsnprintf, at position i of the format string.
  method PutPiece(buf: array<char>, at: nat, size: nat, fmt: string, i: nat, arg: Arg, padding: nat)
      returns (go: bool, next: nat, taken: nat, pad: nat, wrote: nat)
    requires i < |fmt| && size > 0
    requires var n := NextPiece(fmt[i..], padding); at + |PieceOut(n.directive, arg, n.padding, size)| <= buf.Length
    modifies buf
    ensures var n := NextPiece(fmt[i..], padding);
            var piece := PieceOut(n.directive, arg, n.padding, size);
            && go == !n.directive.Stop?
            && wrote == |piece| && Spliced(buf[..], old(buf[..]), at, piece)
            && pad == n.padding
            && taken == (if n.directive.Conversion? then Takes(n.directive.kind, size) else 0)
            && (go ==> i < next <= |fmt| && n.rest == fmt[next..])
  {
    NextPieceAt(fmt, i, padding);
    hide NextPiece, ConvertedOut, Spliced, Takes;
    ghost var before := buf[..];
    SpliceNone(before, at);
    go, next, taken, pad, wrote := true, i, 0, padding, 0;
    if fmt[next] == '%' {
      next := next + 1;
      if next < |fmt| && '0' <= fmt[next] <= '9' {
        pad := fmt[next] as int - '0' as int;
        next := next + 1;
      }
      if next < |fmt| && fmt[next] == '%' {
        wrote := PutChar(buf, at, '%');
      } else if next < |fmt| && fmt[next] in "csxpbdu" {
        wrote := Convert(buf, at, size, fmt[next], arg, pad);
        taken := Takes(fmt[next], size);
      } else {
        go := false;
        return;
      }
    } else {
      wrote := PutChar(buf, at, fmt[next]);
    }
    next := next + 1;
  }

  method PutChar(buf: array<char>, at: nat, c: char) returns (wrote: nat)
    requires at < buf.Length
    modifies buf
    ensures wrote == 1 && Spliced(buf[..], old(buf[..]), at, [c])
  {
    buf[at] := c;
    wrote := 1;
  }

  // vsnprintf
  method Vsnprintf(buf: array<char>, size: nat, fmt: string, va: nat -> Arg) returns (count: nat)
    requires |Out(fmt, va, 0, 0, size)| <= buf.Length
    modifies buf
    ensures count == |Out(fmt, va, 0, 0, size)|
    ensures Spliced(buf[..], old(buf[..]), 0, Out(fmt, va, 0, 0, size))
  {
    hide *;
    ghost var cells, out := buf[..], Out(fmt, va, 0, 0, size);
    ghost var written := "";
    SpliceNone(cells, 0);
    count := 0;
    var i: nat, k: nat, padding: nat := 0, 0, 0;
    assert fmt[0..] == fmt;
    NoMore(out);
    while i < |fmt| && count < size
      invariant i <= |fmt| && count == |written| <= |out| <= buf.Length == |cells|
      invariant Spliced(buf[..], cells, 0, written)
      invariant out == written + if count > size then "" else Out(fmt[i..], va, k, padding, size - count)
      decreases |fmt| - i
    {
      ghost var before := buf[..];
      ghost var n := NextPiece(fmt[i..], padding);
      ghost var piece := PieceOut(n.directive, va(k), n.padding, size - count);
      OutUnfold(fmt[i..], va, k, padding, size - count);
      var go, next, taken, pad, wrote := PutPiece(buf, count, size - count, fmt, i, va(k), padding);
      SpliceMore(cells, before, buf[..], 0, written, piece);
      if !go {
        NoMore(written);
        return;
      }
      ghost var rest := if count + |piece| > size then "" else Out(fmt[next..], va, k + taken, pad, size - count - |piece|);
      Associates(written, piece, rest);
      written, count := written + piece, count + wrote;
      i, k, padding := next, k + taken, pad;
    }
    if count <= size {
      OutStops(fmt[i..], va, k, padding, size - count);
    }
    NoMore(written);
  }

  lemma NoMore(s: string)
    ensures s + "" == s && "" + s == s
  {
  }

  lemma Associates(a: string, b: string, c: string)
    ensures a + (b + c) == a + b + c
  {
  }

  lemma OutStops(fmt: string, va: nat -> Arg, k: nat, padding: nat, size: nat)
    requires fmt == "" || size == 0
    ensures Out(fmt, va, k, padding, size) == ""
  {
  }
}
