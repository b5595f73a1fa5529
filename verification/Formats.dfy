// What the formats of kernel/print.c stand for: literal text, widths and conversions, and the
// numbers read back from what a conversion writes.

module Formats {
  import opened Words
  import opened Print
  import opened Strto
  import opened RoundTrip

  // The width of a conversion: nothing, or one decimal digit.
  predicate IsWidth(w: string) {
    w == "" || (|w| == 1 && '0' <= w[0] <= '9')
  }

  // A width stays in force for the conversions after it.
  function WidthOf(w: string, padding: nat): nat
    requires IsWidth(w)
  {
    if w == "" then padding else w[0] as int - '0' as int
  }

  lemma ConversionPiece(w: string, kind: char, rest: string, padding: nat)
    requires IsWidth(w) && kind in "csxpbdu"
    ensures NextPiece("%" + w + [kind] + rest, padding) == Piece(Conversion(kind), WidthOf(w, padding), rest)
  {
    var fmt := "%" + w + [kind] + rest;
    assert fmt[1..] == w + [kind] + rest;
    if w == "" {
      assert fmt[1..][0] == kind && fmt[1..][1..] == rest;
    } else {
      assert fmt[1..][0] == w[0] && fmt[1..][1..] == [kind] + rest && fmt[1..][1..][1..] == rest;
    }
  }

  // A conversion takes the next argument.
  lemma ConversionText(w: string, kind: char, rest: string, va: nat -> Arg, k: nat, padding: nat)
    requires IsWidth(w) && kind in "csxpbdu"
    ensures Text("%" + w + [kind] + rest, va, k, padding) ==
            Converted(kind, va(k), WidthOf(w, padding)) + Text(rest, va, k + 1, WidthOf(w, padding))
  {
    hide NextPiece, Converted;
    ConversionPiece(w, kind, rest, padding);
  }

  // Text without a per cent sign stands for itself.
  lemma {:induction false} LiteralText(text: string, rest: string, va: nat -> Arg, k: nat, padding: nat)
    requires '%' !in text
    ensures Text(text + rest, va, k, padding) == text + Text(rest, va, k, padding)
    decreases |text|
  {
    if text == "" {
      assert text + rest == rest;
      NoMore(Text(rest, va, k, padding));
    } else {
      var fmt := text + rest;
      assert fmt[0] == text[0] && fmt[1..] == text[1..] + rest;
      assert NextPiece(fmt, padding) == Piece(Literal(text[0]), padding, text[1..] + rest);
      LiteralText(text[1..], rest, va, k, padding);
      Associates([text[0]], text[1..], Text(rest, va, k, padding));
      assert [text[0]] + text[1..] == text;
    }
  }

  // Two of them stand for one.
  lemma PercentText(rest: string, va: nat -> Arg, k: nat, padding: nat)
    ensures Text("%%" + rest, va, k, padding) == "%" + Text(rest, va, k, padding)
  {
    var fmt := "%%" + rest;
    assert fmt[1..] == "%" + rest && fmt[1..][1..] == rest;
    assert NextPiece(fmt, padding) == Piece(Literal('%'), padding, rest);
  }

  // Anything else after one ends the text.
  lemma UnknownText(c: char, rest: string, va: nat -> Arg, k: nat, padding: nat)
    requires c !in "%csxpbdu" && !('0' <= c <= '9')
    ensures Text("%" + [c] + rest, va, k, padding) == ""
    ensures Text("%", va, k, padding) == ""
  {
    var fmt := "%" + [c] + rest;
    assert fmt[1..] == [c] + rest;
    assert NextPiece(fmt, padding) == Piece(Stop, padding, "");
    assert NextPiece("%", padding) == Piece(Stop, padding, "");
  }

  // A format that is one conversion, with room for its text.
  lemma OneConversion(w: string, kind: char, va: nat -> Arg, size: nat)
    requires IsWidth(w) && kind in "csxpbdu"
    requires |Text("%" + w + [kind], va, 0, 0)| <= size
    ensures Out("%" + w + [kind], va, 0, 0, size) == Converted(kind, va(0), WidthOf(w, 0))
  {
    var fmt, t := "%" + w + [kind], Converted(kind, va(0), WidthOf(w, 0));
    assert fmt + "" == fmt;
    ConversionPiece(w, kind, "", 0);
    ConversionText(w, kind, "", va, 0, 0);
    hide NextPiece, Converted, ConvertedOut, Overruns, Take, Out;
    assert Text("", va, 1, WidthOf(w, 0)) == "";
    NoMore(t);
    RoomForOne(kind, va(0), WidthOf(w, 0), size);
    if size > 0 {
      OutUnfold(fmt, va, 0, 0, size);
      OutStops("", va, Takes(kind, size), WidthOf(w, 0), size - |t|);
    } else {
      OutStops(fmt, va, 0, 0, 0);
    }
  }

  // A conversion whose text fits is written whole.
  lemma RoomForOne(kind: char, arg: Arg, padding: nat, size: nat)
    requires kind in "csxpbdu" && |Converted(kind, arg, padding)| <= size
    ensures size > 0 ==> ConvertedOut(kind, arg, padding, size) == Converted(kind, arg, padding)
    ensures size == 0 ==> Converted(kind, arg, padding) == ""
  {
    hide Digits, NumOut;
    if size > 0 {
      ConvertedFits(kind, arg, padding, size);
    }
  }

  // %u, %x and %b, with any width, read by strtoul in base 10, 16 and 2.
  lemma UnsignedFormats(w: string, va: nat -> Arg, size: nat)
    requires IsWidth(w)
    ensures |Text("%" + w + "u", va, 0, 0)| <= size ==> ReadsUnsigned(Out("%" + w + "u", va, 0, 0, size), 10, va(0).word, w)
    ensures |Text("%" + w + "x", va, 0, 0)| <= size ==> ReadsUnsigned(Out("%" + w + "x", va, 0, 0, size), 16, va(0).word, w)
    ensures |Text("%" + w + "b", va, 0, 0)| <= size ==> ReadsUnsigned(Out("%" + w + "b", va, 0, 0, size), 2, va(0).word, w)
  {
    UnsignedFormat(w, 'u', 10, va, size);
    UnsignedFormat(w, 'x', 16, va, size);
    UnsignedFormat(w, 'b', 2, va, size);
  }

  // The text is the word, read as unsigned and modulo 2^32, to its end, and at least as wide.
  predicate ReadsUnsigned(s: string, base: nat, word: I32, w: string)
    requires IsWidth(w)
  {
    UlongValue(s, base) == word % 0x1_0000_0000 && EndPtr(s, base, false) == |s| >= WidthOf(w, 0)
  }

  lemma UnsignedFormat(w: string, kind: char, base: nat, va: nat -> Arg, size: nat)
    requires IsWidth(w) && (kind, base) in {('u', 10), ('x', 16), ('b', 2)}
    ensures |Text("%" + w + [kind], va, 0, 0)| <= size ==>
              ReadsUnsigned(Out("%" + w + [kind], va, 0, 0, size), base, va(0).word, w)
  {
    hide NumText, Text, Out, UlongValue, EndPtr, Converted, WidthOf;
    if |Text("%" + w + [kind], va, 0, 0)| <= size {
      OneConversion(w, kind, va, size);
      NumberText(kind, base, va(0), WidthOf(w, 0));
      PrintParseUnsigned(va(0).word, base, WidthOf(w, 0));
      NumTextWide(va(0).word, base, false, WidthOf(w, 0));
    }
  }

  lemma NumberText(kind: char, base: nat, arg: Arg, padding: nat)
    requires (kind, base) in {('u', 10), ('x', 16), ('b', 2)}
    ensures Converted(kind, arg, padding) == NumText(arg.word, base, false, padding)
    ensures Unsigned(arg.word) == arg.word % 0x1_0000_0000
  {
    hide NumText, Digits;
    NoMore(NumText(arg.word, base, false, padding));
  }

  // %d, with any width, read by strtol in base 10.
  lemma SignedFormat(w: string, va: nat -> Arg, size: nat)
    requires IsWidth(w) && |Text("%" + w + "d", va, 0, 0)| <= size
    ensures var s := Out("%" + w + "d", va, 0, 0, size);
            LongValue(s, 10) == va(0).word && EndPtr(s, 10, true) == |s| >= WidthOf(w, 0)
  {
    hide NumText, Text, Out, LongValue, EndPtr, Converted, WidthOf;
    OneConversion(w, 'd', va, size);
    SignedTexts(va(0), WidthOf(w, 0));
    PrintParseSigned(va(0).word, WidthOf(w, 0));
    NumTextWide(va(0).word, 10, true, WidthOf(w, 0));
  }

  lemma SignedTexts(arg: Arg, padding: nat)
    ensures Converted('d', arg, padding) == NumText(arg.word, 10, true, padding)
    ensures Converted('p', arg, padding) == "0x" + NumText(arg.word, 16, false, padding)
    ensures Converted('p', arg, padding)[..2] == "0x"
    ensures Unsigned(arg.word) == arg.word % 0x1_0000_0000 && (Unsigned(arg.word) < 0x8000_0000 <==> arg.word >= 0)
  {
    hide NumText, Digits;
    NoMore(NumText(arg.word, 10, true, padding));
  }

  // %p, read by strtol in base 0: the address, exactly when it is below 2^31.
  lemma PointerFormat(w: string, va: nat -> Arg, size: nat)
    requires IsWidth(w) && |Text("%" + w + "p", va, 0, 0)| <= size
    ensures var s := Out("%" + w + "p", va, 0, 0, size);
            && |s| >= 2 && s[..2] == "0x" && EndPtr(s, 0, true) == |s|
            && (LongValue(s, 0) == va(0).word % 0x1_0000_0000 <==> va(0).word >= 0)
  {
    hide NumText, Text, Out, LongValue, EndPtr, Converted, WidthOf, Unsigned;
    OneConversion(w, 'p', va, size);
    SignedTexts(va(0), WidthOf(w, 0));
    PrintParsePointer(va(0).word, WidthOf(w, 0));
  }

  // %c is the character of the low byte, %s the text pointed to.
  lemma TextFormats(w: string, va: nat -> Arg, size: nat)
    requires IsWidth(w)
    ensures size > 0 ==>
              var s := Out("%" + w + "c", va, 0, 0, size); |s| == 1 && s[0] as int == va(0).word % 256
    ensures |va(0).text| <= size ==> Out("%" + w + "s", va, 0, 0, size) == va(0).text
  {
    hide Text, Out, WidthOf, NextPiece;
    ConversionText(w, 'c', "", va, 0, 0);
    ConversionText(w, 's', "", va, 0, 0);
    NothingText(va, 1, WidthOf(w, 0));
    NoMore("%" + w + "c");
    NoMore("%" + w + "s");
    NoMore(va(0).text);
    if size > 0 {
      OneConversion(w, 'c', va, size);
    }
    if |va(0).text| <= size {
      OneConversion(w, 's', va, size);
    }
  }

  // A number is its sign and its digits, with zeros between them up to the width; the digits do
  // not begin with a zero but for zero itself.
  lemma NumTextWide(n: I32, base: nat, issigned: bool, padding: int)
    requires 2 <= base <= 16
    ensures var sign, digits := Sign(n, issigned), Digits(Magnitude(n, issigned), base);
            |NumText(n, base, issigned, padding)| == |sign| + if padding > |digits| then padding else |digits|
    ensures Digits(Magnitude(n, issigned), base)[0] == '0' <==> n == 0
  {
    FirstDigit(Magnitude(n, issigned), base);
  }

  lemma {:induction false} FirstDigit(n: nat, base: nat)
    requires 2 <= base <= 16
    ensures Digits(n, base)[0] == '0' <==> n == 0
    ensures n == 0 ==> Digits(n, base) == "0"
    decreases n
  {
    if n >= base {
      Shrinks(n, base);
      FirstDigit(n / base, base);
    } else {
      assert Digits(n, base) == [DIGITS[n]];
    }
  }

  // The line alloc_loop prints for a chunk: its address and its size.
  const CHUNK_ADDR: string := "chunk: {\n    addr = "
  const CHUNK_SIZE: string := "\n    size = "
  const CHUNK_END: string := "\n}\n"

  lemma ChunkLine(va: nat -> Arg)
    ensures Text(CHUNK_ADDR + ("%p" + (CHUNK_SIZE + ("%u" + CHUNK_END))), va, 0, 0) ==
            CHUNK_ADDR + ("0x" + NumText(va(0).word, 16, false, 0)
            + (CHUNK_SIZE + (NumText(va(1).word, 10, false, 0) + CHUNK_END)))
  {
    hide *;
    NumberTexts(va);
    ChunkParts(va);
    var u := "%u" + CHUNK_END;
    var p := "%p" + (CHUNK_SIZE + u);
    ConversionText("", 'u', CHUNK_END, va, 1, 0);
    LiteralText(CHUNK_SIZE, u, va, 1, 0);
    ConversionText("", 'p', CHUNK_SIZE + u, va, 0, 0);
    LiteralText(CHUNK_ADDR, p, va, 0, 0);
    assert "%" + "" + ['u'] + CHUNK_END == u && "%" + "" + ['p'] + (CHUNK_SIZE + u) == p;
  }

  lemma NumberTexts(va: nat -> Arg)
    ensures Converted('p', va(0), 0) == "0x" + NumText(va(0).word, 16, false, 0)
    ensures Converted('u', va(1), 0) == NumText(va(1).word, 10, false, 0)
    ensures IsWidth("") && WidthOf("", 0) == 0
  {
    NumberText('u', 10, va(1), 0);
  }

  lemma ChunkParts(va: nat -> Arg)
    ensures '%' !in CHUNK_ADDR && '%' !in CHUNK_SIZE
    ensures Text(CHUNK_END, va, 2, 0) == CHUNK_END
  {
    hide Text, NextPiece;
    EndLiteral();
    LiteralText(CHUNK_END, "", va, 2, 0);
    NothingText(va, 2, 0);
    NoMore(CHUNK_END);
  }

  lemma EndLiteral()
    ensures '%' !in CHUNK_END
  {
  }

  lemma NothingText(va: nat -> Arg, k: nat, padding: nat)
    ensures Text("", va, k, padding) == ""
  {
  }
}
