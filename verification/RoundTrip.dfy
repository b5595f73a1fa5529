// Printing a number and parsing the text gives the number back.

module RoundTrip {
  import opened Words
  import opened Print
  import opened Strto

  lemma DigitChar(v: nat, base: nat)
    requires v < base <= 16
    ensures IsDigit(DIGITS[v], base) && DigitVal(DIGITS[v]) == v
  {
  }

  ghost predicate AllDigits(s: string, i: nat, base: nat) {
    i <= |s| && forall k :: i <= k < |s| ==> IsDigit(s[k], base)
  }

  lemma {:induction false} ValueSame(s: string, t: string, i: nat, j: nat, base: nat)
    requires i <= j <= |s| && j <= |t| && s[..j] == t[..j]
    ensures Value(s, i, j, base) == Value(t, i, j, base)
    decreases j
  {
    if i < j {
      assert s[..j - 1] == s[..j][..j - 1] == t[..j - 1];
      assert s[j - 1] == s[..j][j - 1] == t[j - 1];
      ValueSame(s, t, i, j - 1, base);
    }
  }

  // The digits of n, after any text, spell n.
  lemma {:induction false} DigitsSpell(pre: string, n: nat, base: nat)
    requires 2 <= base <= 16
    ensures var s := pre + Digits(n, base);
            AllDigits(s, |pre|, base) && Value(s, |pre|, |s|, base) == n
    decreases n
  {
    hide Digits, DigitVal, IsDigit;
    var s := pre + Digits(n, base);
    DigitStep(n, base);
    DigitChar(n % base, base);
    if n < base {
      assert Value(s, |pre|, |s|, base) == Value(s, |pre|, |s| - 1, base) * base + DigitVal(At(s, |s| - 1));
    } else {
      var t := pre + Digits(n / base, base);
      DigitsSpell(pre, n / base, base);
      assert s == t + [DIGITS[n % base]];
      assert s[..|t|] == t[..|t|];
      ValueSame(s, t, |pre|, |t|, base);
      assert AllDigits(s, |pre|, base) by {
        forall k | |pre| <= k < |s|
          ensures IsDigit(s[k], base)
        {
          assert k < |t| ==> s[k] == t[k];
        }
      }
      assert n == n / base * base + n % base;
    }
  }

  // Leading zeros add nothing.
  lemma {:induction false} ZerosSpell(s: string, i: nat, m: nat, j: nat, base: nat)
    requires i <= m <= j <= |s|
    requires forall k :: i <= k < m ==> s[k] == '0'
    ensures Value(s, i, j, base) == Value(s, m, j, base)
    decreases j
  {
    if m < j {
      ZerosSpell(s, i, m, j - 1, base);
    } else if i < j {
      ZerosSpell(s, i, m - 1, j - 1, base);
      assert Value(s, i, j, base) == Value(s, i, j - 1, base) * base + 0;
      assert Value(s, m - 1, j - 1, base) == 0;
    }
  }

  lemma {:induction false} RunToEnd(s: string, i: nat, base: nat)
    requires AllDigits(s, i, base)
    ensures RunEnd(s, i, base) == |s|
    decreases |s| - i
  {
    if i < |s| {
      RunToEnd(s, i + 1, base);
    }
  }

  // After any text, padding zeros and digits spell the number and run to the end.
  lemma PaddedSpell(pre: string, n: nat, base: nat, zeros: int)
    requires 2 <= base <= 16
    ensures var s := pre + Zeros(zeros) + Digits(n, base);
            && |s| > |pre| && AllDigits(s, |pre|, base)
            && RunEnd(s, |pre|, base) == |s|
            && Value(s, |pre|, |s|, base) == n
  {
    var z := Zeros(zeros);
    var s := pre + z + Digits(n, base);
    DigitsSpell(pre + z, n, base);
    DigitChar(0, base);
    assert AllDigits(s, |pre|, base);
    RunToEnd(s, |pre|, base);
    ZerosSpell(s, |pre|, |pre| + |z|, |s|, base);
  }

  // %d, read by strtol in base 10, for every 32-bit int.
  lemma PrintParseSigned(n: I32, padding: int)
    ensures var s := NumText(n, 10, true, padding); LongValue(s, 10) == n && EndPtr(s, 10, true) == |s|
  {
    var s := NumText(n, 10, true, padding);
    PaddedSpell(Sign(n, true), Magnitude(n, true), 10, padding - |Digits(Magnitude(n, true), 10)|);
    DigitHead(s, |Sign(n, true)|, 10);
    hide Value, RunEnd, Digits, Zeros;
  }

  // %u, %x and %b, read by strtoul in the same base, for every 32-bit unsigned.
  lemma PrintParseUnsigned(n: I32, base: nat, padding: int)
    requires 2 <= base <= 16
    ensures var s := NumText(n, base, false, padding); UlongValue(s, base) == Unsigned(n) && EndPtr(s, base, false) == |s|
  {
    var s := NumText(n, base, false, padding);
    PaddedSpell("", Unsigned(n), base, padding - |Digits(Unsigned(n), base)|);
    DigitHead(s, 0, base);
    hide Value, RunEnd, Digits, Zeros;
  }

  // %p, read by strtol in base 0 (as the alloc builtin prints addresses and the free builtin reads
  // them): the address comes back exactly when it is below 2^31.
  lemma PrintParsePointer(n: I32, padding: nat)
    ensures var s := "0x" + NumText(n, 16, false, padding);
            && (LongValue(s, 0) == Unsigned(n) <==> Unsigned(n) < 0x8000_0000)
            && EndPtr(s, 0, true) == |s|
  {
    hide Digits, Zeros, RunEnd, Value, AllDigits;
    var text := NumText(n, 16, false, padding);
    var s := "0x" + text;
    PaddedSpell("0x", Unsigned(n), 16, padding - |Digits(Unsigned(n), 16)|);
    assert "" + Zeros(padding - |Digits(Unsigned(n), 16)|) == Zeros(padding - |Digits(Unsigned(n), 16)|);
    assert s == "0x" + Zeros(padding - |Digits(Unsigned(n), 16)|) + Digits(Unsigned(n), 16);
    assert At(s, 0) == '0' && At(s, 1) == 'x';
    assert StartAt(s, 0, true) == Start(false, 2, 16);
  }

  // A digit is neither a space, a sign nor the letter of the hexadecimal prefix.
  lemma DigitHead(s: string, i: nat, base: nat)
    requires i < |s| && base <= 16 && AllDigits(s, i, base)
    requires i == 0 || (i == 1 && s[0] == '-')
    ensures AfterSpaces(s, 0) == 0
    ensures At(s, i) != ' ' && At(s, i) != '-' && At(s, i) != '+' && At(s, i + 1) != 'x' && At(s, i + 1) != 'X'
  {
    assert IsDigit(s[i], base);
    if i + 1 < |s| {
      assert IsDigit(s[i + 1], base);
    }
  }
}
