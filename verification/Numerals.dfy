// What lib/std/strtol.c and lib/std/strtoul.c read, by the form of the text: spaces, a sign, a
// prefix, digits of either case, and whatever follows.

module Numerals {
  import opened Strto

  // Letters are digits from ten up, in either case.
  lemma LetterValues(i: nat)
    requires i < 26
    ensures DigitVal('a' + i as char) == DigitVal('A' + i as char) == 10 + i
    ensures i < 10 ==> DigitVal('0' + i as char) == i
  {
  }

  // The same character, but for the case of a letter.
  predicate SameLetter(a: char, b: char) {
    a == b
    || ('a' <= a <= 'z' && b as int == a as int - 32)
    || ('A' <= a <= 'Z' && b as int == a as int + 32)
  }

  // The case of letters makes no difference.
  lemma CaseBlind(s: string, t: string, base: nat)
    requires |s| == |t| && forall i :: 0 <= i < |s| ==> SameLetter(s[i], t[i])
    ensures LongValue(s, base) == LongValue(t, base) && EndPtr(s, base, true) == EndPtr(t, base, true)
    ensures UlongValue(s, base) == UlongValue(t, base) && EndPtr(s, base, false) == EndPtr(t, base, false)
  {
    SameStarts(s, t, base, true);
    SameStarts(s, t, base, false);
    hide StartAt, RunEnd, Value;
    var a, b := StartAt(s, base, true), StartAt(s, base, false);
    SameRun(s, t, a.first, a.base);
    SameRun(s, t, b.first, b.base);
    SameValue(s, t, a.first, RunEnd(s, a.first, a.base), a.base);
    SameValue(s, t, b.first, RunEnd(s, b.first, b.base), b.base);
  }

  lemma SameStarts(s: string, t: string, base: nat, signed: bool)
    requires |s| == |t| && forall i :: 0 <= i < |s| ==> SameLetter(s[i], t[i])
    ensures StartAt(s, base, signed) == StartAt(t, base, signed)
  {
    SameSpaces(s, t, 0);
    hide AfterSpaces;
  }

  lemma {:induction false} SameSpaces(s: string, t: string, i: nat)
    requires |s| == |t| && forall i :: 0 <= i < |s| ==> SameLetter(s[i], t[i])
    ensures AfterSpaces(s, i) == AfterSpaces(t, i)
    decreases |s| - i
  {
    if i < |s| {
      assert SameLetter(s[i], t[i]);
      SameSpaces(s, t, i + 1);
    }
  }

  lemma {:induction false} SameRun(s: string, t: string, i: nat, base: nat)
    requires |s| == |t| && forall i :: 0 <= i < |s| ==> SameLetter(s[i], t[i])
    ensures RunEnd(s, i, base) == RunEnd(t, i, base)
    decreases |s| - i
  {
    if i < |s| {
      assert SameLetter(s[i], t[i]);
      SameRun(s, t, i + 1, base);
    }
  }

  lemma {:induction false} SameValue(s: string, t: string, i: nat, j: nat, base: nat)
    requires |s| == |t| && i <= j && forall i :: 0 <= i < |s| ==> SameLetter(s[i], t[i])
    ensures Value(s, i, j, base) == Value(t, i, j, base)
    decreases j
  {
    if i < j {
      if j - 1 < |s| {
        assert SameLetter(s[j - 1], t[j - 1]);
      }
      SameValue(s, t, i, j - 1, base);
    }
  }

  function Spaces(n: nat): (r: string)
    ensures |r| == n
  {
    seq(n, _ => ' ')
  }

  // A numeral: at least one digit of its base, in what follows no more of them, and a prefix and a
  // base that go together. Without a prefix, base 0 means octal after a zero and decimal else.
  ghost predicate Numeral(prefix: string, digits: string, rest: string, base: nat, b: nat) {
    && digits != "" && (forall k :: 0 <= k < |digits| ==> IsDigit(digits[k], b))
    && (rest == "" || !IsDigit(rest[0], b))
    && (prefix != "" ==> prefix in {"0x", "0X"} && (base == 0 || base == 16) && b == 16)
    && (prefix == "" ==>
          && b == (if base != 0 then base else if digits[0] == '0' then 8 else 10)
          && !((base == 0 || base == 16) && digits == "0" && rest != "" && rest[0] in "xX"))
  }

  // Such a text is read to the end of its digits, as their value with its sign, clamped.
  lemma ReadsNumeral(n: nat, sign: string, prefix: string, digits: string, rest: string, base: nat, b: nat)
    requires (base == 0 || 2 <= base <= 36) && Numeral(prefix, digits, rest, base, b)
    requires sign in {"", "+", "-"}
    ensures var s := Spaces(n) + sign + prefix + digits + rest;
            var m: int := Value(digits, 0, |digits|, b);
            var v := if sign == "-" then -m else m;
            && LongValue(s, base) == (if v < -0x8000_0000 then -0x8000_0000 else if v > 0x7fff_ffff then 0x7fff_ffff else v)
            && EndPtr(s, base, true) == |s| - |rest|
            && (sign != "-" ==>
                  && UlongValue(s, base) == (if v > 0xffff_ffff then 0xffff_ffff else v)
                  && EndPtr(s, base, false) == |s| - |rest|)
  {
    hide StartAt, RunEnd, Value, AfterSpaces, Numeral, IsDigit;
    var s := Spaces(n) + sign + prefix + digits + rest;
    var first := n + |sign| + |prefix|;
    NumeralStart(n, sign, prefix, digits, rest, base, b, true);
    if sign != "-" {
      NumeralStart(n, sign, prefix, digits, rest, base, b, false);
    }
    NumeralRun(Spaces(n) + sign + prefix, digits, rest, prefix, base, b);
  }

  // The digits after any text.
  lemma NumeralRun(pre: string, digits: string, rest: string, prefix: string, base: nat, b: nat)
    requires Numeral(prefix, digits, rest, base, b)
    ensures var s := pre + digits + rest;
            && RunEnd(s, |pre|, b) == |pre| + |digits| > |pre|
            && Value(s, |pre|, |pre| + |digits|, b) == Value(digits, 0, |digits|, b)
  {
    hide Value, RunEnd, IsDigit;
    var s := pre + digits + rest;
    forall k | |pre| <= k < |pre| + |digits|
      ensures IsDigit(s[k], b)
    {
      assert s[k] == digits[k - |pre|];
    }
    RunOver(s, |pre|, |pre| + |digits|, b);
    ShiftedValue(pre, digits, rest, |digits|, b);
  }

  lemma {:induction false} RunOver(s: string, i: nat, j: nat, base: nat)
    requires i <= j <= |s| && (forall k :: i <= k < j ==> IsDigit(s[k], base))
    requires j == |s| || !IsDigit(s[j], base)
    ensures RunEnd(s, i, base) == j
    decreases j - i
  {
    if i < j {
      RunOver(s, i + 1, j, base);
    }
  }

  lemma {:induction false} ShiftedValue(pre: string, digits: string, rest: string, j: nat, base: nat)
    requires j <= |digits|
    ensures Value(pre + digits + rest, |pre|, |pre| + j, base) == Value(digits, 0, j, base)
    decreases j
  {
    if j > 0 {
      ShiftedValue(pre, digits, rest, j - 1, base);
      assert (pre + digits + rest)[|pre| + j - 1] == digits[j - 1];
    }
  }

  // Where the digits of such a text are found.
  lemma NumeralStart(n: nat, sign: string, prefix: string, digits: string, rest: string, base: nat, b: nat, signed: bool)
    requires (base == 0 || 2 <= base <= 36) && Numeral(prefix, digits, rest, base, b)
    requires sign in {"", "+", "-"} && (signed || sign != "-")
    ensures StartAt(Spaces(n) + sign + prefix + digits + rest, base, signed) == Start(sign == "-", n + |sign| + |prefix|, b)
  {
    var s := Spaces(n) + sign + prefix + digits + rest;
    var at := n + |sign|;
    assert IsDigit(digits[0], b);
    assert forall k :: 0 <= k < n ==> s[k] == ' ';
    assert At(s, n) == if sign != "" then sign[0] else if prefix != "" then '0' else digits[0];
    SpacesOver(s, 0, n);
    assert At(s, at) == if prefix != "" then '0' else digits[0];
    assert prefix != "" ==> At(s, at + 1) == prefix[1];
    if prefix == "" {
      assert At(s, at + 1) == if |digits| > 1 then digits[1] else if rest != "" then rest[0] else '\0';
      if |digits| > 1 {
        assert IsDigit(digits[1], b);
      }
    }
    hide AfterSpaces;
  }

  lemma {:induction false} SpacesOver(s: string, i: nat, n: nat)
    requires i <= n <= |s| && (forall k :: i <= k < n ==> s[k] == ' ') && At(s, n) != ' '
    ensures AfterSpaces(s, i) == n
    decreases n - i
  {
    if i < n {
      SpacesOver(s, i + 1, n);
    }
  }
}
