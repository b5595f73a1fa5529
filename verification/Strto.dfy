// strtol and strtoul (lib/std/strtol.c, lib/std/strtoul.c), with the 32-bit long of the i686 target.

module Strto {
  import opened Words

  // The character at an index of a zero-terminated string.
  function At(s: string, i: nat): char {
    if i < |s| then s[i] else '\0'
  }

  // The value of a digit or letter; 36 for any other character.
  function DigitVal(c: char): (v: nat)
    ensures v <= 36
  {
    if '0' <= c <= '9' then c as int - '0' as int
    else if 'A' <= c <= 'Z' then c as int - 'A' as int + 10
    else if 'a' <= c <= 'z' then c as int - 'a' as int + 10
    else 36
  }

  predicate IsDigit(c: char, base: nat) {
    DigitVal(c) < 36 && DigitVal(c) < base
  }

  // Where the digits stop.
  function RunEnd(s: string, i: nat, base: nat): (e: nat)
    ensures e >= i
    ensures forall k :: i <= k < e ==> IsDigit(At(s, k), base)
    ensures !IsDigit(At(s, e), base)
    decreases |s| - i
  {
    if i >= |s| || !IsDigit(s[i], base) then i else RunEnd(s, i + 1, base)
  }

  // The number the characters i..j-1 spell.
  function Value(s: string, i: nat, j: nat, base: nat): nat
    requires i <= j
    decreases j - i
  {
    if i == j then 0 else Value(s, i, j - 1, base) * base + DigitVal(At(s, j - 1))
  }

  // Where parsing the digits starts, after spaces, a sign and a hexadecimal prefix.
  datatype Start = Start(neg: bool, first: nat, base: nat)

  function AfterSpaces(s: string, i: nat): (r: nat)
    ensures r >= i && At(s, r) != ' ' && forall k :: i <= k < r ==> At(s, k) == ' '
    decreases |s| - i
  {
    if i < |s| && s[i] == ' ' then AfterSpaces(s, i + 1) else i
  }

  function StartAt(s: string, base: nat, signed: bool): Start {
    var a := AfterSpaces(s, 0);
    var minus := signed && At(s, a) == '-';
    var b := if minus || At(s, a) == '+' then a + 1 else a;
    if (base == 0 || base == 16) && At(s, b) == '0' && (At(s, b + 1) == 'x' || At(s, b + 1) == 'X') then Start(minus, b + 2, 16)
    else Start(minus, b, if base != 0 then base else if At(s, b) == '0' then 8 else 10)
  }

  function Clamp(v: int, lo: int, hi: int): int {
    if v < lo then lo else if v > hi then hi else v
  }

  // What strtol and strtoul return: the exact value clamped to the range of the type, and the end
  // of the digits, or the start of the string when there is none.
  function LongValue(s: string, base: nat): int {
    var st := StartAt(s, base, true);
    var v: int := Value(s, st.first, RunEnd(s, st.first, st.base), st.base);
    Clamp(if st.neg then -v else v, -0x8000_0000, 0x7fff_ffff)
  }

  function UlongValue(s: string, base: nat): int {
    var st := StartAt(s, base, false);
    Clamp(Value(s, st.first, RunEnd(s, st.first, st.base), st.base), 0, 0xffff_ffff)
  }

  function EndPtr(s: string, base: nat, signed: bool): nat {
    var st := StartAt(s, base, signed);
    if RunEnd(s, st.first, st.base) == st.first then 0 else RunEnd(s, st.first, st.base)
  }

  lemma ValueGrows(s: string, i: nat, j: nat, base: nat)
    requires i <= j && base >= 1
    ensures Value(s, i, j + 1, base) == Value(s, i, j, base) * base + DigitVal(At(s, j))
    ensures Value(s, i, j + 1, base) >= Value(s, i, j, base)
  {
    assert Value(s, i, j, base) * base >= Value(s, i, j, base);
  }

  // The overflow test of the loop: comparing with the quotient and the remainder of the limit is
  // comparing the next value with the limit.
  lemma CutoffTest(acc: nat, c: nat, limit: nat, base: nat)
    requires base >= 1 && c < base
    ensures acc > limit / base || (acc == limit / base && c > limit % base) <==> acc * base + c > limit
  {
    var q, r := limit / base, limit % base;
    assert limit == q * base + r;
    if acc > q {
      assert acc * base >= (q + 1) * base == q * base + base;
    } else if acc < q {
      assert (acc + 1) * base <= q * base;
      assert (acc + 1) * base == acc * base + base;
    }
  }

  // The digit loop shared by both functions. `any` is 0 before the first digit, 1 while the value
  // fits the limit, -1 once it does not; the accumulator never passes the limit.
  method Accumulate(s: string, first: nat, base: nat, limit: U32) returns (acc: U32, any: int, end: nat)
    requires 2 <= base <= 36
    ensures end == RunEnd(s, first, base)
    ensures any == if end == first then 0 else if Value(s, first, end, base) <= limit then 1 else -1
    ensures any >= 0 ==> acc == Value(s, first, end, base)
    ensures acc <= limit
  {
    var cutoff := limit / base;
    var cutlim := limit % base;
    acc, any := 0, 0;
    end := first;
    while true
      invariant end >= first && RunEnd(s, first, base) == RunEnd(s, end, base)
      invariant any == if end == first then 0 else if Value(s, first, end, base) <= limit then 1 else -1
      invariant any >= 0 ==> acc == Value(s, first, end, base)
      invariant acc <= limit
      decreases |s| - end
    {
      var c := DigitVal(At(s, end));
      if c == 36 || c >= base {
        break;
      }
      ValueGrows(s, first, end, base);
      CutoffTest(acc, c, limit, base);
      if any < 0 || acc > cutoff || (acc == cutoff && c > cutlim) {
        any := -1;
      } else {
        any := 1;
        acc := acc * base + c;
      }
      end := end + 1;
    }
  }

  // strtol
  method Strtol(nptr: string, base: nat) returns (value: I32, end: nat)
    requires base == 0 || 2 <= base <= 36
    ensures value == LongValue(nptr, base) && end == EndPtr(nptr, base, true)
  {
    hide Value, RunEnd, AfterSpaces;
    var s, neg, c := Lead(nptr, true);
    var b := base;
    if (b == 0 || b == 16) && c == '0' && (At(nptr, s) == 'x' || At(nptr, s) == 'X') {
      c := At(nptr, s + 1);
      s := s + 2;
      b := 16;
    }
    if b == 0 {
      b := if c == '0' then 8 else 10;
    }
    var limit: U32 := if neg then 0x8000_0000 else 0x7fff_ffff;
    var acc, any, e := Accumulate(nptr, s - 1, b, limit);
    if any < 0 {
      value := if neg then -0x8000_0000 else 0x7fff_ffff;
    } else {
      var v: int := acc;
      value := if neg then -v else v;
    }
    end := if any != 0 then e else 0;
  }

  // strtoul
  method Strtoul(nptr: string, base: nat) returns (value: U32, end: nat)
    requires base == 0 || 2 <= base <= 36
    ensures value == UlongValue(nptr, base) && end == EndPtr(nptr, base, false)
  {
    hide Value, RunEnd, AfterSpaces;
    var s, neg, c := Lead(nptr, false);
    var b := base;
    if (b == 0 || b == 16) && c == '0' && (At(nptr, s) == 'x' || At(nptr, s) == 'X') {
      c := At(nptr, s + 1);
      s := s + 2;
      b := 16;
    }
    if b == 0 {
      b := if c == '0' then 8 else 10;
    }
    var acc, any, e := Accumulate(nptr, s - 1, b, 0xffff_ffff);
    value := if any < 0 then 0xffff_ffff else acc;
    end := if any != 0 then e else 0;
  }

  // Spaces and a sign; s is left one past the character c, as in the source.
  method Lead(nptr: string, signed: bool) returns (s: nat, neg: bool, c: char)
    ensures s >= 1 && c == At(nptr, s - 1)
    ensures var a := AfterSpaces(nptr, 0);
            && neg == (signed && At(nptr, a) == '-')
            && s - 1 == if neg || At(nptr, a) == '+' then a + 1 else a
  {
    s, neg := 0, false;
    while true
      invariant AfterSpaces(nptr, 0) == AfterSpaces(nptr, s)
      decreases |nptr| - s
    {
      c := At(nptr, s);
      s := s + 1;
      if c != ' ' {
        break;
      }
    }
    if signed && c == '-' {
      neg := true;
      c := At(nptr, s);
      s := s + 1;
    } else if c == '+' {
      c := At(nptr, s);
      s := s + 1;
    }
  }

  // Where the C standard starts to read digits (section 7.22.1.4 of ISO/IEC 9899:2011), after the
  // same spaces and sign: the hexadecimal prefix is one only when a hexadecimal digit follows it.
  function StdStart(s: string, base: nat, signed: bool): Start {
    var minus, b := SignAt(s, signed).0, SignAt(s, signed).1;
    if (base == 0 || base == 16) && At(s, b) == '0' && At(s, b + 1) in "xX" && IsDigit(At(s, b + 2), 16) then Start(minus, b + 2, 16)
    else Start(minus, b, if base != 0 then base else if At(s, b) == '0' then 8 else 10)
  }

  // The sign, and where the text after spaces and sign starts.
  function SignAt(s: string, signed: bool): (bool, nat) {
    var a := AfterSpaces(s, 0);
    var minus := signed && At(s, a) == '-';
    (minus, if minus || At(s, a) == '+' then a + 1 else a)
  }

  function StdEnd(s: string, base: nat, signed: bool): nat {
    var st := StdStart(s, base, signed);
    if RunEnd(s, st.first, st.base) == st.first then 0 else RunEnd(s, st.first, st.base)
  }

  function StdValue(s: string, base: nat, signed: bool): int {
    var st := StdStart(s, base, signed);
    var v: int := Value(s, st.first, RunEnd(s, st.first, st.base), st.base);
    if st.neg then -v else v
  }

  // A hexadecimal prefix that no hexadecimal digit follows.
  predicate BarePrefix(s: string, base: nat, signed: bool) {
    var b := SignAt(s, signed).1;
    (base == 0 || base == 16) && At(s, b) == '0' && At(s, b + 1) in "xX" && !IsDigit(At(s, b + 2), 16)
  }

  // The end returned is the standard's exactly when there is no bare prefix: the standard reads the
  // zero of one, the code reads no number. The value is the standard's in every case.
  lemma EndExact(s: string, base: nat, signed: bool)
    requires base == 0 || 2 <= base <= 36
    ensures EndPtr(s, base, signed) == StdEnd(s, base, signed) <==> !BarePrefix(s, base, signed)
    ensures signed ==> LongValue(s, base) == Clamp(StdValue(s, base, true), -0x8000_0000, 0x7fff_ffff)
    ensures !signed ==> UlongValue(s, base) == Clamp(StdValue(s, base, false), 0, 0xffff_ffff)
  {
    hide StartAt, StdStart, AfterSpaces, SignAt, RunEnd, Value, BarePrefix;
    if BarePrefix(s, base, signed) {
      var b := SignAt(s, signed).1;
      BareStarts(s, base, signed);
      ZeroRead(s, b, StdStart(s, base, signed).base);
      NothingRead(s, b + 2, 16);
    } else {
      SameStart(s, base, signed);
    }
  }

  lemma SameStart(s: string, base: nat, signed: bool)
    requires !BarePrefix(s, base, signed)
    ensures StartAt(s, base, signed) == StdStart(s, base, signed)
    ensures !signed ==> !StdStart(s, base, signed).neg
  {
    hide AfterSpaces, IsDigit;
  }

  lemma BareStarts(s: string, base: nat, signed: bool)
    requires BarePrefix(s, base, signed)
    ensures var neg, b := SignAt(s, signed).0, SignAt(s, signed).1;
            && StartAt(s, base, signed) == Start(neg, b + 2, 16) && !IsDigit(At(s, b + 2), 16)
            && StdStart(s, base, signed) in {Start(neg, b, 8), Start(neg, b, 16)}
            && (!signed ==> !neg) && b < |s| && s[b] == '0' && At(s, b + 1) in "xX"
  {
    hide AfterSpaces, IsDigit;
  }

  lemma ZeroRead(s: string, b: nat, base: nat)
    requires b < |s| && s[b] == '0' && At(s, b + 1) in "xX" && 1 <= base <= 16
    ensures RunEnd(s, b, base) == b + 1 && Value(s, b, b + 1, base) == 0
  {
    assert IsDigit('0', base) && !IsDigit(At(s, b + 1), base);
    assert Value(s, b, b + 1, base) == Value(s, b, b, base) * base + DigitVal('0');
  }

  lemma NothingRead(s: string, b: nat, base: nat)
    requires !IsDigit(At(s, b), base)
    ensures RunEnd(s, b, base) == b && Value(s, b, b, base) == 0
  {
  }

  lemma BarePrefixWitness()
    ensures BarePrefix("0x", 0, true) && EndPtr("0x", 0, true) == 0 && StdEnd("0x", 0, true) == 1
  {
    assert AfterSpaces("0x", 0) == 0;
    assert SignAt("0x", true) == (false, 0);
    assert RunEnd("0x", 2, 16) == 2;
    assert RunEnd("0x", 1, 8) == 1;
    assert RunEnd("0x", 0, 8) == 1;
  }
}
