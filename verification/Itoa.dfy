/** Integers as text: digits are generated lowest first and then reversed in place. */
module Itoa {
  import opened Common
  import Arithmetic

  const DIGITS := "0123456789abcdefghijklmnopqrstuvwxyz"
  const INT_MIN := -0x8000_0000
  const INT_MAX := 0x7FFF_FFFF
  const UINT_MAX := 0xFFFF_FFFF

  function Digit(d: nat): char
    requires d < 36
  {
    DIGITS[d]
  }

  function DigitValue(c: char): nat {
    if '0' <= c <= '9' then c as int - '0' as int else if 'a' <= c <= 'z' then c as int - 'a' as int + 10 else 36
  }

  /** The two sides of the digit table agree. */
  lemma DigitRoundTrip(d: nat)
    requires d < 36
    ensures DigitValue(Digit(d)) == d && Digit(d) != '\0' && Digit(d) != '-' && (Digit(d) == '0' <==> d == 0)
  {
    var c := Digit(d);
    assert c == if d < 10 then ('0' as int + d) as char else ('a' as int + d - 10) as char;
  }

  // ---------------------------------------------------------------- numerals

  predicate Base(b: int) {
    2 <= b <= 36
  }

  function Quot(v: nat, b: nat): nat
    requires b >= 2
  {
    v / b
  }

  function Rem(v: nat, b: nat): nat
    requires b >= 2
  {
    v % b
  }

  lemma DivMod(v: nat, b: nat)
    requires b >= 2
    ensures v == Quot(v, b) * b + Rem(v, b) && Rem(v, b) < b
    ensures Quot(v, b) == 0 <==> v < b
    ensures v > 0 ==> Quot(v, b) < v
  {
    var q := v / b;
    assert v == q * b + v % b;
    Arithmetic.MulMonotone(2, b, q);
    assert q * b == b * q;
    if q > 0 {
      Arithmetic.MulMonotone(1, q, b);
    }
  }

  lemma QuotUnique(q: nat, r: nat, b: nat)
    requires b >= 2 && r < b
    ensures Quot(q * b + r, b) == q && Rem(q * b + r, b) == r
  {
    Arithmetic.DivModUnique(q * b + r, b, q, r);
  }

  /** Division by two or more at least halves. */
  lemma QuotHalves(v: nat, b: nat, p: nat)
    requires b >= 2 && v < 2 * p
    ensures Quot(v, b) < p
  {
    DivMod(v, b);
    var q := Quot(v, b);
    Arithmetic.MulMonotone(2, b, q);
    assert q * b == b * q;
  }

  /** The numeral of a number, highest digit first. */
  function Numeral(v: nat, b: nat): (s: string)
    requires Base(b)
    ensures s != []
    decreases v
  {
    DivMod(v, b);
    if v < b then [Digit(v)] else Numeral(Quot(v, b), b) + [Digit(Rem(v, b))]
  }

  /** The number that a string of digits stands for. */
  function Value(s: string, b: nat): nat {
    if s == [] then 0 else Value(s[..|s| - 1], b) * b + DigitValue(s[|s| - 1])
  }

  ghost predicate IsDigit(c: char, b: nat) {
    exists d :: 0 <= d < b && d < 36 && c == Digit(d)
  }

  /** A string of digits of the base without a leading zero. */
  ghost predicate IsNumeral(s: string, b: nat) {
    s != [] && (forall i :: 0 <= i < |s| ==> IsDigit(s[i], b)) && (|s| > 1 ==> s[0] != '0')
  }

  /** Decoding the numeral gives the number back. */
  lemma {:induction false} NumeralDecodes(v: nat, b: nat)
    requires Base(b)
    ensures Value(Numeral(v, b), b) == v
    decreases v
  {
    hide Quot, Rem, Digit, DigitValue;
    DivMod(v, b);
    DigitRoundTrip(Rem(v, b));
    var s := Numeral(v, b);
    if v >= b {
      NumeralDecodes(Quot(v, b), b);
      assert s[..|s| - 1] == Numeral(Quot(v, b), b);
    } else {
      DigitRoundTrip(v);
      assert s[..0] == [];
    }
  }

  lemma {:induction false} NumeralIsNumeral(v: nat, b: nat)
    requires Base(b)
    ensures IsNumeral(Numeral(v, b), b) && (Numeral(v, b)[0] == '0' ==> v == 0)
    decreases v
  {
    hide Quot, Rem, Digit, DigitValue;
    DivMod(v, b);
    if v < b {
      DigitRoundTrip(v);
    } else {
      NumeralIsNumeral(Quot(v, b), b);
    }
  }

  /** The numeral is the only string of digits without a leading zero that stands for its number. */
  lemma {:induction false} NumeralUnique(s: string, b: nat)
    requires Base(b) && IsNumeral(s, b)
    ensures s == Numeral(Value(s, b), b)
    decreases |s|
  {
    hide Quot, Rem, Digit, DigitValue;
    var p, c := s[..|s| - 1], s[|s| - 1];
    assert IsDigit(c, b);
    var d: nat :| d < b && d < 36 && c == Digit(d);
    DigitRoundTrip(d);
    if p == [] {
      assert Value(s, b) == d && s == [c];
    } else {
      assert s[0] != '0' && IsDigit(s[0], b);
      assert forall i :: 0 <= i < |p| ==> IsDigit(s[i], b);
      NumeralUnique(p, b);
      LeadingDigit(p, b);
      QuotUnique(Value(p, b), d, b);
      DivMod(Value(s, b), b);
      assert s == p + [c];
    }
  }

  /** A string of digits that does not start with a zero stands for more than zero. */
  lemma {:induction false} LeadingDigit(s: string, b: nat)
    requires Base(b) && s != [] && (forall i :: 0 <= i < |s| ==> IsDigit(s[i], b)) && s[0] != '0'
    ensures Value(s, b) > 0
    decreases |s|
  {
    var p := s[..|s| - 1];
    if p == [] {
      assert IsDigit(s[0], b);
      var d: nat :| d < b && d < 36 && s[0] == Digit(d);
      DigitRoundTrip(d);
    } else {
      assert forall i :: 0 <= i < |p| ==> IsDigit(s[i], b);
      LeadingDigit(p, b);
      Arithmetic.MulMonotone(1, Value(p, b), b);
    }
  }

  /** A number of `k` bits has at most `k` digits in any base. */
  lemma {:induction false} NumeralShort(v: nat, b: nat, k: nat)
    requires Base(b) && k > 0 && v < Pow2(k)
    ensures |Numeral(v, b)| <= k
    decreases k
  {
    hide Quot, Rem, Digit;
    DivMod(v, b);
    if v >= b {
      assert k > 1 by {
        assert Pow2(1) == 2;
      }
      QuotHalves(v, b, Pow2(k - 1));
      NumeralShort(Quot(v, b), b, k - 1);
    }
  }

  lemma {:induction false} WordShort(v: nat, b: nat)
    requires Base(b) && v <= UINT_MAX
    ensures |Numeral(v, b)| <= 32
  {
    assert Pow2(8) == 0x100;
    assert Pow2(16) == 0x1_0000;
    assert Pow2(24) == 0x100_0000;
    assert Pow2(32) == 0x1_0000_0000;
    NumeralShort(v, b, 32);
  }

  // ---------------------------------------------------------------- generation and reversal

  /** The digits of a number, lowest first. */
  ghost function LowFirst(v: nat, b: nat): string
    requires Base(b)
    decreases v
  {
    DivMod(v, b);
    if v < b then [Digit(v)] else [Digit(Rem(v, b))] + LowFirst(Quot(v, b), b)
  }

  ghost function Reversed(s: string): (r: string)
    ensures |r| == |s| && forall i :: 0 <= i < |s| ==> r[i] == s[|s| - 1 - i]
  {
    if s == [] then [] else Reversed(s[1..]) + [s[0]]
  }

  lemma {:induction false} NumeralReversed(v: nat, b: nat)
    requires Base(b)
    ensures Reversed(LowFirst(v, b)) == Numeral(v, b)
    decreases v
  {
    hide Quot, Rem, Digit;
    DivMod(v, b);
    if v >= b {
      NumeralReversed(Quot(v, b), b);
      assert LowFirst(v, b)[1..] == LowFirst(Quot(v, b), b);
    } else {
      assert LowFirst(v, b)[1..] == [];
    }
  }

  lemma {:induction false} MirrorIs(was: string, now: string)
    requires |now| == |was| && forall i :: 0 <= i < |now| ==> now[i] == was[|was| - 1 - i]
    ensures now == Reversed(was)
  {
  }

  /** The reversal at the end of both functions: from `lo` up to and including `hi`. */
  method ReverseInPlace(str: array<char>, lo: nat, hi: nat)
    requires lo <= hi < str.Length
    modifies str
    ensures str[lo..hi + 1] == Reversed(old(str[lo..hi + 1]))
    ensures forall i :: 0 <= i < str.Length && !(lo <= i <= hi) ==> str[i] == old(str[i])
  {
    hide Reversed;
    var ptr1, ptr := lo, hi;
    while ptr1 < ptr
      invariant lo <= ptr1 && ptr <= hi && ptr1 + ptr == lo + hi && ptr1 <= ptr + 1
      invariant forall i :: 0 <= i < str.Length && (i < lo || i > hi || ptr1 <= i <= ptr) ==> str[i] == old(str[i])
      invariant forall i :: lo <= i < ptr1 || ptr < i <= hi ==> str[i] == old(str[lo + hi - i])
    {
      str[ptr], str[ptr1] := str[ptr1], str[ptr];
      ptr, ptr1 := ptr - 1, ptr1 + 1;
    }
    ghost var was, now := old(str[lo..hi + 1]), str[lo..hi + 1];
    forall i | 0 <= i < |now|
      ensures now[i] == was[|was| - 1 - i]
    {
      assert str[lo + i] == old(str[hi - i]);
    }
    MirrorIs(was, now);
  }

  /** The buffer holds this string from an offset on, with its NUL. */
  ghost predicate Holds(str: array<char>, at: nat, s: string)
    reads str
  {
    at + |s| < str.Length && str[at..at + |s|] == s && str[at + |s|] == '\0'
  }

  /** A buffer whose digits behind `start` have been reversed, with a NUL behind them. */
  lemma FinishedText(was: string, now: string, start: nat, ptr: nat)
    requires start <= ptr < |now| == |was| && now[ptr] == '\0' && now[..start] == was[..start]
    requires now[start..ptr] == Reversed(was[start..ptr])
    ensures now[0..ptr] == was[..start] + Reversed(was[start..ptr])
  {
    hide Reversed;
    assert now[0..ptr] == now[..start] + now[start..ptr];
  }

  lemma HoldsBuffer(str: array<char>, now: string, s: string)
    requires str[..] == now && |s| < |now| && now[0..|s|] == s && now[|s|] == '\0'
    ensures Holds(str, 0, s)
  {
    assert str[0..0 + |s|] == now[0..|s|];
  }

  /** The end of both functions: the NUL, and the reversal of the digits behind the sign. */
  method Finish(str: array<char>, start: nat, ptr: nat)
    requires start < ptr < str.Length
    modifies str
    ensures Holds(str, 0, old(str[..start]) + Reversed(old(str[start..ptr])))
  {
    hide Reversed, Holds;
    ghost var was := str[..];
    str[ptr] := '\0';
    assert str[start..ptr - 1 + 1] == was[start..ptr];
    ReverseInPlace(str, start, ptr - 1);
    ghost var now := str[..];
    assert now[start..ptr] == str[start..ptr - 1 + 1];
    assert now[..start] == was[..start];
    FinishedText(was, now, start, ptr);
    HoldsBuffer(str, now, was[..start] + Reversed(was[start..ptr]));
    assert was[..start] == old(str[..start]) && was[start..ptr] == old(str[start..ptr]);
  }

  /** The loop of `uitoa`: digits of the value from the start of the buffer, lowest first. */
  method Generate(value: nat, str: array<char>, base: nat) returns (ptr: nat)
    requires Base(base) && |LowFirst(value, base)| < str.Length
    modifies str
    ensures ptr == |LowFirst(value, base)| && str[..ptr] == LowFirst(value, base)
  {
    hide Quot, Rem, Digit, LowFirst;
    ghost var digits := LowFirst(value, base);
    LowFirstLength(value, base);
    var tmpValue: nat := value;
    ptr := 0;
    while true
      invariant ptr < |digits| && digits[ptr..] == LowFirst(tmpValue, base)
      invariant str[..ptr] == digits[..ptr]
      decreases tmpValue
    {
      DivMod(tmpValue, base);
      var remainder := Rem(tmpValue, base);
      str[ptr] := Digit(remainder);
      LowestDigit(digits[ptr..], tmpValue, base);
      assert digits[ptr..][1..] == digits[ptr + 1..];
      ptr := ptr + 1;
      assert str[..ptr] == digits[..ptr];
      if Quot(tmpValue, base) == 0 {
        break;
      }
      tmpValue := Quot(tmpValue, base);
    }
  }

  lemma {:induction false} LowestDigit(digits: string, v: nat, b: nat)
    requires Base(b) && digits == LowFirst(v, b)
    ensures digits != [] && Rem(v, b) < 36 && digits[0] == Digit(Rem(v, b))
    ensures Quot(v, b) == 0 ==> |digits| == 1
    ensures Quot(v, b) != 0 ==> digits[1..] == LowFirst(Quot(v, b), b) && |digits| > 1
  {
    DivMod(v, b);
    LowFirstLength(Quot(v, b), b);
    hide Quot, Digit;
  }

  lemma {:induction false} LowFirstLength(v: nat, b: nat)
    requires Base(b)
    ensures LowFirst(v, b) != []
  {
  }

  /** What `uitoa` writes: the numeral of the value, or the empty string for a base that is not supported. */
  ghost function UnsignedText(value: nat, base: int): string {
    if Base(base) then Numeral(value, base) else ""
  }

  /** `uitoa`, into a buffer with room for the text and its NUL. */
  method Uitoa(value: nat, str: array<char>, base: int)
    requires value <= UINT_MAX && |UnsignedText(value, base)| < str.Length
    modifies str
    ensures Holds(str, 0, UnsignedText(value, base))
  {
    hide Numeral, LowFirst, Reversed;
    if base < 2 || base > 36 {
      str[0] := '\0';
      return;
    }
    NumeralReversed(value, base);
    var ptr := Generate(value, str, base);
    assert str[0..ptr] == str[..ptr];
    Finish(str, 0, ptr);
    assert [] + Numeral(value, base) == Numeral(value, base);
  }

  // ---------------------------------------------------------------- signed integers

  /** Division and remainder of C: towards zero, so the remainder has the sign of the dividend. */
  function TruncDiv(a: int, b: int): int
    requires b >= 2
  {
    if a >= 0 then Quot(a, b) else -(Quot(-a, b) as int)
  }

  function TruncMod(a: int, b: int): int
    requires b >= 2
  {
    if a >= 0 then Rem(a, b) else -(Rem(-a, b) as int)
  }

  function Abs(x: int): nat {
    if x < 0 then -x else x
  }

  /** What `itoa` writes: a sign only in base 10, elsewhere the digits of the magnitude alone. */
  ghost function Text(value: int, b: nat): string
    requires Base(b)
  {
    (if value < 0 && b == 10 then "-" else "") + Numeral(Abs(value), b)
  }

  /** The number that a text of base 10 stands for. */
  function Parsed(s: string): int {
    if s != [] && s[0] == '-' then -(Value(s[1..], 10) as int) else Value(s, 10)
  }

  /** In base 10 the text gives the integer back. */
  lemma DecimalRoundTrip(value: int)
    ensures Parsed(Text(value, 10)) == value
  {
    hide Numeral, Value, Digit;
    NumeralDecodes(Abs(value), 10);
    NumeralIsNumeral(Abs(value), 10);
    var s := Numeral(Abs(value), 10);
    assert IsDigit(s[0], 10);
    var d: nat :| d < 10 && s[0] == Digit(d);
    DigitRoundTrip(d);
    assert ("-" + s)[1..] == s;
    assert "" + s == s;
  }

  /** In another base exactly the values of equal magnitude share a text: the sign is lost. */
  lemma SignLost(b: nat, x: int, y: int)
    requires Base(b) && b != 10
    ensures Text(x, b) == Text(y, b) <==> Abs(x) == Abs(y)
  {
    NumeralDecodes(Abs(x), b);
    NumeralDecodes(Abs(y), b);
    assert Text(x, b) == Numeral(Abs(x), b) && Text(y, b) == Numeral(Abs(y), b);
  }

  /** The quotient and the remainder together give the dividend. */
  lemma TruncDivMod(a: int, b: int)
    requires b >= 2
    ensures a == TruncDiv(a, b) * b + TruncMod(a, b) && Abs(TruncMod(a, b)) < b
    ensures Abs(TruncDiv(a, b)) == Quot(Abs(a), b) && Abs(TruncMod(a, b)) == Rem(Abs(a), b)
  {
    DivMod(Abs(a), b);
    hide Quot, Rem;
    if a < 0 {
      var q: int := Quot(-a, b);
      assert (0 - q) * b == 0 - q * b;
    }
  }

  lemma MagnitudeIs(x: int)
    ensures Abs(x) == (if x < 0 then -x else x) && (Abs(x) == 0 <==> x == 0)
  {
  }

  /** The loop of `itoa`: it works on negative values, and takes the magnitude of each remainder. */
  method GenerateSigned(value: int, str: array<char>, start: nat, base: nat) returns (ptr: nat)
    requires Base(base) && start + |LowFirst(Abs(value), base)| < str.Length
    modifies str
    ensures ptr == start + |LowFirst(Abs(value), base)| && str[start..ptr] == LowFirst(Abs(value), base)
    ensures str[..start] == old(str[..start])
  {
    hide Quot, Rem, Digit, TruncDiv, TruncMod, LowFirst, Abs;
    ghost var digits := LowFirst(Abs(value), base);
    LowFirstLength(Abs(value), base);
    var tmpValue := value;
    ptr := start;
    while true
      invariant start <= ptr < start + |digits| && digits[ptr - start..] == LowFirst(Abs(tmpValue), base)
      invariant str[start..ptr] == digits[..ptr - start] && str[..start] == old(str[..start])
      decreases Abs(tmpValue)
    {
      DivMod(Abs(tmpValue), base);
      TruncDivMod(tmpValue, base);
      var remainder := TruncMod(tmpValue, base);
      LowestDigit(digits[ptr - start..], Abs(tmpValue), base);
      MagnitudeIs(remainder);
      str[ptr] := Digit(if remainder < 0 then -remainder else remainder);
      assert digits[ptr - start..][1..] == digits[ptr - start + 1..];
      ptr := ptr + 1;
      assert str[start..ptr] == digits[..ptr - start];
      MagnitudeIs(TruncDiv(tmpValue, base));
      if TruncDiv(tmpValue, base) == 0 {
        break;
      }
      tmpValue := TruncDiv(tmpValue, base);
    }
  }

  ghost function SignedText(value: int, base: int): string {
    if Base(base) then Text(value, base) else ""
  }

  /** Exactly in the bases from 2 to 36 there is a text; in the others there is only its end. */
  lemma BasesWithText(magnitude: nat, value: int, base: int)
    ensures UnsignedText(magnitude, base) != "" <==> 2 <= base <= 36
    ensures SignedText(value, base) != "" <==> 2 <= base <= 36
  {
    hide Numeral;
  }

  /**
   `itoa`, into a buffer with room for the text and its NUL, for a value whose negation does not overflow where the
   function negates it.
   */
  method Itoa(value: int, str: array<char>, base: int)
    requires INT_MIN <= value <= INT_MAX && (base == 10 ==> value > INT_MIN)
    requires |SignedText(value, base)| < str.Length
    modifies str
    ensures Holds(str, 0, SignedText(value, base))
  {
    hide Numeral, LowFirst, Reversed;
    if base < 2 || base > 36 {
      str[0] := '\0';
      return;
    }
    NumeralReversed(Abs(value), base);
    var start, tmpValue := 0, value;
    if tmpValue < 0 && base == 10 {
      str[0] := '-';
      start := 1;
      tmpValue := -tmpValue;
    }
    ghost var sign := if value < 0 && base == 10 then "-" else "";
    assert str[..start] == sign;
    var ptr := GenerateSigned(tmpValue, str, start, base);
    Finish(str, start, ptr);
  }
}
