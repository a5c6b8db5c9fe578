/**
 The credit card check: the digits, every second one from the right doubled, are written into one
 string, and the digits of that string are summed (ISO/IEC 7812-1, annex B).
 */
module Luhn {
  import opened Sequences

  predicate IsDigit(c: char) {
    '0' <= c <= '9'
  }

  function Value(c: char): (d: nat)
    requires IsDigit(c)
    ensures d < 10
  {
    c as int - '0' as int
  }

  predicate AllDigits(s: string) {
    forall i :: 0 <= i < |s| ==> IsDigit(s[i])
  }

  /** The decimal representation of a number. */
  function Decimal(n: nat): (s: string)
    ensures AllDigits(s) && s != []
  {
    if n < 10 then [(n + '0' as int) as char] else Decimal(n / 10) + [(n % 10 + '0' as int) as char]
  }

  /** What a digit contributes: itself, or the digit sum of its double. */
  function Weight(c: char, doubled: bool): (w: nat)
    requires IsDigit(c)
    ensures w < 10
  {
    var d := Value(c);
    if !doubled then d else if d < 5 then 2 * d else 2 * d - 9
  }

  /** Whether position i of a number of n digits is doubled: every second digit from the right. */
  predicate Doubled(n: nat, i: nat)
    requires i < n
  {
    (n - i) % 2 == 0
  }

  /** The checksum of the digits from i on. */
  function Checksum(s: string, i: nat): nat
    requires AllDigits(s) && i <= |s|
    decreases |s| - i
  {
    if i == |s| then 0 else Weight(s[i], Doubled(|s|, i)) + Checksum(s, i + 1)
  }

  // ---------------------------------------------------------------- the string

  /** parseInt of one character: a digit's value, or not a number. */
  function ParseChar(c: char): Option<nat> {
    if IsDigit(c) then Some(Value(c)) else None
  }

  function DigitSum(s: string): nat
    requires AllDigits(s)
  {
    if s == [] then 0 else DigitSum(s[..|s| - 1]) + Value(s[|s| - 1])
  }

  lemma {:induction false} DigitSumAppend(a: string, b: string)
    requires AllDigits(a) && AllDigits(b)
    ensures AllDigits(a + b) && DigitSum(a + b) == DigitSum(a) + DigitSum(b)
  {
    if b == [] {
      assert a + b == a;
    } else {
      assert (a + b)[..|a + b| - 1] == a + b[..|b| - 1];
      DigitSumAppend(a, b[..|b| - 1]);
    }
  }

  /** The digits of a digit, or of its double, sum to its weight. */
  lemma DigitSumOfTerm(c: char, doubled: bool)
    requires IsDigit(c)
    ensures DigitSum(Decimal(if doubled then Value(c) * 2 else Value(c))) == Weight(c, doubled)
  {
    var n := if doubled then Value(c) * 2 else Value(c);
    if n >= 10 {
      var s := Decimal(n);
      assert s[..1] == Decimal(n / 10) && s == Decimal(n / 10) + Decimal(n % 10);
      DigitSumAppend(Decimal(n / 10), Decimal(n % 10));
      OneDigit(n / 10);
      OneDigit(n % 10);
    } else {
      OneDigit(n);
    }
  }

  lemma OneDigit(n: nat)
    requires n < 10
    ensures DigitSum(Decimal(n)) == n
  {
    assert Decimal(n)[..0] == [];
  }

  /** The text that a position adds to the string; what is not a number is written out as such. */
  function Term(c: char, doubled: bool): (s: string)
    ensures s != [] && (IsDigit(c) <==> AllDigits(s))
  {
    match ParseChar(c)
    case None =>
      var text := "NaN";
      assert !IsDigit(text[0]);
      text
    case Some(d) => Decimal(if doubled then d * 2 else d)
  }

  /** The two loops: the string of the digits and doubles, and the sum of its digits, if it is a number. */
  method LuhnSum(cardNumber: string) returns (sum: Option<nat>)
    requires cardNumber != []
    ensures sum == if AllDigits(cardNumber) then Some(Checksum(cardNumber, 0)) else None
  {
    var i: int := |cardNumber| - 1;
    var pos: nat := 1;
    var luhn := "";
    while i >= 0
      invariant -1 <= i < |cardNumber| && pos == |cardNumber| - i
      invariant AllDigits(luhn) <==> AllDigits(cardNumber[i + 1..])
      invariant AllDigits(cardNumber) ==> AllDigits(luhn) && DigitSum(luhn) == Checksum(cardNumber, i + 1)
    {
      var term := Term(cardNumber[i], pos % 2 == 0);
      assert cardNumber[i..] == [cardNumber[i]] + cardNumber[i + 1..];
      DigitsOfBoth(luhn, term);
      DigitsOfBoth([cardNumber[i]], cardNumber[i + 1..]);
      if AllDigits(cardNumber) {
        DigitSumOfTerm(cardNumber[i], Doubled(|cardNumber|, i));
        DigitSumAppend(luhn, term);
      }
      luhn := luhn + term;
      pos := pos + 1;
      i := i - 1;
    }
    assert cardNumber[0..] == cardNumber;
    sum := Some(0);
    var k := 0;
    while k < |luhn|
      invariant 0 <= k <= |luhn| && (sum.Some? <==> AllDigits(luhn[..k]))
      invariant sum.Some? ==> sum.value == DigitSum(luhn[..k])
    {
      assert luhn[..k + 1] == luhn[..k] + [luhn[k]] && luhn[..k + 1][..k] == luhn[..k];
      DigitsOfBoth(luhn[..k], [luhn[k]]);
      sum := match (sum, ParseChar(luhn[k]))
             case (Some(total), Some(d)) => Some(total + d)
             case _ => None;
      k := k + 1;
    }
    assert luhn[..k] == luhn;
  }

  lemma DigitsOfBoth(a: string, b: string)
    ensures AllDigits(a + b) <==> AllDigits(a) && AllDigits(b)
  {
    assert forall i :: 0 <= i < |a| ==> (a + b)[i] == a[i];
    assert forall i :: 0 <= i < |b| ==> (a + b)[|a| + i] == b[i];
  }

  // ---------------------------------------------------------------- the check

  /** Blanks and dashes are taken out first. */
  function Stripped(s: string): string {
    if s == [] then [] else (if s[0] == ' ' || s[0] == '-' then [] else [s[0]]) + Stripped(s[1..])
  }

  /** Blanks and dashes make no difference wherever they stand, and nothing else is taken out. */
  lemma {:induction false} SeparatorsDropOut(a: string, c: char, b: string)
    ensures c == ' ' || c == '-' ==> Stripped(a + [c] + b) == Stripped(a + b)
    ensures ' ' !in a && '-' !in a ==> Stripped(a) == a
  {
    if a == "" {
      assert a + [c] + b == [c] + b && ([c] + b)[1..] == b && a + b == b;
    } else {
      assert (a + [c] + b)[1..] == a[1..] + [c] + b && (a + b)[1..] == a[1..] + b;
      SeparatorsDropOut(a[1..], c, b);
      assert a[0] in a && a == [a[0]] + a[1..];
    }
  }

  /** A card number is accepted: 14 to 16 digits, not all zero, with a checksum that 10 divides. */
  predicate Accepted(s: string) {
    14 <= |s| <= 16 && AllDigits(s) && (exists i :: 0 <= i < |s| && s[i] != '0') && Checksum(s, 0) % 10 == 0
  }

  predicate Space(c: char) {
    '\t' <= c <= '\r' || c == ' ' || c == '\U{00A0}' || c == '\U{1680}' || '\U{2000}' <= c <= '\U{200A}' ||
    c == '\U{2028}' || c == '\U{2029}' || c == '\U{202F}' || c == '\U{205F}' || c == '\U{3000}' || c == '\U{FEFF}'
  }

  predicate HexDigit(c: char) {
    IsDigit(c) || 'a' <= c <= 'f' || 'A' <= c <= 'F'
  }

  function SkipSpace(s: string): string {
    if s != "" && Space(s[0]) then SkipSpace(s[1..]) else s
  }

  /** The digits at the front are not all zero. */
  predicate NonzeroAhead(s: string, digit: char -> bool) {
    s != "" && digit(s[0]) && (s[0] != '0' || NonzeroAhead(s[1..], digit))
  }

  /** parseInt(s) > 0. */
  predicate ParsesPositive(s: string) {
    var t := SkipSpace(s);
    var u := if t != "" && t[0] == '+' then t[1..] else t;
    if |u| > 1 && u[0] == '0' && (u[1] == 'x' || u[1] == 'X') then NonzeroAhead(u[2..], HexDigit)
    else NonzeroAhead(u, IsDigit)
  }

  lemma {:induction false} NonzeroDigit(s: string)
    requires AllDigits(s)
    ensures NonzeroAhead(s, IsDigit) <==> exists i :: 0 <= i < |s| && s[i] != '0'
  {
    if s != "" {
      NonzeroDigit(s[1..]);
      assert s[0] == '0' ==> forall i :: 0 <= i < |s| && s[i] != '0' ==> s[1..][i - 1] != '0';
    }
  }

  /** For a string of digits, being positive is having a digit that is not zero. */
  lemma PositiveDigits(s: string)
    requires AllDigits(s)
    ensures ParsesPositive(s) <==> exists i :: 0 <= i < |s| && s[i] != '0'
  {
    NonzeroDigit(s);
    if s != "" {
      assert IsDigit(s[0]) && (|s| > 1 ==> IsDigit(s[1]));
    }
  }

  /** The validator. */
  method CreditCard(field: string) returns (valid: bool)
    ensures valid <==> Accepted(Stripped(field))
  {
    var cardNumber := Stripped(field);
    valid := false;
    if 14 <= |cardNumber| <= 16 && ParsesPositive(cardNumber) {
      var sum := LuhnSum(cardNumber);
      valid := sum.Some? && sum.value % 10 == 0;
    }
    if AllDigits(cardNumber) {
      PositiveDigits(cardNumber);
    }
  }

  // ---------------------------------------------------------------- what it detects

  /** The checksums of two numbers that differ in one digit differ by that digit's weights. */
  lemma {:induction false} ChecksumChange(s: string, k: nat, c: char, i: nat)
    requires AllDigits(s) && k < |s| && IsDigit(c) && i <= |s|
    ensures AllDigits(s[k := c])
    ensures Checksum(s[k := c], i) + (if i <= k then Weight(s[k], Doubled(|s|, k)) else 0) ==
            Checksum(s, i) + (if i <= k then Weight(c, Doubled(|s|, k)) else 0)
    decreases |s| - i
  {
    if i < |s| {
      ChecksumChange(s, k, c, i + 1);
    }
  }

  /**
   What a digit contributes: at an even distance from the end itself, so the last digit counts plainly, and at an odd
   distance the digits of its double.
   */
  lemma DigitCounts(s: string, k: nat, c: char)
    requires AllDigits(s) && k < |s| && IsDigit(c)
    ensures AllDigits(s[k := c])
    ensures Checksum(s[k := c], 0) - Checksum(s, 0) ==
            if (|s| - 1 - k) % 2 == 0 then Value(c) - Value(s[k])
            else DigitSum(Decimal(2 * Value(c))) - DigitSum(Decimal(2 * Value(s[k])))
  {
    hide Checksum, DigitSum, Decimal, Weight;
    var doubled := Doubled(|s|, k);
    ChecksumChange(s, k, c, 0);
    DigitSumOfTerm(c, doubled);
    DigitSumOfTerm(s[k], doubled);
    PlainWeight(c);
    PlainWeight(s[k]);
  }

  lemma PlainWeight(c: char)
    requires IsDigit(c)
    ensures Weight(c, false) == Value(c)
  {
  }

  /** Doubling permutes the digits. */
  lemma WeightInjective(a: char, b: char, doubled: bool)
    requires IsDigit(a) && IsDigit(b) && Weight(a, doubled) == Weight(b, doubled)
    ensures a == b
  {
  }

  /** Changing any one digit of a valid number, of any length, makes it invalid. */
  lemma SingleErrorDetected(s: string, k: nat, c: char)
    requires AllDigits(s) && k < |s| && IsDigit(c) && c != s[k]
    requires Checksum(s, 0) % 10 == 0
    ensures AllDigits(s[k := c]) && Checksum(s[k := c], 0) % 10 != 0
  {
    var doubled := Doubled(|s|, k);
    ChecksumChange(s, k, c, 0);
    if Weight(s[k], doubled) == Weight(c, doubled) {
      WeightInjective(s[k], c, doubled);
    }
    hide *;
    LastDigitMoves(Checksum(s, 0), Checksum(s[k := c], 0), Weight(s[k], doubled), Weight(c, doubled));
  }

  lemma LastDigitMoves(x: int, y: int, from: int, to: int)
    requires x % 10 == 0 && y + from == x + to && from != to && 0 <= from <= 9 && 0 <= to <= 9
    ensures y % 10 != 0
  {
  }

  function Swapped(s: string, k: nat): string
    requires k + 1 < |s|
  {
    s[k := s[k + 1]][k + 1 := s[k]]
  }

  /**
   Swapping two adjacent digits of a valid number, of any length, goes unnoticed exactly when they are
   equal or are 0 and 9.
   */
  lemma SwapDetectedExactly(s: string, k: nat)
    requires AllDigits(s) && k + 1 < |s| && Checksum(s, 0) % 10 == 0
    ensures AllDigits(Swapped(s, k))
    ensures Checksum(Swapped(s, k), 0) % 10 == 0 <==>
      s[k] == s[k + 1] || (s[k] == '0' && s[k + 1] == '9') || (s[k] == '9' && s[k + 1] == '0')
  {
    var t := s[k := s[k + 1]];
    ChecksumChange(s, k, s[k + 1], 0);
    ChecksumChange(t, k + 1, s[k], 0);
    assert Doubled(|s|, k) != Doubled(|s|, k + 1);
    SwapWeights(s[k], s[k + 1], Doubled(|s|, k));
    SameRemainder(Checksum(s, 0), Checksum(Swapped(s, k), 0));
  }

  lemma SameRemainder(x: int, y: int)
    requires x % 10 == 0
    ensures y % 10 == 0 <==> (x - y) % 10 == 0
  {
  }

  lemma SwapWeights(a: char, b: char, doubled: bool)
    requires IsDigit(a) && IsDigit(b)
    ensures (Weight(a, doubled) + Weight(b, !doubled) - Weight(b, doubled) - Weight(a, !doubled)) % 10 == 0 <==>
      a == b || (a == '0' && b == '9') || (a == '9' && b == '0')
  {
  }
}
