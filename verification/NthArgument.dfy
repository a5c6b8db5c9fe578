/**
 The argument of `:nth-child` and its kin: the numbers that the tokenizer reads off the groups of its expression,
 against the an+b notation (Selectors Level 3, section 6.6.5.2).
 */
module NthArgument {
  import opened Sequences
  import S = Selectors
  import opened Lexer

  // ---------------------------------------------------------------- what the code reads

  /** The number that a text of digits stands for. */
  function Number(digits: string): nat {
    if digits == "" then 0
    else
      10 * Number(digits[..|digits| - 1]) +
      if Digit(digits[|digits| - 1]) then digits[|digits| - 1] as int - '0' as int else 0
  }

  function Signed(sign: string, n: nat): int {
    if sign == "-" then -(n as int) else n
  }

  /** The digits at the front. */
  function Digits(s: string): string {
    s[..|s| - |Skip(s, Digit)|]
  }

  function SignOf(s: string): string {
    s[..|s| - |SignRest(s)|]
  }

  /** The number before n; it is 1 when only the sign is there. */
  function CoefficientValue(s: string): int {
    var digits := Digits(SignRest(s));
    Signed(SignOf(s), if digits == "" then 1 else Number(digits))
  }

  function OffsetValue(s: string): int {
    Signed(SignOf(s), Number(Digits(SkipBlanks(SignRest(s)))))
  }

  /** The two numbers for an argument. Keywords are matched in any case, but compared in lower case only. */
  function ReadArgument(argument: string): (int, int) {
    if Word(argument, "even").Some? || Word(argument, "odd").Some? then
      (if argument == "even" || argument == "odd" then 2 else 0, if argument == "odd" then 1 else 0)
    else
      var behind := CoefficientRest(argument);
      var rest := SkipBlanks(behind);
      (if |behind| < |argument| then CoefficientValue(argument) else 0,
       if |OffsetRest(rest)| < |rest| then OffsetValue(rest) else 0)
  }

  // ---------------------------------------------------------------- the notation

  datatype Coefficient = Coefficient(sign: string, digits: string, n: char)

  datatype Offset = Offset(sign: string, blanks: string, digits: string)

  datatype Notation =
    | Keyword(word: string)
    | Terms(coefficient: Option<Coefficient>, blanks: string, offset: Option<Offset>)

  predicate AllAre(s: string, p: char -> bool) {
    forall i :: 0 <= i < |s| ==> p(s[i])
  }

  predicate IsSign(sign: string) {
    sign == "" || sign == "+" || sign == "-"
  }

  /** A keyword in any case, or one or both terms; the code does not ask for a sign between them. */
  predicate WellFormed(x: Notation) {
    match x
    case Keyword(word) => Word(word, "even") == Some("") || Word(word, "odd") == Some("")
    case Terms(c, blanks, o) =>
      && (c.Some? || (o.Some? && blanks == "")) && AllAre(blanks, S.Blank)
      && (c.Some? ==> IsSign(c.value.sign) && AllAre(c.value.digits, Digit) && (c.value.n == 'n' || c.value.n == 'N'))
      && (o.Some? ==> IsSign(o.value.sign) && AllAre(o.value.blanks, S.Blank) &&
                      AllAre(o.value.digits, Digit) && o.value.digits != "" &&
                      (o.value.sign == "" ==> o.value.blanks == ""))
  }

  function SpellOffset(o: Option<Offset>): string {
    if o.None? then "" else o.value.sign + (o.value.blanks + o.value.digits)
  }

  function SpellCoefficient(c: Option<Coefficient>): string {
    if c.None? then "" else c.value.sign + (c.value.digits + [c.value.n])
  }

  function Spell(x: Notation): string {
    match x
    case Keyword(word) => word
    case Terms(c, blanks, o) => SpellCoefficient(c) + (blanks + SpellOffset(o))
  }

  /** `even` is 2n, `odd` is 2n+1; a missing term is 0, and a coefficient without digits is 1. */
  function Meaning(x: Notation): (int, int) {
    match x
    case Keyword(word) => (2, if Word(word, "odd").Some? then 1 else 0)
    case Terms(c, _, o) =>
      (if c.None? then 0 else Signed(c.value.sign, if c.value.digits == "" then 1 else Number(c.value.digits)),
       if o.None? then 0 else Signed(o.value.sign, Number(o.value.digits)))
  }

  // ---------------------------------------------------------------- reading what is spelled

  lemma {:induction false} SkipAll(v: string, t: string, p: char -> bool)
    requires AllAre(v, p) && (t != "" ==> !p(t[0]))
    ensures Skip(v + t, p) == t && (v + t)[..|v|] == v
  {
    if v == "" {
      assert v + t == t;
    } else {
      assert (v + t)[1..] == v[1..] + t;
      SkipAll(v[1..], t, p);
    }
  }

  lemma DigitsInFront(digits: string, t: string)
    requires AllAre(digits, Digit) && (t != "" ==> !Digit(t[0]))
    ensures Skip(digits + t, Digit) == t && Digits(digits + t) == digits
  {
    SkipAll(digits, t, Digit);
  }

  lemma SignInFront(sign: string, t: string)
    requires IsSign(sign) && (t != "" ==> t[0] != '+' && t[0] != '-')
    ensures SignRest(sign + t) == t && SignOf(sign + t) == sign
  {
    if sign == "" {
      assert sign + t == t && SignRest(t) == t && t[..0] == "";
    } else {
      assert (sign + t)[1..] == t && (sign + t)[..1] == sign;
    }
  }

  /** A coefficient is read, and nothing behind it matters. */
  lemma CoefficientRead(c: Coefficient, t: string)
    requires IsSign(c.sign) && AllAre(c.digits, Digit) && (c.n == 'n' || c.n == 'N')
    ensures var s := SpellCoefficient(Some(c)) + t;
      && CoefficientRest(s) == t && |t| < |s|
      && CoefficientValue(s) == Signed(c.sign, if c.digits == "" then 1 else Number(c.digits))
  {
    hide SignRest, SignOf, Digits, Skip, Number, Signed, Suffix;
    var s, u, v := SpellCoefficient(Some(c)) + t, c.digits + ([c.n] + t), [c.n] + t;
    assert s == c.sign + u by { assert u == (c.digits + [c.n]) + t; }
    assert u[0] == if c.digits == "" then c.n else c.digits[0];
    SignInFront(c.sign, u);
    DigitsInFront(c.digits, v);
    assert v[1..] == t && v[0] == c.n;
  }

  /** What an offset spells is no coefficient, and has no blanks in front. */
  lemma OffsetStart(o: Offset)
    requires IsSign(o.sign) && AllAre(o.blanks, S.Blank) && AllAre(o.digits, Digit) && o.digits != ""
    ensures var s := SpellOffset(Some(o));
      && SignRest(s) == o.blanks + o.digits && SignOf(s) == o.sign
      && SkipBlanks(o.blanks + o.digits) == o.digits && Skip(o.digits, Digit) == "" && Digits(o.digits) == o.digits
  {
    hide SignRest, SignOf, Digits, Skip, Suffix;
    assert (o.blanks + o.digits)[0] == if o.blanks == "" then o.digits[0] else o.blanks[0];
    SignInFront(o.sign, o.blanks + o.digits);
    SkipAll(o.blanks, o.digits, S.Blank);
    DigitsInFront(o.digits, "");
    assert o.digits + "" == o.digits;
  }

  lemma OffsetRead(o: Offset)
    requires IsSign(o.sign) && AllAre(o.blanks, S.Blank) && AllAre(o.digits, Digit) && o.digits != ""
    ensures var s := SpellOffset(Some(o));
      && OffsetRest(s) == "" && |s| > 0 && OffsetValue(s) == Signed(o.sign, Number(o.digits))
  {
    hide SignRest, SignOf, Digits, Skip, Number, Signed, Suffix;
    OffsetStart(o);
  }

  lemma OffsetAlone(o: Offset)
    requires IsSign(o.sign) && AllAre(o.blanks, S.Blank) && AllAre(o.digits, Digit) && o.digits != ""
    requires o.sign != "" || o.blanks == ""
    ensures var s := SpellOffset(Some(o)); CoefficientRest(s) == s && SkipBlanks(s) == s
  {
    hide SignRest, SignOf, Digits, Number, Suffix;
    OffsetStart(o);
    var u := o.blanks + o.digits;
    if o.blanks == "" {
      assert u == o.digits;
    } else {
      assert Skip(u, Digit) == u && u[0] == o.blanks[0];
    }
  }

  lemma NoKeyword(s: string)
    requires s != "" && Lower(s[0]) != 'e' && Lower(s[0]) != 'o'
    ensures Word(s, "even").None? && Word(s, "odd").None?
  {
  }

  /** Both terms, or one of them. */
  lemma TermsRead(x: Notation)
    requires WellFormed(x) && x.Terms?
    ensures ReadArgument(Spell(x)) == Meaning(x)
  {
    hide Number, Signed, SignRest, SignOf, Digits, Skip, Suffix, OffsetRest, CoefficientRest, Word;
    hide CoefficientValue, OffsetValue, SkipBlanks, SpellOffset, SpellCoefficient;
    var c, o, t := x.coefficient, x.offset, x.blanks + SpellOffset(x.offset);
    OffsetEnds(o);
    StartsTerm(x);
    if c.Some? {
      CoefficientRead(c.value, t);
      BlanksBetween(x.blanks, o);
    } else {
      OffsetAlone(o.value);
      assert SpellCoefficient(c) + t == SpellOffset(o) by { NoCoefficient(x); }
    }
  }

  lemma NoCoefficient(x: Notation)
    requires x.Terms? && x.coefficient.None? && x.blanks == ""
    ensures Spell(x) == SpellOffset(x.offset)
  {
    assert "" + ("" + SpellOffset(x.offset)) == SpellOffset(x.offset);
  }

  lemma BlanksBetween(blanks: string, o: Option<Offset>)
    requires AllAre(blanks, S.Blank)
    requires o.Some? ==> WellFormed(Terms(None, "", o))
    ensures SkipBlanks(blanks + SpellOffset(o)) == SpellOffset(o)
  {
    if o.Some? { OffsetAlone(o.value); }
    SkipAll(blanks, SpellOffset(o), S.Blank);
  }

  lemma OffsetEnds(o: Option<Offset>)
    requires o.Some? ==> WellFormed(Terms(None, "", o))
    ensures |OffsetRest(SpellOffset(o))| < |SpellOffset(o)| <==> o.Some?
    ensures o.Some? ==> OffsetValue(SpellOffset(o)) == Signed(o.value.sign, Number(o.value.digits))
  {
    if o.Some? { OffsetRead(o.value); }
  }

  /** Terms begin with a sign, a digit or n. */
  lemma StartsTerm(x: Notation)
    requires WellFormed(x) && x.Terms?
    ensures Word(Spell(x), "even").None? && Word(Spell(x), "odd").None?
  {
    hide Word;
    var s := Spell(x);
    if x.coefficient.Some? {
      var c := x.coefficient.value;
      assert s[0] == if c.sign != "" then c.sign[0] else if c.digits != "" then c.digits[0] else c.n;
    } else {
      var o := x.offset.value;
      assert s[0] == if o.sign != "" then o.sign[0] else o.digits[0];
    }
    NoKeyword(s);
  }

  /**
   Every argument in the notation is read as what it means, if and only if a keyword is written in lower case: in
   capitals it is matched, but stands for 0n+0 then.
   */
  lemma ArgumentReadExactly(x: Notation)
    requires WellFormed(x)
    ensures ReadArgument(Spell(x)) == Meaning(x) <==> (x.Keyword? ==> x.word == "even" || x.word == "odd")
  {
    if x.Terms? {
      TermsRead(x);
    }
  }

  // ---------------------------------------------------------------- every pair of numbers has a notation

  function Decimal(n: nat): string {
    (if n < 10 then "" else Decimal(n / 10)) + [(n % 10 + '0' as int) as char]
  }

  lemma {:induction false} NumberOfDecimal(n: nat)
    ensures AllAre(Decimal(n), Digit) && Decimal(n) != "" && Number(Decimal(n)) == n
  {
    var d := Decimal(n);
    assert d[..|d| - 1] == if n < 10 then "" else Decimal(n / 10);
    if n >= 10 {
      NumberOfDecimal(n / 10);
    }
  }

  /** The notation with all its parts. */
  function Full(sign: string, digits: string, sign2: string, digits2: string): Notation {
    Terms(Some(Coefficient(sign, digits, 'n')), "", Some(Offset(sign2, "", digits2)))
  }

  function Sign(a: int, plus: string): string {
    if a < 0 then "-" else plus
  }

  function Size(a: int): nat {
    if a < 0 then -a else a
  }

  /** The notation of an+b. */
  function Show(a: int, b: int): Notation {
    Full(Sign(a, ""), Decimal(Size(a)), Sign(b, "+"), Decimal(Size(b)))
  }

  lemma SignedSize(a: int)
    ensures Signed(Sign(a, ""), Size(a)) == a && Signed(Sign(a, "+"), Size(a)) == a
    ensures IsSign(Sign(a, "")) && IsSign(Sign(a, "+"))
  {
  }

  lemma FullMeaning(sign: string, digits: string, sign2: string, digits2: string)
    requires IsSign(sign) && IsSign(sign2) && AllAre(digits, Digit) && AllAre(digits2, Digit)
    requires digits != "" && digits2 != ""
    ensures WellFormed(Full(sign, digits, sign2, digits2))
    ensures Meaning(Full(sign, digits, sign2, digits2)) ==
            (Signed(sign, Number(digits)), Signed(sign2, Number(digits2)))
  {
  }

  lemma ShownIsNotation(a: int, b: int)
    ensures WellFormed(Show(a, b)) && Meaning(Show(a, b)) == (a, b)
  {
    NumberOfDecimal(Size(a));
    NumberOfDecimal(Size(b));
    SignedSize(a);
    SignedSize(b);
    hide Decimal, Number, WellFormed, Meaning, Full, AllAre, Sign, Size, Signed, IsSign;
    FullMeaning(Sign(a, ""), Decimal(Size(a)), Sign(b, "+"), Decimal(Size(b)));
  }

  /** Any a and b are read back from their notation. */
  lemma ShownIsRead(a: int, b: int)
    ensures ReadArgument(Spell(Show(a, b))) == (a, b)
  {
    ShownIsNotation(a, b);
    hide WellFormed, Meaning, Spell, ReadArgument, Decimal;
    TermsRead(Show(a, b));
  }
}
