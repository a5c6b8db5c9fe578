/**
 The regular expressions of the selector tokenizer, as functions that return the text behind a match,
 and what a match depends on.
 */
module Lexer {
  import opened Sequences
  import opened Selectors

  datatype Kind = CombinatorKind | TagKind | ClassKind | AttrKind | ChildKind | IdKind

  /** What the token stands for is read off its text. */
  datatype Lexeme = Lexeme(kind: Kind, value: string)

  predicate Suffix(r: string, s: string) {
    |r| <= |s| && r == s[|s| - |r|..]
  }

  lemma SuffixOfSuffix(a: string, b: string, c: string)
    requires Suffix(a, b) && Suffix(b, c)
    ensures Suffix(a, c)
  {
  }

  // ---------------------------------------------------------------- characters

  predicate WordChar(c: char) {
    'a' <= c <= 'z' || 'A' <= c <= 'Z' || '0' <= c <= '9' || c == '_' || c == '-' || c > '\U{00A0}'
  }

  /** What the dot of a regular expression matches. */
  predicate Dot(c: char) {
    c != '\n' && c != '\r' && c != '\U{2028}' && c != '\U{2029}'
  }

  predicate CombinatorChar(c: char) {
    c == '>' || c == '+' || c == '~'
  }

  predicate Digit(c: char) {
    '0' <= c <= '9'
  }

  function Lower(c: char): char {
    if 'A' <= c <= 'Z' then (c as int + 32) as char else c
  }

  // ---------------------------------------------------------------- pieces of the expressions

  function Skip(s: string, p: char -> bool): (r: string)
    ensures |r| <= |s| && Suffix(r, s) && (r != "" ==> !p(r[0]))
  {
    if s != "" && p(s[0]) then Skip(s[1..], p) else s
  }

  function SkipBlanks(s: string): (r: string)
    ensures |r| <= |s| && Suffix(r, s) && (r != "" ==> !Blank(r[0]))
  {
    Skip(s, Blank)
  }

  /** Behind an identifier, which may have escapes; the whole text when there is none. */
  function IdentRest(s: string): (r: string)
    ensures |r| <= |s| && Suffix(r, s)
  {
    if s == "" then s
    else if WordChar(s[0]) then IdentRest(s[1..])
    else if |s| > 1 && s[0] == '\\' && Dot(s[1]) then IdentRest(s[2..])
    else s
  }

  function Ident(s: string): (r: Option<string>)
    ensures r.Some? ==> Suffix(r.value, s) && |r.value| < |s|
  {
    var r := IdentRest(s);
    if |r| < |s| then Some(r) else None
  }

  /** Behind a word written in any case. */
  function Word(s: string, word: string): (r: Option<string>)
    ensures r.Some? ==> Suffix(r.value, s) && |r.value| == |s| - |word|
  {
    if word == "" then Some(s)
    else if s != "" && Lower(s[0]) == word[0] then Word(s[1..], word[1..])
    else None
  }

  /** Behind the text of a quoted string and its closing quote. */
  function QuotedRest(s: string, quote: char): (r: Option<string>)
    ensures r.Some? ==> Suffix(r.value, s) && |r.value| < |s|
  {
    if s == "" then None
    else if s[0] == quote then Some(s[1..])
    else if s[0] != '\\' then QuotedRest(s[1..], quote)
    else if |s| > 1 && Dot(s[1]) then QuotedRest(s[2..], quote)
    else None
  }

  // ---------------------------------------------------------------- the expressions

  function CommaRest(s: string): (r: Option<string>)
    ensures r.Some? ==> Suffix(r.value, s) && |r.value| < |s|
  {
    var b := SkipBlanks(s);
    if b != "" && b[0] == ',' then Some(SkipBlanks(b[1..])) else None
  }

  function CombinatorRest(s: string): (r: Option<string>)
    ensures r.Some? ==> Suffix(r.value, s) && |r.value| < |s|
  {
    var b := SkipBlanks(s);
    if b != "" && CombinatorChar(b[0]) then Some(SkipBlanks(b[1..]))
    else if |b| < |s| then Some(b)
    else None
  }

  function TagRest(s: string): (r: Option<string>)
    ensures r.Some? ==> Suffix(r.value, s) && |r.value| < |s|
  {
    if s != "" && s[0] == '*' then Some(s[1..]) else Ident(s)
  }

  /** Behind a mark and an identifier: a class or an id. */
  function MarkedRest(s: string, mark: char): (r: Option<string>)
    ensures r.Some? ==> Suffix(r.value, s) && |r.value| < |s|
  {
    if s != "" && s[0] == mark then Ident(s[1..]) else None
  }

  predicate IsQuote(c: char) {
    c == '\'' || c == '"'
  }

  function ValueRest(s: string): (r: Option<string>)
    ensures r.Some? ==> Suffix(r.value, s) && |r.value| < |s|
  {
    if s != "" && IsQuote(s[0]) then QuotedRest(s[1..], s[0]) else Ident(s)
  }

  lemma OperatorTail(s: string, n: nat)
    requires 1 <= n <= 2 && n <= |s|
    ensures Suffix(s[n..], s) && (n == 2 ==> s[1..][1..] == s[n..])
  {
  }

  /** Behind the operator, the value and the blanks after it. */
  function AttrValueRest(s: string): (r: Option<string>)
    ensures r.Some? ==> Suffix(r.value, s) && |r.value| < |s|
  {
    hide Skip, Blank, Suffix, ValueRest;
    var op := if s != "" && s[0] in "*^$|!~" then s[1..] else s;
    if op == "" || op[0] != '=' then None
    else
      var v := SkipBlanks(op[1..]);
      var r := ValueRest(v);
      if r.None? then None
      else
        OperatorTail(s, |s| - |op| + 1);
        SuffixOfSuffix(v, op[1..], s);
        SuffixOfSuffix(r.value, v, s);
        SuffixOfSuffix(SkipBlanks(r.value), r.value, s);
        Some(SkipBlanks(r.value))
  }

  /** Behind the name and the blanks after it. */
  function AttrNameRest(s: string): (r: Option<string>)
    ensures r.Some? ==> Suffix(r.value, s) && |r.value| < |s|
  {
    hide Skip, IdentRest, Blank;
    var name := Ident(SkipBlanks(s));
    if name.None? then None else Some(SkipBlanks(name.value))
  }

  /** Behind all that stands between the brackets. */
  function AttrContentRest(s: string): (r: Option<string>)
    ensures r.Some? ==> Suffix(r.value, s) && |r.value| < |s|
  {
    hide AttrNameRest, AttrValueRest, Suffix;
    if AttrNameRest(s).None? then None
    else
      var b := AttrNameRest(s).value;
      if AttrValueRest(b).Some? then
        SuffixOfSuffix(AttrValueRest(b).value, b, s);
        AttrValueRest(b)
      else Some(b)
  }

  function AttrRest(s: string): (r: Option<string>)
    ensures r.Some? ==> Suffix(r.value, s) && |r.value| < |s|
  {
    hide AttrContentRest;
    if s == "" || s[0] != '[' || AttrContentRest(s[1..]).None? then None
    else
      var c := AttrContentRest(s[1..]).value;
      if c != "" && c[0] == ']' then Some(c[1..]) else None
  }

  function SignRest(s: string): (r: string)
    ensures |r| <= |s| && Suffix(r, s)
  {
    if s != "" && (s[0] == '+' || s[0] == '-') then s[1..] else s
  }

  /** Behind the coefficient of n, if there is one. */
  function CoefficientRest(s: string): (r: string)
    ensures |r| <= |s| && Suffix(r, s)
  {
    hide Digit, Lower;
    var d := Skip(SignRest(s), Digit);
    if d != "" && Lower(d[0]) == 'n' then d[1..] else s
  }

  /** Behind the offset, if there is one. */
  function OffsetRest(s: string): (r: string)
    ensures |r| <= |s| && Suffix(r, s)
  {
    hide Blank;
    var d := SkipBlanks(SignRest(s));
    if d != "" && Digit(d[0]) then Skip(d, Digit) else s
  }

  /** Behind the argument of a child pseudo-class and the blanks after it. */
  function ArgumentRest(s: string): (r: string)
    ensures |r| <= |s| && Suffix(r, s)
  {
    if Word(s, "even").Some? then SkipBlanks(Word(s, "even").value)
    else if Word(s, "odd").Some? then SkipBlanks(Word(s, "odd").value)
    else SkipBlanks(OffsetRest(SkipBlanks(CoefficientRest(s))))
  }

  /** Behind the argument in parentheses. */
  function ParenthesisRest(s: string): (r: Option<string>)
    ensures r.Some? ==> Suffix(r.value, s) && |r.value| < |s|
  {
    if s == "" || s[0] != '(' then None
    else
      var a := ArgumentRest(SkipBlanks(s[1..]));
      if a != "" && a[0] == ')' then Some(a[1..]) else None
  }

  /** Parentheses with nothing but blanks between them. */
  predicate EmptyArgument(s: string) {
    s != "" && s[0] == '(' && var a := SkipBlanks(s[1..]); a != "" && a[0] == ')'
  }

  function FirstWord(s: string, words: seq<string>): (r: Option<string>)
    ensures r.Some? ==> Suffix(r.value, s) && |r.value| <= |s|
  {
    if words == [] then None
    else if Word(s, words[0]).Some? then Word(s, words[0])
    else FirstWord(s, words[1..])
  }

  const CHILD_KINDS: seq<string> := ["only-", "first-", "last-", "nth-last-", "nth-"]

  /** Behind the name of a child pseudo-class. */
  function ChildNameRest(s: string): (r: Option<string>)
    ensures r.Some? ==> Suffix(r.value, s) && |r.value| < |s|
  {
    hide Word, FirstWord;
    if s == "" || s[0] != ':' then None
    else
      var kind := FirstWord(s[1..], CHILD_KINDS);
      if kind.None? then None
      else if Word(kind.value, "child").Some? then Word(kind.value, "child")
      else Word(kind.value, "of-type")
  }

  /** Whether the pseudo-class counts, so that it is an error to leave its argument out. */
  predicate Counting(s: string) {
    s != "" && Word(s[1..], "nth").Some?
  }

  /** Behind a child pseudo-class. It is an error if a counting one has no argument, or another one has one. */
  function ChildRest(s: string): (r: Option<string>)
    ensures r.Some? ==> Suffix(r.value, s) && |r.value| < |s|
  {
    hide ChildNameRest, ParenthesisRest, EmptyArgument, Counting;
    if ChildNameRest(s).None? then None
    else
      var u := ChildNameRest(s).value;
      var p := ParenthesisRest(u);
      if Counting(s) then (if EmptyArgument(u) then None else p)
      else if p.None? then Some(u)
      else if EmptyArgument(u) then p
      else None
  }

  function RestOf(kind: Kind, s: string): (r: Option<string>)
    ensures r.Some? ==> Suffix(r.value, s) && |r.value| < |s|
  {
    match kind
    case CombinatorKind => CombinatorRest(s)
    case TagKind => TagRest(s)
    case ClassKind => MarkedRest(s, '.')
    case AttrKind => AttrRest(s)
    case ChildKind => ChildRest(s)
    case IdKind => MarkedRest(s, '#')
  }

  // ---------------------------------------------------------------- what a match depends on

  /** r without the text t at its end. */
  function Cut(r: string, t: string): string
    requires |r| >= |t|
  {
    r[..|r| - |t|]
  }

  /*
   The lemmas below put another text t2 behind a piece v that was matched in front of t1: what is left
   of v stays the same, as long as t2 does not go on where the match ended.
   */

  lemma {:induction false} SkipSwap(v: string, t1: string, t2: string, p: char -> bool)
    requires |Skip(v + t1, p)| >= |t1|
    requires |Skip(v + t1, p)| == |t1| ==> t2 == "" || !p(t2[0])
    ensures Skip(v + t1, p) == Cut(Skip(v + t1, p), t1) + t1
    ensures Skip(v + t2, p) == Cut(Skip(v + t1, p), t1) + t2
  {
    hide Suffix;
    if v == "" {
      assert v + t1 == t1 && v + t2 == t2;
    } else if p(v[0]) {
      assert (v + t1)[1..] == v[1..] + t1 && (v + t2)[1..] == v[1..] + t2;
      SkipSwap(v[1..], t1, t2, p);
    } else {
      assert Cut(v + t1, t1) == v;
    }
  }

  lemma {:induction false} IdentSwap(v: string, t1: string, t2: string)
    requires |IdentRest(v + t1)| >= |t1|
    requires |IdentRest(v + t1)| == |t1| ==> IdentRest(t2) == t2
    requires |IdentRest(v + t1)| > |t1| ==> IdentRest(v + t1)[0] != '\\'
    ensures IdentRest(v + t1) == Cut(IdentRest(v + t1), t1) + t1
    ensures IdentRest(v + t2) == Cut(IdentRest(v + t1), t1) + t2
  {
    hide Suffix, WordChar, Dot;
    if v == "" {
      assert v + t1 == t1 && v + t2 == t2;
    } else if WordChar(v[0]) {
      assert (v + t1)[1..] == v[1..] + t1 && (v + t2)[1..] == v[1..] + t2;
      IdentSwap(v[1..], t1, t2);
    } else if v[0] == '\\' {
      assert |v + t1| > 1 && Dot((v + t1)[1]);
      IdentEscape(v, t1);
      assert (v + t1)[2..] == v[2..] + t1 && (v + t2)[2..] == v[2..] + t2;
      IdentSwap(v[2..], t1, t2);
    } else {
      assert Cut(v + t1, t1) == v;
    }
  }

  lemma IdentEscape(v: string, t: string)
    requires v != "" && v[0] == '\\' && |v + t| > 1 && Dot((v + t)[1])
    requires |IdentRest(v + t)| >= |t|
    ensures |v| > 1
  {
    assert IdentRest(v + t) == IdentRest((v + t)[2..]);
  }

  lemma QuotedStep(v: string, t: string, quote: char)
    requires v != ""
    ensures v[0] == quote ==> QuotedRest(v + t, quote) == Some(v[1..] + t)
    ensures v[0] != quote && v[0] != '\\' ==> QuotedRest(v + t, quote) == QuotedRest(v[1..] + t, quote)
    ensures v[0] != quote && v[0] == '\\' && |v| > 1 ==>
      QuotedRest(v + t, quote) == if Dot(v[1]) then QuotedRest(v[2..] + t, quote) else None
    ensures v[0] != quote && v[0] == '\\' && |v| == 1 && QuotedRest(v + t, quote).Some? ==>
      |QuotedRest(v + t, quote).value| < |t|
  {
    hide Suffix, Dot;
    assert (v + t)[1..] == v[1..] + t;
    assert |v| > 1 ==> (v + t)[2..] == v[2..] + t;
  }

  lemma {:induction false} QuotedSwap(v: string, t1: string, t2: string, quote: char)
    requires QuotedRest(v + t1, quote).Some? && |QuotedRest(v + t1, quote).value| >= |t1|
    ensures QuotedRest(v + t1, quote).value == Cut(QuotedRest(v + t1, quote).value, t1) + t1
    ensures QuotedRest(v + t2, quote) == Some(Cut(QuotedRest(v + t1, quote).value, t1) + t2)
  {
    hide Suffix, Dot, QuotedRest;
    assert |v + t1| > |t1|;
    QuotedStep(v, t1, quote);
    QuotedStep(v, t2, quote);
    if v[0] == quote {
      assert Cut(v[1..] + t1, t1) == v[1..];
    } else {
      QuotedSwap(v[if v[0] == '\\' then 2 else 1..], t1, t2, quote);
    }
  }

  /** A text that no identifier can go on with. */
  predicate EndsIdent(t: string) {
    t == "" || (!WordChar(t[0]) && t[0] != '\\')
  }

  /** Whether the text t may follow the lexeme without becoming part of it. */
  predicate Fits(kind: Kind, v: string, t: string) {
    match kind
    case CombinatorKind => t == "" || (!Blank(t[0]) && (SkipBlanks(v) == "" ==> !CombinatorChar(t[0])))
    case TagKind => v == "*" || EndsIdent(t)
    case ClassKind => EndsIdent(t)
    case IdKind => EndsIdent(t)
    case AttrKind => true
    case ChildKind => t == "" || t[0] != '('
  }

  lemma CombinatorSwap(v: string, t1: string, t2: string)
    requires v != "" && CombinatorRest(v + t1) == Some(t1) && Fits(CombinatorKind, v, t2)
    ensures CombinatorRest(v + t2) == Some(t2)
  {
    hide Skip, Suffix, Blank;
    var b := SkipBlanks(v + t1);
    if |b| > |t1| {
      SkipSwap(v, t1, t2, Blank);
      var x := Cut(b, t1);
      assert b[1..] == x[1..] + t1 && (x + t2)[1..] == x[1..] + t2;
      SkipSwap(x[1..], t1, t2, Blank);
      assert Cut(t1, t1) + t2 == t2;
    } else {
      SkipSwap(v, t1, "", Blank);
      assert v + "" == v && Cut(t1, t1) + "" == "";
      SkipSwap(v, t1, t2, Blank);
      assert Cut(t1, t1) + t2 == t2;
    }
  }

  lemma IdentifierSwap(v: string, t1: string, t2: string)
    requires v != "" && Ident(v + t1) == Some(t1) && EndsIdent(t2)
    ensures Ident(v + t2) == Some(t2)
  {
    IdentSwap(v, t1, t2);
    assert Cut(t1, t1) + t2 == t2;
  }

  lemma ValueSwap(v: string, t1: string, t2: string)
    requires ValueRest(v + t1).Some?
    requires var r := ValueRest(v + t1).value; |r| > |t1| && r[0] != '\\'
    ensures var r := ValueRest(v + t1).value;
      r == Cut(r, t1) + t1 && ValueRest(v + t2) == Some(Cut(r, t1) + t2)
  {
    hide IdentRest, QuotedRest, Suffix;
    if IsQuote(v[0]) {
      assert (v + t1)[1..] == v[1..] + t1 && (v + t2)[1..] == v[1..] + t2;
      QuotedSwap(v[1..], t1, t2, v[0]);
    } else {
      IdentSwap(v, t1, t2);
    }
  }

  /** Blanks in front of a closing bracket hide no backslash. */
  lemma BlankOrSame(s: string)
    requires s != ""
    ensures SkipBlanks(s) == s || Blank(s[0])
  {
  }

  lemma AttrValueSwap(v: string, t1: string, t2: string)
    requires AttrValueRest(v + t1).Some?
    requires var c := AttrValueRest(v + t1).value; |c| > |t1| && c[0] == ']'
    ensures var c := AttrValueRest(v + t1).value;
      c == Cut(c, t1) + t1 && AttrValueRest(v + t2) == Some(Cut(c, t1) + t2)
  {
    hide Skip, ValueRest, Suffix;
    var s1, s2 := v + t1, v + t2;
    var c := AttrValueRest(s1).value;
    var k := if s1[0] in "*^$|!~" then 1 else 0;
    assert s1[k..][1..] == v[k + 1..] + t1 && s2[k..][1..] == v[k + 1..] + t2 && s1[k] == s2[k] == '=';
    SkipSwap(v[k + 1..], t1, t2, Blank);
    var w := Cut(SkipBlanks(v[k + 1..] + t1), t1);
    var r1 := ValueRest(w + t1).value;
    BlankOrSame(r1);
    ValueSwap(w, t1, t2);
    SkipSwap(Cut(r1, t1), t1, t2, Blank);
  }

  lemma AttrNameSwap(v: string, t1: string, t2: string)
    requires AttrNameRest(v + t1).Some?
    requires var b := AttrNameRest(v + t1).value; |b| > |t1| && b[0] != '\\'
    ensures var b := AttrNameRest(v + t1).value;
      b == Cut(b, t1) + t1 && AttrNameRest(v + t2) == Some(Cut(b, t1) + t2)
  {
    hide Skip, IdentRest, Suffix;
    SkipSwap(v, t1, t2, Blank);
    var w := Cut(SkipBlanks(v + t1), t1);
    var n1 := IdentRest(w + t1);
    BlankOrSame(n1);
    IdentSwap(w, t1, t2);
    SkipSwap(Cut(n1, t1), t1, t2, Blank);
  }

  lemma AttrContentSwap(v: string, t1: string, t2: string)
    requires AttrContentRest(v + t1).Some?
    requires var c := AttrContentRest(v + t1).value; |c| > |t1| && c[0] == ']'
    ensures var c := AttrContentRest(v + t1).value;
      c == Cut(c, t1) + t1 && AttrContentRest(v + t2) == Some(Cut(c, t1) + t2)
  {
    hide AttrNameRest, AttrValueRest, Suffix;
    var b1 := AttrNameRest(v + t1).value;
    AttrValueStart(b1);
    AttrNameSwap(v, t1, t2);
    var b := Cut(b1, t1);
    AttrValueStart(b + t2);
    if AttrValueRest(b1).Some? {
      AttrValueSwap(b, t1, t2);
    }
  }

  lemma AttrSwap(v: string, t1: string, t2: string)
    requires v != "" && AttrRest(v + t1) == Some(t1)
    ensures AttrRest(v + t2) == Some(t2)
  {
    hide AttrContentRest, Suffix;
    assert (v + t1)[1..] == v[1..] + t1 && (v + t2)[1..] == v[1..] + t2;
    var c := AttrContentRest(v[1..] + t1).value;
    assert c == [']'] + t1;
    AttrContentSwap(v[1..], t1, t2);
    assert Cut(c, t1) == [']'] && ([']'] + t2)[1..] == t2;
  }

  lemma AttrValueStart(s: string)
    ensures AttrValueRest(s).Some? ==> s != "" && (s[0] in "*^$|!~" || s[0] == '=')
  {
    hide Skip, ValueRest, Suffix;
  }

  // ---------------------------------------------------------------- child pseudo-classes

  lemma {:induction false} WordSwap(v: string, t1: string, t2: string, word: string)
    requires |v| >= |word|
    ensures Word(v + t1, word).Some? <==> Word(v + t2, word).Some?
    ensures Word(v + t1, word).Some? ==>
      Word(v + t1, word).value == v[|word|..] + t1 && Word(v + t2, word).value == v[|word|..] + t2
  {
    hide Suffix, Lower;
    if word == "" {
      assert v[0..] == v;
    } else {
      assert (v + t1)[0] == (v + t2)[0] == v[0] && v[1..][|word| - 1..] == v[|word|..];
      assert (v + t1)[1..] == v[1..] + t1 && (v + t2)[1..] == v[1..] + t2;
      WordSwap(v[1..], t1, t2, word[1..]);
    }
  }

  /** A text with a closing parenthesis is read alike whatever follows it. */
  lemma {:induction false} SkipClosed(w: string, t: string, p: char -> bool)
    requires ')' in w && !p(')')
    ensures Skip(w + t, p) == Skip(w, p) + t && ')' in Skip(w, p)
  {
    hide Suffix;
    if p(w[0]) {
      assert (w + t)[1..] == w[1..] + t && w == [w[0]] + w[1..];
      SkipClosed(w[1..], t, p);
    }
  }

  lemma {:induction false} WordClosed(w: string, t: string, word: string)
    requires ')' in w && ')' !in word
    ensures Word(w + t, word).Some? <==> Word(w, word).Some?
    ensures Word(w, word).Some? ==> Word(w + t, word).value == Word(w, word).value + t && ')' in Word(w, word).value
  {
    hide Suffix;
    if word != "" && Lower(w[0]) == word[0] {
      assert (w + t)[1..] == w[1..] + t && w == [w[0]] + w[1..] && word == [word[0]] + word[1..];
      WordClosed(w[1..], t, word[1..]);
    }
  }

  lemma SignClosed(w: string, t: string)
    requires ')' in w
    ensures SignRest(w + t) == SignRest(w) + t && ')' in SignRest(w)
  {
    hide Suffix;
    assert (w + t)[1..] == w[1..] + t && w == [w[0]] + w[1..];
  }

  lemma CoefficientClosed(w: string, t: string)
    requires ')' in w
    ensures CoefficientRest(w + t) == CoefficientRest(w) + t && ')' in CoefficientRest(w)
  {
    hide Suffix, Skip, SignRest;
    SignClosed(w, t);
    SkipClosed(SignRest(w), t, Digit);
    var d := Skip(SignRest(w), Digit);
    assert (d + t)[1..] == d[1..] + t && d == [d[0]] + d[1..];
  }

  lemma OffsetClosed(w: string, t: string)
    requires ')' in w
    ensures OffsetRest(w + t) == OffsetRest(w) + t && ')' in OffsetRest(w)
  {
    hide Suffix, Skip, SignRest;
    SignClosed(w, t);
    SkipClosed(SignRest(w), t, Blank);
    SkipClosed(SkipBlanks(SignRest(w)), t, Digit);
  }

  lemma ArgumentClosed(w: string, t: string)
    requires ')' in w
    ensures ArgumentRest(w + t) == ArgumentRest(w) + t
  {
    hide Suffix, Skip, Word, CoefficientRest, OffsetRest;
    WordClosed(w, t, "even");
    WordClosed(w, t, "odd");
    if Word(w, "even").Some? {
      SkipClosed(Word(w, "even").value, t, Blank);
    } else if Word(w, "odd").Some? {
      SkipClosed(Word(w, "odd").value, t, Blank);
    } else {
      CoefficientClosed(w, t);
      SkipClosed(CoefficientRest(w), t, Blank);
      OffsetClosed(SkipBlanks(CoefficientRest(w)), t);
      SkipClosed(OffsetRest(SkipBlanks(CoefficientRest(w))), t, Blank);
    }
  }

  lemma ParenthesisEnds(u: string, t: string)
    requires u != "" && ParenthesisRest(u + t) == Some(t)
    ensures u[0] == '(' && |u| > 1 && u[|u| - 1] == ')'
  {
    hide Skip, ArgumentRest;
    var s := u + t;
    var a := ArgumentRest(SkipBlanks(s[1..]));
    assert a == [')'] + t;
    assert Suffix(a, s[1..]) && Suffix(a, s);
    assert a[0] == s[|s| - |a|] == u[|u| - 1];
  }

  lemma ParenthesisSwap(u: string, t1: string, t2: string)
    requires u != "" && ParenthesisRest(u + t1) == Some(t1)
    ensures ParenthesisRest(u + t2) == Some(t2) && (EmptyArgument(u + t1) <==> EmptyArgument(u + t2))
  {
    hide Skip, ArgumentRest, Suffix;
    ParenthesisEnds(u, t1);
    var w := u[1..];
    assert w[|w| - 1] == ')';
    assert (u + t1)[1..] == w + t1 && (u + t2)[1..] == w + t2;
    SkipClosed(w, t1, Blank);
    SkipClosed(w, t2, Blank);
    ArgumentClosed(SkipBlanks(w), t1);
    ArgumentClosed(SkipBlanks(w), t2);
    var a := ArgumentRest(SkipBlanks(w));
    assert a + t1 == [')'] + t1;
    assert a == [')'] by {
      assert |a| == 1 && a[0] == (a + t1)[0];
    }
    assert ([')'] + t2)[1..] == t2;
  }

  lemma {:induction false} FirstWordSwap(v: string, t1: string, t2: string, words: seq<string>)
    requires forall w :: w in words ==> |w| <= |v|
    ensures FirstWord(v + t1, words).Some? <==> FirstWord(v + t2, words).Some?
    ensures FirstWord(v + t1, words).Some? ==>
      var r := FirstWord(v + t1, words).value;
      |r| >= |t1| && r == Cut(r, t1) + t1 && FirstWord(v + t2, words).value == Cut(r, t1) + t2
  {
    hide Word, Suffix;
    if words != [] {
      assert words[0] in words;
      WordSwap(v, t1, t2, words[0]);
      FirstWordSwap(v, t1, t2, words[1..]);
    }
  }

  lemma {:induction false} FirstWordLength(s: string, words: seq<string>, n: nat)
    requires forall w :: w in words ==> |w| >= n
    ensures FirstWord(s, words).Some? ==> |FirstWord(s, words).value| + n <= |s|
  {
    hide Word, Suffix;
    if words != [] {
      assert words[0] in words;
      FirstWordLength(s, words[1..], n);
    }
  }

  lemma ChildNameLength(s: string)
    requires ChildNameRest(s).Some?
    ensures s[0] == ':' && |ChildNameRest(s).value| + 10 <= |s|
    ensures |ChildNameRest(s).value| + 5 <= |FirstWord(s[1..], CHILD_KINDS).value| <= |s| - 5
  {
    hide Word, FirstWord, Suffix;
    FirstWordLength(s[1..], CHILD_KINDS, 4);
  }

  lemma CountingSwap(v: string, t1: string, t2: string)
    requires |v| >= 4
    ensures Counting(v + t1) <==> Counting(v + t2)
  {
    hide Word, Suffix;
    assert (v + t1)[1..] == v[1..] + t1 && (v + t2)[1..] == v[1..] + t2;
    WordSwap(v[1..], t1, t2, "nth");
  }

  /** Behind the second word of the name. */
  lemma WhatSwap(x: string, t1: string, t2: string)
    requires Word(x + t1, "child").Some? || (Word(x + t1, "of-type").Some? && |x| >= 7)
    requires |x| >= 5
    ensures Word(x + t1, "child").Some? ==>
      Word(x + t1, "child").value == x[5..] + t1 && Word(x + t2, "child") == Some(x[5..] + t2)
    ensures Word(x + t1, "child").None? ==>
      && Word(x + t1, "of-type").value == x[7..] + t1
      && Word(x + t2, "child").None? && Word(x + t2, "of-type") == Some(x[7..] + t2)
  {
    hide Word, Suffix;
    WordSwap(x, t1, t2, "child");
    if Word(x + t1, "child").None? {
      WordSwap(x, t1, t2, "of-type");
    }
  }

  lemma ChildNameSwap(v: string, t1: string, t2: string)
    requires ChildNameRest(v + t1).Some? && |ChildNameRest(v + t1).value| >= |t1|
    ensures v != "" && (Counting(v + t1) <==> Counting(v + t2))
    ensures var u := Cut(ChildNameRest(v + t1).value, t1);
      ChildNameRest(v + t1) == Some(u + t1) && ChildNameRest(v + t2) == Some(u + t2)
  {
    hide Word, FirstWord, Suffix, Counting;
    ChildNameLength(v + t1);
    CountingSwap(v, t1, t2);
    assert (v + t1)[1..] == v[1..] + t1 && (v + t2)[1..] == v[1..] + t2;
    FirstWordSwap(v[1..], t1, t2, CHILD_KINDS);
    var x := Cut(FirstWord(v[1..] + t1, CHILD_KINDS).value, t1);
    WhatSwap(x, t1, t2);
  }

  lemma ChildSwap(v: string, t1: string, t2: string)
    requires v != "" && ChildRest(v + t1) == Some(t1) && Fits(ChildKind, v, t2)
    ensures ChildRest(v + t2) == Some(t2)
  {
    hide ChildNameRest, ParenthesisRest, Counting, Suffix;
    ChildNameSwap(v, t1, t2);
    var u := Cut(ChildNameRest(v + t1).value, t1);
    if u == "" {
      assert u + t1 == t1 && u + t2 == t2;
      NoParenthesis(t2);
    } else {
      ParenthesisSwap(u, t1, t2);
    }
  }

  lemma NoParenthesis(t: string)
    requires t == "" || t[0] != '('
    ensures ParenthesisRest(t).None? && !EmptyArgument(t)
  {
  }

  /** What a match leaves behind it does not decide how it is read, as long as it does not prolong it. */
  lemma MatchIsLocal(kind: Kind, v: string, t1: string, t2: string)
    requires v != "" && RestOf(kind, v + t1) == Some(t1) && Fits(kind, v, t2)
    ensures RestOf(kind, v + t2) == Some(t2)
  {
    hide CombinatorRest, TagRest, MarkedRest, AttrRest, ChildRest, Suffix;
    match kind
    case CombinatorKind => CombinatorSwap(v, t1, t2);
    case TagKind => TagSwap(v, t1, t2);
    case ClassKind => MarkedSwap(v, t1, t2, '.');
    case AttrKind => AttrSwap(v, t1, t2);
    case ChildKind => ChildSwap(v, t1, t2);
    case IdKind => MarkedSwap(v, t1, t2, '#');
  }

  lemma TagSwap(v: string, t1: string, t2: string)
    requires v != "" && TagRest(v + t1) == Some(t1) && Fits(TagKind, v, t2)
    ensures TagRest(v + t2) == Some(t2)
  {
    hide IdentRest, Suffix;
    if v[0] == '*' {
      assert |v| == 1 && (v + t2)[1..] == t2;
    } else {
      IdentifierSwap(v, t1, t2);
    }
  }

  lemma MarkedSwap(v: string, t1: string, t2: string, mark: char)
    requires v != "" && MarkedRest(v + t1, mark) == Some(t1) && EndsIdent(t2)
    ensures MarkedRest(v + t2, mark) == Some(t2)
  {
    hide IdentRest, Suffix;
    assert (v + t1)[1..] == v[1..] + t1 && (v + t2)[1..] == v[1..] + t2;
    assert |v[1..] + t1| > |t1|;
    IdentifierSwap(v[1..], t1, t2);
  }

  // ---------------------------------------------------------------- what a match begins with

  /** The kind of match that a text with this first character can begin with. */
  function KindOf(c: char): Option<Kind> {
    if Blank(c) || CombinatorChar(c) then Some(CombinatorKind)
    else if c == '*' || WordChar(c) || c == '\\' then Some(TagKind)
    else if c == '.' then Some(ClassKind)
    else if c == '[' then Some(AttrKind)
    else if c == ':' then Some(ChildKind)
    else if c == '#' then Some(IdKind)
    else None
  }

  /** At most one of the expressions matches, so the order in which they are tried does not matter. */
  lemma OnlyOneKind(kind: Kind, s: string)
    requires RestOf(kind, s).Some?
    ensures s != "" && KindOf(s[0]) == Some(kind)
  {
    hide Suffix, AttrContentRest, ParenthesisRest, EmptyArgument, Counting, Word, FirstWord;
  }

  /** A text that the tokenizer can go on with. */
  predicate GoesOn(t: string) {
    t == "" || CommaRest(t).Some? || exists kind :: RestOf(kind, t).Some?
  }

  lemma {:induction false} IdentStops(s: string)
    ensures IdentRest(IdentRest(s)) == IdentRest(s)
  {
    hide Suffix, WordChar, Dot;
    if s == "" {
    } else if WordChar(s[0]) {
      IdentStops(s[1..]);
    } else if |s| > 1 && s[0] == '\\' && Dot(s[1]) {
      IdentStops(s[2..]);
    }
  }

  /** A match was as long as possible, so what follows it fits. */
  lemma MatchFits(kind: Kind, v: string, t: string)
    requires v != "" && RestOf(kind, v + t) == Some(t) && GoesOn(t)
    ensures Fits(kind, v, t)
  {
    hide CombinatorRest, TagRest, MarkedRest, AttrRest, ChildRest, Suffix;
    match kind
    case CombinatorKind => CombinatorFits(v, t);
    case TagKind => TagFits(v, t);
    case ClassKind => MarkedFits(v, t, '.');
    case AttrKind =>
    case ChildKind => BeginsRight(t);
    case IdKind => MarkedFits(v, t, '#');
  }

  /** No match and no comma begins with an opening parenthesis. */
  lemma BeginsRight(t: string)
    requires GoesOn(t)
    ensures t == "" || t[0] != '('
    ensures IdentRest(t) == t ==> EndsIdent(t)
  {
    hide Suffix, RestOf;
    if t != "" && CommaRest(t).None? {
      var kind :| RestOf(kind, t).Some?;
      OnlyOneKind(kind, t);
      if t[0] == '\\' {
        TagOrNothing(t);
      }
    }
  }

  lemma TagOrNothing(t: string)
    requires t != "" && t[0] == '\\' && RestOf(TagKind, t).Some?
    ensures IdentRest(t) != t
  {
  }

  lemma TagFits(v: string, t: string)
    requires v != "" && TagRest(v + t) == Some(t) && GoesOn(t)
    ensures Fits(TagKind, v, t)
  {
    hide IdentRest, Suffix, GoesOn;
    if v[0] == '*' {
      assert |v| == 1;
    } else {
      IdentStops(v + t);
      BeginsRight(t);
    }
  }

  lemma MarkedFits(v: string, t: string, mark: char)
    requires v != "" && MarkedRest(v + t, mark) == Some(t) && GoesOn(t)
    ensures EndsIdent(t)
  {
    hide IdentRest, Suffix, GoesOn;
    IdentStops((v + t)[1..]);
    BeginsRight(t);
  }

  lemma CombinatorFits(v: string, t: string)
    requires v != "" && CombinatorRest(v + t) == Some(t)
    ensures Fits(CombinatorKind, v, t)
  {
    hide Skip, Suffix, Blank;
    if SkipBlanks(v) == "" && t != "" && !Blank(t[0]) {
      assert v + "" == v && Cut("", "") + "" == "";
      SkipSwap(v, "", t, Blank);
      assert "" + t == t;
    }
  }
}
