/**
 The loop that splits a selector into groups of tokens, and the printer. An accepted selector is spelled
 by its groups, a printed group is read back as the same tokens, and so is what is left of it when the
 seed token is taken out: the texts that compiled selectors are stored under name them without ambiguity.
 */
module Tokenizer {
  import opened Sequences
  import opened Lexer
  import opened Selectors

  /** toSelector: the texts of the tokens one after the other. */
  function Print(tokens: seq<Lexeme>): string {
    if tokens == [] then "" else tokens[0].value + Print(tokens[1..])
  }

  /** The match at the beginning of a text. */
  function Lex(s: string): (r: Option<Lexeme>)
    ensures r.Some? ==> RestOf(r.value.kind, s).Some? && s == r.value.value + RestOf(r.value.kind, s).value
    ensures r.Some? ==> r.value.value != ""
    ensures r.None? ==> forall kind :: RestOf(kind, s).None?
  {
    hide Suffix, RestOf;
    if s != "" && KindOf(s[0]).Some? && RestOf(KindOf(s[0]).value, s).Some? then
      var kind := KindOf(s[0]).value;
      SplitAtSuffix(RestOf(kind, s).value, s);
      Some(Lexeme(kind, Cut(s, RestOf(kind, s).value)))
    else
      NoMatch(s);
      None
  }

  lemma SplitAtSuffix(r: string, s: string)
    requires Suffix(r, s)
    ensures s == Cut(s, r) + r
  {
  }

  lemma NoMatch(s: string)
    requires s == "" || KindOf(s[0]).None? || RestOf(KindOf(s[0]).value, s).None?
    ensures forall kind :: RestOf(kind, s).None?
  {
    hide RestOf, KindOf, Suffix;
    forall kind ensures RestOf(kind, s).None? {
      if RestOf(kind, s).Some? {
        OnlyOneKind(kind, s);
      }
    }
  }

  /** A match is found by trying any of the expressions. */
  lemma LexIs(kind: Kind, s: string)
    requires RestOf(kind, s).Some?
    ensures Lex(s) == Some(Lexeme(kind, Cut(s, RestOf(kind, s).value)))
  {
    hide RestOf, KindOf, Suffix;
    OnlyOneKind(kind, s);
  }

  // ---------------------------------------------------------------- what the loop computes

  function Prepend(front: seq<seq<Lexeme>>, rest: Option<seq<seq<Lexeme>>>): Option<seq<seq<Lexeme>>> {
    if rest.None? then None else Some(front + rest.value)
  }

  /** The groups of a text that goes on with a group of which the tokens are known. */
  function Groups(s: string, tokens: seq<Lexeme>): Option<seq<seq<Lexeme>>>
    decreases |s|
  {
    if s == "" then Some([tokens])
    else if tokens != [] && CommaRest(s).Some? then
      if CommaRest(s).value == "" then None else Prepend([tokens], Groups(CommaRest(s).value, []))
    else if Lex(s).None? then None
    else Groups(RestOf(Lex(s).value.kind, s).value, tokens + [Lex(s).value])
  }

  /** The groups of a selector; None when it is malformed. */
  function GroupsOf(selector: string): Option<seq<seq<Lexeme>>> {
    if selector == "" then Some([]) else Groups(selector, [])
  }

  /** Where the loop is: the last group is still open. */
  ghost predicate Agrees(selector: string, groups: seq<seq<Lexeme>>, soFar: string) {
    groups != [] && GroupsOf(selector) == Prepend(groups[..|groups| - 1], Groups(soFar, groups[|groups| - 1]))
  }

  /** A comma at the end is not consumed, and nothing ever consumes it. */
  ghost predicate Stuck(selector: string, soFar: string) {
    GroupsOf(selector) == None && CommaRest(soFar) == Some("")
  }

  /** The expressions that are not combinators, in the order in which they are tried. */
  const FILTERS: seq<Kind> := [TagKind, ClassKind, AttrKind, ChildKind, IdKind]

  function Push(groups: seq<seq<Lexeme>>, token: Lexeme): seq<seq<Lexeme>>
    requires groups != []
  {
    groups[|groups| - 1 := groups[|groups| - 1] + [token]]
  }

  lemma PushAgrees(selector: string, groups: seq<seq<Lexeme>>, soFar: string, kind: Kind)
    requires groups != [] && RestOf(kind, soFar).Some?
    requires Agrees(selector, groups, soFar)
    requires CommaRest(soFar).None? || groups[|groups| - 1] == []
    ensures var rest := RestOf(kind, soFar).value;
      Agrees(selector, Push(groups, Lexeme(kind, Cut(soFar, rest))), rest)
  {
    hide RestOf, CommaRest, GroupsOf, Suffix, Lex;
    LexIs(kind, soFar);
    OnlyOneKind(kind, soFar);
    var last := groups[|groups| - 1];
    var grown := Push(groups, Lexeme(kind, Cut(soFar, RestOf(kind, soFar).value)));
    assert grown[..|groups| - 1] == groups[..|groups| - 1];
    assert Groups(soFar, last) == Groups(RestOf(kind, soFar).value, grown[|groups| - 1]);
  }

  lemma CommaAgrees(selector: string, groups: seq<seq<Lexeme>>, soFar: string)
    requires Agrees(selector, groups, soFar) && CommaRest(soFar).Some? && groups[|groups| - 1] != []
    ensures var rest := CommaRest(soFar).value;
      if rest == "" then Stuck(selector, soFar) else Agrees(selector, groups + [[]], rest)
  {
    hide GroupsOf, CommaRest, Suffix, Lex, RestOf;
    var rest, n := CommaRest(soFar).value, |groups|;
    assert (groups + [[]])[..n] == groups[..n - 1] + [groups[n - 1]] && (groups + [[]])[n] == [];
    if rest != "" && Groups(rest, []).Some? {
      var later := Groups(rest, []).value;
      assert groups[..n - 1] + ([groups[n - 1]] + later) == (groups + [[]])[..n] + later;
    }
  }

  /** The one match that is possible in front of a comma is of the blanks. */
  lemma AtComma(kind: Kind, s: string)
    requires CommaRest(s).Some? && RestOf(kind, s).Some?
    ensures kind == CombinatorKind && CommaRest(RestOf(kind, s).value) == CommaRest(s)
  {
    hide Skip, Suffix, AttrRest, ChildRest;
    OnlyOneKind(kind, s);
    var b := SkipBlanks(s);
    SkipTwice(s);
    BlankOrSame(s);
  }

  lemma {:induction false} SkipTwice(s: string)
    ensures SkipBlanks(SkipBlanks(s)) == SkipBlanks(s)
  {
    hide Suffix;
    if s != "" && Blank(s[0]) {
      SkipTwice(s[1..]);
    }
  }

  /** What holds between two steps of the loop body. */
  ghost predicate InStep(selector: string, groups: seq<seq<Lexeme>>, soFar: string, matched: string) {
    && groups != []
    && (Stuck(selector, soFar) || Agrees(selector, groups, soFar))
    && (matched != "" && !Stuck(selector, soFar) ==> groups[|groups| - 1] != [])
  }

  lemma StepPushes(selector: string, groups: seq<seq<Lexeme>>, soFar: string, matched: string, kind: Kind)
    requires InStep(selector, groups, soFar, matched) && RestOf(kind, soFar).Some?
    requires kind == CombinatorKind ==>
      Stuck(selector, soFar) || CommaRest(soFar).None? || groups[|groups| - 1] == []
    ensures var rest := RestOf(kind, soFar).value;
      var value := Cut(soFar, rest);
      value != "" && |rest| < |soFar| && InStep(selector, Push(groups, Lexeme(kind, value)), rest, value)
  {
    hide RestOf, CommaRest, GroupsOf, Suffix, Agrees;
    if Stuck(selector, soFar) {
      AtComma(kind, soFar);
    } else {
      if CommaRest(soFar).Some? {
        AtComma(kind, soFar);
      }
      PushAgrees(selector, groups, soFar, kind);
    }
  }

  lemma StepFails(selector: string, groups: seq<seq<Lexeme>>, soFar: string, matched: string)
    requires InStep(selector, groups, soFar, matched) && soFar != ""
    requires Stuck(selector, soFar) || CommaRest(soFar).None? || groups[|groups| - 1] == []
    requires RestOf(CombinatorKind, soFar).None? && forall kind :: kind in FILTERS ==> RestOf(kind, soFar).None?
    ensures GroupsOf(selector) == None
  {
    hide RestOf, CommaRest, GroupsOf, Suffix;
    assert FILTERS[0] in FILTERS && FILTERS[1] in FILTERS && FILTERS[2] in FILTERS;
    assert FILTERS[3] in FILTERS && FILTERS[4] in FILTERS;
    forall kind ensures RestOf(kind, soFar).None? {
      assert kind == CombinatorKind || kind in FILTERS;
    }
    assert Lex(soFar).None?;
  }

  lemma FirstStep(selector: string)
    requires selector != ""
    ensures InStep(selector, [[]], selector, "")
  {
    hide Groups;
    var groups: seq<seq<Lexeme>> := [[]];
    assert groups[..0] == [];
    if Groups(selector, []).Some? {
      assert groups[..0] + Groups(selector, []).value == Groups(selector, []).value;
    }
  }

  lemma CommaStep(selector: string, groups: seq<seq<Lexeme>>, soFar: string, matched: string)
    requires matched != "" && InStep(selector, groups, soFar, matched) && CommaRest(soFar).Some?
    ensures var rest := CommaRest(soFar).value;
      InStep(selector, groups + [[]], if rest != "" then rest else soFar, "")
  {
    hide CommaRest, GroupsOf, Suffix, Agrees;
    if !Stuck(selector, soFar) {
      CommaAgrees(selector, groups, soFar);
    }
  }

  lemma NotStuckAtEnd(selector: string)
    ensures !Stuck(selector, "")
  {
  }

  lemma Finished(selector: string, groups: seq<seq<Lexeme>>, matched: string)
    requires if matched == "" then selector == "" && groups == [] else InStep(selector, groups, "", matched)
    ensures GroupsOf(selector) == Some(groups)
  {
    hide Lex, CommaRest, RestOf, Stuck;
    if matched != "" {
      NotStuckAtEnd(selector);
      assert groups[..|groups| - 1] + [groups[|groups| - 1]] == groups;
    }
  }

  /** tokenize: the groups, or None where the source reports an error. */
  method Tokenize(selector: string) returns (result: Option<seq<seq<Lexeme>>>)
    ensures result == GroupsOf(selector)
  {
    hide RestOf, CommaRest, GroupsOf, Suffix, Agrees, Stuck;
    var soFar, matched := selector, "";
    var groups: seq<seq<Lexeme>> := [];
    while soFar != ""
      invariant matched == "" ==> soFar == selector && groups == []
      invariant matched != "" ==> InStep(selector, groups, soFar, matched)
      decreases |soFar|
    {
      if matched == "" || CommaRest(soFar).Some? {
        if matched != "" {
          CommaStep(selector, groups, soFar, matched);
          soFar := if CommaRest(soFar).value != "" then CommaRest(soFar).value else soFar;
        } else {
          FirstStep(selector);
          assert groups + [[]] == [[]];
        }
        groups := groups + [[]];
      }
      matched := "";
      ghost var start := soFar;
      if RestOf(CombinatorKind, soFar).Some? {
        StepPushes(selector, groups, soFar, matched, CombinatorKind);
        var rest := RestOf(CombinatorKind, soFar).value;
        matched := Cut(soFar, rest);
        groups := Push(groups, Lexeme(CombinatorKind, matched));
        soFar := rest;
      }
      for i := 0 to |FILTERS|
        invariant InStep(selector, groups, soFar, matched)
        invariant matched != "" ==> |soFar| < |start|
        invariant matched == "" ==> CommaRest(soFar).None? || groups[|groups| - 1] == []
        invariant matched == "" ==> soFar == start && RestOf(CombinatorKind, soFar).None?
        invariant matched == "" ==> forall kind :: kind in FILTERS[..i] ==> RestOf(kind, soFar).None?
      {
        if RestOf(FILTERS[i], soFar).Some? {
          StepPushes(selector, groups, soFar, matched, FILTERS[i]);
          var rest := RestOf(FILTERS[i], soFar).value;
          matched := Cut(soFar, rest);
          groups := Push(groups, Lexeme(FILTERS[i], matched));
          soFar := rest;
        }
      }
      if matched == "" {
        StepFails(selector, groups, soFar, matched);
        return None;
      }
    }
    Finished(selector, groups, matched);
    return Some(groups);
  }

  /** toSelector. */
  method ToSelector(tokens: seq<Lexeme>) returns (selector: string)
    ensures selector == Print(tokens)
  {
    selector := "";
    for i := 0 to |tokens|
      invariant selector + Print(tokens[i..]) == Print(tokens)
    {
      assert tokens[i..][1..] == tokens[i + 1..];
      var rest := Print(tokens[i + 1..]);
      assert selector + (tokens[i].value + rest) == (selector + tokens[i].value) + rest;
      selector := selector + tokens[i].value;
    }
  }

  // ---------------------------------------------------------------- what is accepted

  /** The groups' texts, with exactly what the comma expression consumes between them, make up the text. */
  predicate Spelled(s: string, groups: seq<seq<Lexeme>>)
    decreases |groups|
  {
    if groups == [] then s == ""
    else
      && Print(groups[0]) <= s
      && var t := s[|Print(groups[0])|..];
      if |groups| == 1 then t == ""
      else CommaRest(t).Some? && CommaRest(t).value != "" && Spelled(CommaRest(t).value, groups[1..])
  }

  /** Every token is a whole match by itself, and none is prolonged by what follows it. */
  predicate WellFormed(tokens: seq<Lexeme>) {
    tokens != [] ==>
    && tokens[0].value != ""
    && RestOf(tokens[0].kind, tokens[0].value) == Some("")
    && Fits(tokens[0].kind, tokens[0].value, Print(tokens[1..]))
    && WellFormed(tokens[1..])
  }

  lemma SpelledPush(x: Lexeme, s: string, group: seq<Lexeme>, later: seq<seq<Lexeme>>)
    requires Spelled(s, [group] + later)
    ensures Spelled(x.value + s, [[x] + group] + later)
  {
    hide CommaRest, Suffix;
    var p := Print(group);
    assert ([x] + group)[1..] == group;
    assert Print([x] + group) == x.value + p;
    assert (x.value + s)[|x.value + p|..] == s[|p|..];
    assert ([group] + later)[1..] == later == ([[x] + group] + later)[1..];
  }

  /** A token that was read in front of a text that goes on is well-formed in front of the tokens read later. */
  lemma ReadIsWellFormed(x: Lexeme, s: string, more: seq<Lexeme>)
    requires x.value != "" && RestOf(x.kind, x.value + s) == Some(s) && GoesOn(s)
    requires Print(more) <= s && WellFormed(more)
    ensures WellFormed([x] + more)
  {
    hide RestOf, GoesOn, Suffix, SkipBlanks;
    MatchIsLocal(x.kind, x.value, s, "");
    assert x.value + "" == x.value;
    MatchFits(x.kind, x.value, s);
    assert ([x] + more)[1..] == more;
  }

  lemma {:induction false} GroupsAreSpelled(s: string, tokens: seq<Lexeme>)
    requires Groups(s, tokens).Some?
    ensures var groups := Groups(s, tokens).value;
      && groups != [] && tokens <= groups[0] && (tokens == [] && s != "" ==> groups[0] != [])
      && WellFormed(groups[0][|tokens|..])
      && Spelled(s, [groups[0][|tokens|..]] + groups[1..])
      && forall i :: 1 <= i < |groups| ==> groups[i] != [] && WellFormed(groups[i])
    decreases |s|
  {
    hide RestOf, CommaRest, Suffix, Lex, Fits;
    var groups := Groups(s, tokens).value;
    if s == "" {
      assert [groups[0][|tokens|..]] + groups[1..] == [[]];
    } else if tokens != [] && CommaRest(s).Some? {
      var rest := CommaRest(s).value;
      GroupsAreSpelled(rest, []);
      var later := Groups(rest, []).value;
      assert [later[0][0..]] + later[1..] == later && later[0][0..] == later[0];
      assert groups == [tokens] + later && groups[1..] == later;
      assert groups[0][|tokens|..] == [] && s[0..] == s;
      assert ([[]] + later)[1..] == later;
    } else {
      var x := Lex(s).value;
      var rest := RestOf(x.kind, s).value;
      GroupsAreSpelled(rest, tokens + [x]);
      var more := groups[0][|tokens| + 1..];
      assert groups[0][|tokens|..] == [x] + more;
      GroupsGoOn(rest, tokens + [x]);
      ReadIsWellFormed(x, rest, more);
      SpelledPush(x, rest, more, groups[1..]);
    }
  }

  lemma GroupsGoOn(s: string, tokens: seq<Lexeme>)
    requires Groups(s, tokens).Some?
    ensures GoesOn(s)
  {
    hide RestOf, CommaRest, Suffix;
  }

  /** An accepted selector is spelled by its groups, which are not empty and well-formed. */
  lemma AcceptedIsSpelled(selector: string)
    requires GroupsOf(selector).Some?
    ensures Spelled(selector, GroupsOf(selector).value)
    ensures forall group :: group in GroupsOf(selector).value ==> group != [] && WellFormed(group)
  {
    hide Groups, WellFormed;
    if selector != "" {
      GroupsAreSpelled(selector, []);
      var groups := Groups(selector, []).value;
      assert groups[0][0..] == groups[0] && [groups[0]] + groups[1..] == groups;
    }
  }

  // ---------------------------------------------------------------- what is read back

  lemma PrintedMatch(tokens: seq<Lexeme>)
    requires tokens != [] && WellFormed(tokens)
    ensures RestOf(tokens[0].kind, Print(tokens)) == Some(Print(tokens[1..]))
  {
    hide RestOf, Fits, Suffix;
    var v := tokens[0].value;
    assert v + "" == v;
    MatchIsLocal(tokens[0].kind, v, "", Print(tokens[1..]));
  }

  /** No printed group can be taken for one that begins with a comma. */
  lemma {:induction false} PrintsNoComma(tokens: seq<Lexeme>)
    requires WellFormed(tokens)
    ensures CommaRest(Print(tokens)).None?
  {
    hide RestOf, CommaRest, Fits, Suffix;
    if tokens == [] {
      NoCommaInNothing();
    } else {
      PrintsNoComma(tokens[1..]);
      PrintedMatch(tokens);
      if CommaRest(Print(tokens)).Some? {
        AtComma(tokens[0].kind, Print(tokens));
      }
    }
  }

  lemma NoCommaInNothing()
    ensures CommaRest("").None?
  {
  }

  lemma {:induction false} ReadBack(tokens: seq<Lexeme>, done: seq<Lexeme>)
    requires WellFormed(tokens)
    ensures Groups(Print(tokens), done) == Some([done + tokens])
    decreases |tokens|
  {
    hide RestOf, CommaRest, Fits, Suffix, Lex;
    if tokens == [] {
      assert done + tokens == done;
    } else {
      var s, rest := Print(tokens), Print(tokens[1..]);
      PrintedMatch(tokens);
      PrintsNoComma(tokens);
      LexIs(tokens[0].kind, s);
      assert Cut(s, rest) == tokens[0].value;
      assert Lex(s) == Some(tokens[0]);
      ReadBack(tokens[1..], done + [tokens[0]]);
      assert done + [tokens[0]] + tokens[1..] == done + tokens;
    }
  }

  /** Tokenizing and printing undo each other, on exactly the well-formed groups. */
  lemma TokenizePrintInverse(selector: string, group: seq<Lexeme>)
    ensures GroupsOf(selector) == Some([group]) <==> group != [] && WellFormed(group) && selector == Print(group)
  {
    hide Groups, WellFormed;
    if group != [] && WellFormed(group) && selector == Print(group) {
      ReadBack(group, []);
      PrintsSomething(group);
      assert [] + group == group;
    }
    if GroupsOf(selector) == Some([group]) {
      AcceptedIsSpelled(selector);
      assert group in [group];
      assert selector == selector[..|Print(group)|] + selector[|Print(group)|..];
    }
  }

  lemma PrintsSomething(tokens: seq<Lexeme>)
    requires tokens != [] && WellFormed(tokens)
    ensures Print(tokens) != ""
  {
  }

  /** The text a group is stored under names its tokens. */
  lemma PrintNamesTokens(a: seq<Lexeme>, b: seq<Lexeme>)
    requires a != [] && b != [] && WellFormed(a) && WellFormed(b) && Print(a) == Print(b)
    ensures a == b
  {
    hide Groups, WellFormed;
    TokenizePrintInverse(Print(a), a);
    TokenizePrintInverse(Print(b), b);
  }

  // ---------------------------------------------------------------- taking the seed token out

  lemma {:induction false} WithoutFits(kind: Kind, v: string, tokens: seq<Lexeme>, i: nat)
    requires i < |tokens| && WellFormed(tokens) && Fits(kind, v, Print(tokens))
    requires i + 1 < |tokens| ==> tokens[i + 1].kind !in {CombinatorKind, TagKind}
    ensures Fits(kind, v, Print(tokens[..i] + tokens[i + 1..]))
  {
    hide RestOf, Suffix, SkipBlanks;
    var left := tokens[..i] + tokens[i + 1..];
    if left != [] {
      if i > 0 {
        assert left[0] == tokens[0];
      } else {
        assert left == tokens[1..];
        PrintedMatch(left);
        OnlyOneKind(left[0].kind, Print(left));
      }
    }
  }

  /** Without its seed a group is still well-formed: nothing after the seed begins with a name or a combinator. */
  lemma {:induction false} SeedTakenOut(tokens: seq<Lexeme>, i: nat)
    requires i < |tokens| && WellFormed(tokens)
    requires forall j :: i < j < |tokens| ==> tokens[j].kind !in {CombinatorKind, TagKind}
    ensures WellFormed(tokens[..i] + tokens[i + 1..])
  {
    hide RestOf, Suffix, Fits;
    var left := tokens[..i] + tokens[i + 1..];
    if i == 0 {
      assert left == tokens[1..];
    } else {
      SeedTakenOut(tokens[1..], i - 1);
      WithoutFits(tokens[0].kind, tokens[0].value, tokens[1..], i - 1);
      assert left[1..] == tokens[1..][..i - 1] + tokens[1..][i..];
      assert left[0] == tokens[0];
    }
  }

  /** What is left of a group when the seed is gone is stored under a text that is read as just that. */
  lemma SplicedTextIsRead(selector: string, group: seq<Lexeme>, i: nat)
    requires GroupsOf(selector) == Some([group]) && i < |group| && |group| > 1
    requires forall j :: i < j < |group| ==> group[j].kind !in {CombinatorKind, TagKind}
    ensures var left := group[..i] + group[i + 1..];
      GroupsOf(Print(left)) == Some([left])
  {
    hide WellFormed;
    TokenizePrintInverse(selector, group);
    SeedTakenOut(group, i);
    var left := group[..i] + group[i + 1..];
    TokenizePrintInverse(Print(left), left);
  }

  /** A leading id and its combinator are dropped by cutting the text, which leaves the text of the rest. */
  lemma LeadingTokenCut(selector: string, group: seq<Lexeme>)
    requires GroupsOf(selector) == Some([group]) && |group| > 1
    ensures |group[0].value| <= |selector|
    ensures GroupsOf(selector[|group[0].value|..]) == Some([group[1..]])
  {
    TokenizePrintInverse(selector, group);
    assert selector[|group[0].value|..] == Print(group[1..]);
    TokenizePrintInverse(Print(group[1..]), group[1..]);
  }
}
