/**
 Selectors for which remembered positions are tested in a safe order, whatever the document: every compound with a
 `:nth-last-child` test is followed by the same number of `+`, and no `~`, up to the end of its run of sibling
 combinators. For instance when no such compound stands before a sibling combinator at all.
 */
module CarefulSelectors {
  import opened Sequences
  import opened Selectors
  import opened SelectorCompiler
  import opened LastPositions
  import opened Outcomes
  import opened SafeOrder
  import opened QueryPlan

  predicate Quiet(tests: seq<Test>) {
    forall j :: 0 <= j < |tests| ==> !CountsFromLast(tests[j])
  }

  /** How many places before the path compound j is matched, when the last one is matched `last` places before it. */
  function Shift(combinators: seq<Combinator>, j: nat, last: Option<nat>): Option<nat>
    requires j <= |combinators|
    decreases |combinators| - j
  {
    if j == |combinators| then last else Towards(combinators[j], Shift(combinators, j + 1, last))
  }

  /** Compounds with a test of remembered positions are matched k places before the path. */
  ghost predicate CarefulBody(body: seq<Token>, last: Option<nat>, k: Option<nat>) {
    forall j :: 0 <= j < |Compounds(body)| && !Quiet(Compounds(body)[j]) ==>
      Shift(Combinators(body), j, last).Some? && Shift(Combinators(body), j, last) == k
  }

  /** All the groups test k places before the path, if at all. */
  ghost predicate CarefulAt(groups: seq<seq<Token>>, k: Option<nat>) {
    forall g :: 0 <= g < |groups| ==> CarefulBody(Body(groups[g]), Some(0), k)
  }

  ghost predicate Careful(groups: seq<seq<Token>>) {
    exists k :: CarefulAt(groups, k)
  }

  ghost predicate EachTestsAt(ms: seq<Matcher>, i: Option<nat>, k: Option<nat>) {
    forall j :: 0 <= j < |ms| ==> TestsAt(ms[j], i, k)
  }

  lemma {:induction false} ShiftOneMore(combinators: seq<Combinator>, c: Combinator, j: nat, last: Option<nat>)
    requires j <= |combinators|
    ensures Shift(combinators + [c], j, last) == Shift(combinators, j, Towards(c, last))
    decreases |combinators| - j
  {
    if j < |combinators| {
      ShiftOneMore(combinators, c, j + 1, last);
    } else {
      assert Shift(combinators + [c], j + 1, last) == last;
    }
  }

  /** The closures of a careful body test where the body says. */
  lemma {:induction false} ClosuresFit(leading: Option<Combinator>, body: seq<Token>, done: nat,
                                       last: Option<nat>, k: Option<nat>)
    requires CarefulBody(body, last, k)
    ensures EachTestsAt(Closures(leading, body, done).0, last, k)
    decreases |body|
  {
    hide CarefulBody;
    if body == [] {
      var reach := Walk(IsContext, if leading.Some? then leading.value else Descendant, true, done);
      assert TestsAt(reach.inner, Towards(reach.combinator, last), k);
      assert TestsAt(reach, last, k);
    } else {
      var init, token := body[..|body| - 1], body[|body| - 1];
      assert body == init + [token];
      match token {
        case Relative(c) =>
          CarefulBefore(init, c, last, k);
          ClosuresFit(leading, init, done, Towards(c, last), k);
          ElementMatcherFits(Closures(leading, init, done).0, Towards(c, last), k);
        case Simple(test) =>
          CarefulWith(init, test, last, k);
          ClosuresFit(leading, init, done, last, k);
      }
    }
  }

  /** What has been read before a combinator is matched where that leads. */
  lemma CarefulBefore(init: seq<Token>, c: Combinator, last: Option<nat>, k: Option<nat>)
    requires CarefulBody(init + [Relative(c)], last, k)
    ensures CarefulBody(init, Towards(c, last), k)
  {
    var body := init + [Relative(c)];
    OneMoreToken(init, Relative(c));
    forall j | 0 <= j < |Compounds(init)| && !Quiet(Compounds(init)[j])
      ensures Shift(Combinators(init), j, Towards(c, last)).Some? && Shift(Combinators(init), j, Towards(c, last)) == k
    {
      assert Compounds(body)[j] == Compounds(init)[j];
      ShiftOneMore(Combinators(init), c, j, last);
    }
  }

  lemma CarefulWith(init: seq<Token>, test: Test, last: Option<nat>, k: Option<nat>)
    requires CarefulBody(init + [Simple(test)], last, k)
    ensures CarefulBody(init, last, k) && (CountsFromLast(test) ==> last.Some? && last == k)
  {
    var body, cs := init + [Simple(test)], Compounds(init);
    var n := |cs| - 1;
    OneMoreToken(init, Simple(test));
    assert Compounds(body)[n] == cs[n] + [test];
    QuietOneMore(cs[n], test);
    forall j | 0 <= j < |cs| && !Quiet(cs[j])
      ensures Shift(Combinators(init), j, last).Some? && Shift(Combinators(init), j, last) == k
    {
      assert j < n ==> Compounds(body)[j] == cs[j];
      assert !Quiet(Compounds(body)[j]);
    }
    assert Shift(Combinators(body), n, last) == last;
  }

  lemma QuietOneMore(tests: seq<Test>, test: Test)
    ensures Quiet(tests + [test]) <==> Quiet(tests) && !CountsFromLast(test)
  {
    assert (tests + [test])[|tests|] == test;
    assert forall j :: 0 <= j < |tests| ==> (tests + [test])[j] == tests[j];
  }

  lemma ElementMatcherFits(ms: seq<Matcher>, i: Option<nat>, k: Option<nat>)
    requires ms != [] && EachTestsAt(ms, i, k)
    ensures TestsAt(ElementMatcher(ms), i, k)
  {
  }

  /** A careful group compiles to a closure that tests k places before the path only. */
  lemma CarefulClosure(tokens: seq<Token>, done: nat, k: Option<nat>)
    requires CarefulBody(Body(tokens), Some(0), k)
    ensures TestsAt(Closure(tokens, done), Some(0), k)
  {
    ClosuresFit(Leading(tokens), Body(tokens), done, Some(0), k);
    ElementMatcherFits(Closures(Leading(tokens), Body(tokens), done).0, Some(0), k);
  }

  // ---------------------------------------------------------------- names do not matter

  /** Compiling with another counter changes the names only. */
  lemma {:induction false} ClosuresAlike(leading: Option<Combinator>, body: seq<Token>, a: nat, b: nat)
    ensures AllButForNames(Closures(leading, body, a).0, Closures(leading, body, b).0)
    decreases |body|
  {
    if body == [] {
      var c := if leading.Some? then leading.value else Descendant;
      assert ButForNames(Walk(IsContext, c, true, a), Walk(IsContext, c, true, b));
    } else {
      var init := body[..|body| - 1];
      ClosuresAlike(leading, init, a, b);
      match body[|body| - 1] {
        case Relative(_) => ElementMatcherAlike(Closures(leading, init, a).0, Closures(leading, init, b).0);
        case Simple(_) =>
      }
    }
  }

  lemma ElementMatcherAlike(ms: seq<Matcher>, ns: seq<Matcher>)
    requires ms != [] && AllButForNames(ms, ns)
    ensures ButForNames(ElementMatcher(ms), ElementMatcher(ns))
  {
  }

  lemma ClosureAlike(tokens: seq<Token>, a: nat, b: nat)
    ensures ButForNames(Closure(tokens, a), Closure(tokens, b))
  {
    ClosuresAlike(Leading(tokens), Body(tokens), a, b);
    ElementMatcherAlike(Closures(Leading(tokens), Body(tokens), a).0, Closures(Leading(tokens), Body(tokens), b).0);
  }

  // ---------------------------------------------------------------- what the plan takes out

  /** Dropping a test of the last compound changes nothing to the left of it. */
  lemma {:induction false} CompoundsWithout(body: seq<Token>, i: nat)
    requires i < |body| && forall k :: i <= k < |body| ==> body[k].Simple?
    ensures Combinators(Without(body, i)) == Combinators(body)
    ensures var cs, rest := Compounds(body), Compounds(Without(body, i));
      && rest[..|cs| - 1] == cs[..|cs| - 1]
      && (Quiet(cs[|cs| - 1]) ==> Quiet(rest[|cs| - 1]))
    decreases |body|
  {
    var init, last := body[..|body| - 1], body[|body| - 1];
    assert body == init + [last];
    OneMoreToken(init, last);
    var n := |Compounds(init)| - 1;
    assert Compounds(body)[n] == Compounds(init)[n] + [last.test];
    QuietOneMore(Compounds(init)[n], last.test);
    if i == |body| - 1 {
      assert Without(body, i) == init;
    } else {
      CompoundsWithout(init, i);
      assert Without(body, i) == Without(init, i) + [last];
      OneMoreToken(Without(init, i), last);
      var rest := Compounds(Without(init, i));
      assert Compounds(Without(body, i))[n] == rest[n] + [last.test];
      QuietOneMore(rest[n], last.test);
    }
  }

  lemma CarefulWithout(body: seq<Token>, i: nat, k: Option<nat>)
    requires CarefulBody(body, Some(0), k) && i < |body| && forall j :: i <= j < |body| ==> body[j].Simple?
    ensures CarefulBody(Without(body, i), Some(0), k)
  {
    CompoundsWithout(body, i);
    hide Quiet, Compounds, Combinators, Without, Shift;
    var cs, rest := Compounds(body), Compounds(Without(body, i));
    var n := |cs| - 1;
    forall j | 0 <= j < |rest| && !Quiet(rest[j]) ensures !Quiet(cs[j]) {
      if j < n {
        assert rest[j] == rest[..n][j] == cs[..n][j] == cs[j];
      }
    }
  }

  lemma SeedTakenOut(tokens: seq<Token>, i: nat, k: Option<nat>)
    requires CarefulAt([tokens], k) && i < |tokens| && forall j :: i <= j < |tokens| ==> tokens[j].Simple?
    ensures CarefulAt([Without(tokens, i)], k)
  {
    hide CarefulBody;
    var skip := |tokens| - |Body(tokens)|;
    assert Body(Without(tokens, i)) == Without(Body(tokens), i - skip);
    assert CarefulBody(Body([tokens][0]), Some(0), k);
    CarefulWithout(Body(tokens), i - skip, k);
  }

  lemma {:induction false} ShiftBehind(c: Combinator, rest: seq<Combinator>, j: nat, last: Option<nat>)
    requires j <= |rest|
    ensures Shift([c] + rest, j + 1, last) == Shift(rest, j, last)
    decreases |rest| - j
  {
    if j < |rest| {
      ShiftBehind(c, rest, j + 1, last);
    }
  }

  lemma LeadingIdTakenOut(tokens: seq<Token>, k: Option<nat>)
    requires CarefulAt([tokens], k) && LeadsWithId(tokens)
    ensures CarefulAt([tokens[1..]], k)
  {
    var rest := tokens[2..];
    assert tokens[1..][1..] == rest;
    assert CarefulBody(Body([tokens][0]), Some(0), k);
    BehindLeadingId(tokens);
    hide Compounds, Combinators, Quiet;
    forall j | 0 <= j < |Compounds(rest)| && !Quiet(Compounds(rest)[j])
      ensures Shift(Combinators(rest), j, Some(0)).Some? && Shift(Combinators(rest), j, Some(0)) == k
    {
      assert Compounds(tokens)[j + 1] == Compounds(rest)[j];
      ShiftBehind(tokens[1].combinator, Combinators(rest), j, Some(0));
    }
  }
}
