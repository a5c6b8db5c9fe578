/** Compiling a token list right to left keeps the meaning it has left to right. */
module SelectorCompiler {
  import opened Sequences
  import opened Dom
  import opened Selectors

  // ---------------------------------------------------------------- one combinator

  /** A walk succeeds exactly when some visited node that stands in the combinator's relation matches. */
  ghost predicate Reaches(t: Tree, w: Matcher, context: nat, e: nat)
    requires t.Valid() && e < |t.nodes| && w.Walk?
  {
    exists a: nat :: a < |t.nodes| && Reached(t, w, context, a, e)
  }

  ghost predicate Reached(t: Tree, w: Matcher, context: nat, a: nat, e: nat)
    requires t.Valid() && a < |t.nodes| && e < |t.nodes| && w.Walk?
  {
    Related(t, w.combinator, a, e) && Visits(t, w, a) && Eval(t, w.inner, context, a)
  }

  lemma EarlierSiblingStep(t: Tree, e: nat, a: nat)
    requires t.Valid() && e < |t.nodes|
    ensures IsEarlierSibling(t, a, e) <==>
      match Step(t, PreviousSiblingNode, e)
      case None => false
      case Some(p) => a == p || IsEarlierSibling(t, a, p)
  {
    match Step(t, PreviousSiblingNode, e)
    case None =>
    case Some(p) =>
      assert t.LinkedUp(e);
      PositionOfKid(t, t.nodes[e].parent.value, t.Position(e) - 1);
      if t.SameParent(a, e) && t.Position(a) == t.Position(p) {
        SamePosition(t, a, p);
      }
  }

  lemma {:induction false} AncestorWalk(t: Tree, w: Matcher, context: nat, e: nat)
    requires t.Valid() && e < |t.nodes| && w.Walk? && w.combinator == Descendant
    ensures Along(t, w, context, e) <==> Reaches(t, w, context, e)
    decreases e
  {
    match Step(t, ParentNode, e)
    case None =>
    case Some(p) =>
      AncestorWalk(t, w, context, p);
      assert forall a: nat :: a < |t.nodes| ==>
        (Reached(t, w, context, a, e) <==>
          (a == p && Visits(t, w, p) && Eval(t, w.inner, context, p)) || Reached(t, w, context, a, p));
      assert Along(t, w, context, e) == Here(t, w, context, p);
      assert Visits(t, w, p) && Eval(t, w.inner, context, p) ==> Reached(t, w, context, p, e);
  }

  lemma {:induction false} SiblingWalk(t: Tree, w: Matcher, context: nat, e: nat)
    requires t.Valid() && e < |t.nodes| && w.Walk? && w.combinator == Sibling
    ensures Along(t, w, context, e) <==> Reaches(t, w, context, e)
    decreases t.Position(e)
  {
    forall a ensures IsEarlierSibling(t, a, e) <==>
        match Step(t, PreviousSiblingNode, e)
        case None => false
        case Some(p) => a == p || IsEarlierSibling(t, a, p)
    {
      EarlierSiblingStep(t, e, a);
    }
    match Step(t, PreviousSiblingNode, e)
    case None =>
    case Some(p) =>
      SiblingWalk(t, w, context, p);
      assert forall a: nat :: a < |t.nodes| ==>
        (Reached(t, w, context, a, e) <==>
          (a == p && Visits(t, w, p) && Eval(t, w.inner, context, p)) || Reached(t, w, context, a, p));
      assert Along(t, w, context, e) == Here(t, w, context, p);
      assert Visits(t, w, p) && Eval(t, w.inner, context, p) ==> Reached(t, w, context, p, e);
  }

  lemma ParentWalk(t: Tree, w: Matcher, context: nat, e: nat)
    requires t.Valid() && e < |t.nodes| && w.Walk? && w.combinator == Child
    ensures Along(t, w, context, e) <==> Reaches(t, w, context, e)
  {
    match Step(t, ParentNode, e)
    case None =>
    case Some(p) =>
      assert t.LinkedUp(e) && t.LinkedDown(p);
      assert Along(t, w, context, e) == Here(t, w, context, p);
      assert !Visits(t, w, p) ==> Step(t, ParentNode, p) == None;
      assert Reached(t, w, context, p, e) <==> Visits(t, w, p) && Eval(t, w.inner, context, p);
  }

  /** Skipping a sibling that is not an element changes nothing for `+`. */
  lemma AdjacentSkip(t: Tree, e: nat, p: nat, a: nat)
    requires t.Valid() && e < |t.nodes| && Step(t, PreviousSiblingNode, e) == Some(p)
    requires t.IsElement(a)
    ensures t.IsElement(p) ==> (Related(t, Adjacent, a, e) <==> a == p)
    ensures !t.IsElement(p) ==> (Related(t, Adjacent, a, e) <==> Related(t, Adjacent, a, p))
  {
    forall x ensures IsEarlierSibling(t, x, e) <==> x == p || IsEarlierSibling(t, x, p) {
      EarlierSiblingStep(t, e, x);
    }
  }

  lemma {:induction false} ClosestSiblingWalk(t: Tree, w: Matcher, context: nat, e: nat)
    requires t.Valid() && e < |t.nodes| && w.Walk? && w.combinator == Adjacent
    ensures Along(t, w, context, e) <==> Reaches(t, w, context, e)
    decreases t.Position(e)
  {
    match Step(t, PreviousSiblingNode, e)
    case None =>
      forall a ensures !IsEarlierSibling(t, a, e) {
        EarlierSiblingStep(t, e, a);
      }
    case Some(p) =>
      forall a | t.IsElement(a)
        ensures t.IsElement(p) ==> (Related(t, Adjacent, a, e) <==> a == p)
        ensures !t.IsElement(p) ==> (Related(t, Adjacent, a, e) <==> Related(t, Adjacent, a, p))
      {
        AdjacentSkip(t, e, p, a);
      }
      assert Along(t, w, context, e) == Here(t, w, context, p);
      if t.IsElement(p) {
        assert Reached(t, w, context, p, e) <==> Eval(t, w.inner, context, p);
      } else {
        ClosestSiblingWalk(t, w, context, p);
        assert forall a: nat :: a < |t.nodes| ==> (Reached(t, w, context, a, e) <==> Reached(t, w, context, a, p));
      }
  }

  lemma WalkMeaning(t: Tree, w: Matcher, context: nat, e: nat)
    requires t.Valid() && e < |t.nodes| && w.Walk?
    ensures Along(t, w, context, e) <==> Reaches(t, w, context, e)
  {
    match w.combinator
    case Child => ParentWalk(t, w, context, e);
    case Descendant => AncestorWalk(t, w, context, e);
    case Adjacent => ClosestSiblingWalk(t, w, context, e);
    case Sibling => SiblingWalk(t, w, context, e);
  }

  // ---------------------------------------------------------------- one token at a time

  /** Some assignment for the leading combinator and body ends with e. */
  ghost predicate Subject(t: Tree, leading: Option<Combinator>, body: seq<Token>, context: nat, e: nat)
    requires t.Valid()
  {
    exists es :: Assigns(t, leading, body, context, es) && es[|es| - 1] == e
  }

  lemma AssignedElements(t: Tree, leading: Option<Combinator>, body: seq<Token>, context: nat, es: seq<nat>)
    requires t.Valid() && Assigns(t, leading, body, context, es)
    ensures |es| == |Compounds(body)| && forall i :: 0 <= i < |es| ==> t.IsElement(es[i])
  {
  }

  lemma SubjectOfNothing(t: Tree, leading: Option<Combinator>, context: nat, e: nat)
    requires t.Valid() && t.IsElement(e)
    ensures Subject(t, leading, [], context, e) <==> Anchored(t, leading, context, e)
  {
    if Anchored(t, leading, context, e) {
      assert Assigns(t, leading, [], context, [e]);
    }
  }

  /** The compounds and combinators with one token more at the end. */
  lemma OneMoreToken(body: seq<Token>, token: Token)
    ensures token.Relative? ==>
      && Compounds(body + [token]) == Compounds(body) + [[]]
      && Combinators(body + [token]) == Combinators(body) + [token.combinator]
    ensures token.Simple? ==>
      var cs := Compounds(body);
      && Compounds(body + [token]) == cs[..|cs| - 1] + [cs[|cs| - 1] + [token.test]]
      && Combinators(body + [token]) == Combinators(body)
  {
    assert (body + [token])[..|body + [token]| - 1] == body;
  }

  lemma AllHoldOneMore(t: Tree, e: nat, tests: seq<Test>, test: Test)
    requires t.Valid() && e < |t.nodes|
    ensures AllHold(t, e, tests + [test]) <==> AllHold(t, e, tests) && Holds(t, e, test)
  {
    var more := tests + [test];
    assert more[|tests|] == test && forall i :: 0 <= i < |tests| ==> more[i] == tests[i];
  }

  lemma AssignsTest(t: Tree, leading: Option<Combinator>, body: seq<Token>, test: Test, context: nat, es: seq<nat>)
    requires t.Valid() && es != []
    ensures Assigns(t, leading, body + [Simple(test)], context, es) <==>
            Assigns(t, leading, body, context, es) && Holds(t, es[|es| - 1], test)
  {
    hide Tree.Valid, Related, Holds, Anchored, Compounds, Combinators, AllHold;
    var longer := body + [Simple(test)];
    var cs, n := Compounds(body), |Compounds(body)|;
    OneMoreToken(body, Simple(test));
    if |es| == n && (forall i :: 0 <= i < n ==> t.IsElement(es[i])) {
      AllHoldOneMore(t, es[n - 1], cs[n - 1], test);
      assert (forall i :: 0 <= i < n ==> AllHold(t, es[i], Compounds(longer)[i])) <==>
             (forall i :: 0 <= i < n ==> AllHold(t, es[i], cs[i])) && Holds(t, es[n - 1], test);
    }
  }

  lemma SubjectOfTest(t: Tree, leading: Option<Combinator>, body: seq<Token>, test: Test, context: nat, e: nat)
    requires t.Valid() && t.IsElement(e)
    ensures Subject(t, leading, body + [Simple(test)], context, e) <==>
            Subject(t, leading, body, context, e) && Holds(t, e, test)
  {
    hide Tree.Valid, Holds, Assigns;
    if Subject(t, leading, body + [Simple(test)], context, e) {
      var es :| Assigns(t, leading, body + [Simple(test)], context, es) && es[|es| - 1] == e;
      AssignsTest(t, leading, body, test, context, es);
    }
    if Subject(t, leading, body, context, e) && Holds(t, e, test) {
      var es :| Assigns(t, leading, body, context, es) && es[|es| - 1] == e;
      AssignsTest(t, leading, body, test, context, es);
    }
  }

  lemma AssignsCombinator(t: Tree, leading: Option<Combinator>, body: seq<Token>, c: Combinator,
                          context: nat, es: seq<nat>, e: nat)
    requires t.Valid() && es != [] && t.IsElement(e)
    ensures Assigns(t, leading, body + [Relative(c)], context, es + [e]) <==>
            Assigns(t, leading, body, context, es) && Related(t, c, es[|es| - 1], e)
  {
    hide Tree.Valid, Related, Holds, Anchored, Compounds, Combinators;
    var longer := body + [Relative(c)];
    var cs, rs, n, fs := Compounds(body), Combinators(body), |Compounds(body)|, es + [e];
    OneMoreToken(body, Relative(c));
    assert (forall i :: 0 <= i < |fs| ==> t.IsElement(fs[i])) ==>
      forall i :: 0 <= i < |es| ==> fs[i] == es[i] && t.IsElement(es[i]);
    if |es| == n && forall i :: 0 <= i < n ==> t.IsElement(es[i]) {
      assert forall i :: 0 <= i < n ==> fs[i] == es[i] && (cs + [[]])[i] == cs[i];
      assert forall i :: 0 <= i < n - 1 ==> (rs + [c])[i] == rs[i];
      assert (rs + [c])[n - 1] == c && fs[n] == e && AllHold(t, e, []);
    }
  }

  lemma SubjectOfCombinator(t: Tree, leading: Option<Combinator>, body: seq<Token>, c: Combinator, context: nat, e: nat)
    requires t.Valid() && t.IsElement(e)
    ensures Subject(t, leading, body + [Relative(c)], context, e) <==>
            exists a :: t.IsElement(a) && Related(t, c, a, e) && Subject(t, leading, body, context, a)
  {
    hide Tree.Valid, Related, Assigns, Compounds;
    var longer := body + [Relative(c)];
    OneMoreToken(body, Relative(c));
    if Subject(t, leading, longer, context, e) {
      var es :| Assigns(t, leading, longer, context, es) && es[|es| - 1] == e;
      AssignedElements(t, leading, longer, context, es);
      var front := es[..|es| - 1];
      assert es == front + [e];
      AssignsCombinator(t, leading, body, c, context, front, e);
      assert t.IsElement(front[|front| - 1]);
    }
    forall a | t.IsElement(a) && Related(t, c, a, e) && Subject(t, leading, body, context, a)
      ensures Subject(t, leading, longer, context, e)
    {
      var es :| Assigns(t, leading, body, context, es) && es[|es| - 1] == a;
      AssignsCombinator(t, leading, body, c, context, es, e);
    }
  }

  // ---------------------------------------------------------------- the compiler

  /** The conjunction of the closures ms is the meaning of the tokens read so far. */
  ghost predicate Means(ms: seq<Matcher>, leading: Option<Combinator>, body: seq<Token>) {
    forall t: Tree, context: nat, e: nat ::
      t.Valid() && context < |t.nodes| && t.IsElement(e) ==>
        (Eval(t, Every(ms), context, e) <==> Subject(t, leading, body, context, e))
  }

  /** The compiled closure accepts exactly the elements that are subjects of the selector. */
  ghost predicate Compiles(m: Matcher, tokens: seq<Token>) {
    forall t: Tree, context: nat, e: nat ::
      t.Valid() && context < |t.nodes| && t.IsElement(e) ==>
        (Eval(t, m, context, e) <==> Satisfies(t, tokens, context, e))
  }

  function ElementMatcher(ms: seq<Matcher>): Matcher
    requires ms != []
  {
    if |ms| > 1 then Every(ms) else ms[0]
  }

  lemma ElementMatcherEval(t: Tree, ms: seq<Matcher>, context: nat, e: nat)
    requires t.Valid() && e < |t.nodes| && ms != []
    ensures Eval(t, ElementMatcher(ms), context, e) == Eval(t, Every(ms), context, e)
  {
  }

  lemma BaseMeans(leading: Option<Combinator>, name: nat)
    ensures var c := if leading.Some? then leading.value else Descendant;
      Means([Base(leading, Walk(IsContext, c, true, name))], leading, [])
  {
    var w := Walk(IsContext, if leading.Some? then leading.value else Descendant, true, name);
    var b := Base(leading, w);
    forall t: Tree, context: nat, e: nat | t.Valid() && context < |t.nodes| && t.IsElement(e)
      ensures Eval(t, Every([b]), context, e) <==> Subject(t, leading, [], context, e)
    {
      SubjectOfNothing(t, leading, context, e);
      WalkMeaning(t, w, context, e);
      assert Reaches(t, w, context, e) <==> Reached(t, w, context, context, e);
      assert Eval(t, Every([b]), context, e) <==> Eval(t, [b][0], context, e);
      assert Eval(t, w, context, e) == Along(t, w, context, e);
    }
  }

  lemma TestMeans(ms: seq<Matcher>, leading: Option<Combinator>, body: seq<Token>, test: Test)
    requires Means(ms, leading, body)
    ensures Means(ms + [TestMatcher(test)], leading, body + [Simple(test)])
  {
    hide Tree.Valid, Subject, Eval, Holds;
    forall t: Tree, context: nat, e: nat | t.Valid() && context < |t.nodes| && t.IsElement(e)
      ensures Eval(t, Every(ms + [TestMatcher(test)]), context, e) <==>
              Subject(t, leading, body + [Simple(test)], context, e)
    {
      SubjectOfTest(t, leading, body, test, context, e);
      EveryOneMore(t, ms, test, context, e);
    }
  }

  lemma EveryOneMore(t: Tree, ms: seq<Matcher>, test: Test, context: nat, e: nat)
    requires t.Valid() && e < |t.nodes|
    ensures Eval(t, Every(ms + [TestMatcher(test)]), context, e) <==>
            Eval(t, Every(ms), context, e) && Holds(t, e, test)
  {
    hide Tree.Valid, Holds;
    var longer := ms + [TestMatcher(test)];
    assert Eval(t, longer[|ms|], context, e) == Holds(t, e, test);
    assert forall i :: 0 <= i < |ms| ==> longer[i] == ms[i];
  }

  lemma CombinatorMeans(ms: seq<Matcher>, leading: Option<Combinator>, body: seq<Token>, c: Combinator, name: nat)
    requires ms != [] && Means(ms, leading, body)
    ensures Means([Walk(ElementMatcher(ms), c, false, name)], leading, body + [Relative(c)])
  {
    hide Eval, Subject, Tree.Valid, Related;
    var w := Walk(ElementMatcher(ms), c, false, name);
    forall t: Tree, context: nat, e: nat | t.Valid() && context < |t.nodes| && t.IsElement(e)
      ensures Eval(t, Every([w]), context, e) <==> Subject(t, leading, body + [Relative(c)], context, e)
    {
      WalkIsCombinator(t, ms, leading, body, c, name, context, e);
    }
  }

  lemma WalkIsCombinator(t: Tree, ms: seq<Matcher>, leading: Option<Combinator>, body: seq<Token>, c: Combinator,
                         name: nat, context: nat, e: nat)
    requires ms != [] && Means(ms, leading, body) && t.Valid() && context < |t.nodes| && t.IsElement(e)
    ensures Eval(t, Every([Walk(ElementMatcher(ms), c, false, name)]), context, e) <==>
            Subject(t, leading, body + [Relative(c)], context, e)
  {
    hide Subject, Tree.Valid, Related, Along, Eval;
    var w := Walk(ElementMatcher(ms), c, false, name);
    SubjectOfCombinator(t, leading, body, c, context, e);
    WalkMeaning(t, w, context, e);
    OneWalk(t, w, context, e);
    forall a: nat | a < |t.nodes|
      ensures Reached(t, w, context, a, e) <==>
              t.IsElement(a) && Related(t, c, a, e) && Subject(t, leading, body, context, a)
    {
      if t.IsElement(a) {
        ElementMatcherEval(t, ms, context, a);
      }
    }
  }

  lemma OneWalk(t: Tree, w: Matcher, context: nat, e: nat)
    requires t.Valid() && e < |t.nodes| && w.Walk?
    ensures Eval(t, Every([w]), context, e) == Along(t, w, context, e)
  {
    assert Eval(t, Every([w]), context, e) <==> Eval(t, [w][0], context, e);
  }

  /** Every walk closure inside m carries a name of its own: reg says which closure has it. */
  ghost predicate Registered(m: Matcher, reg: map<nat, Matcher>) {
    match m
    case IsContext => true
    case TestMatcher(_) => true
    case Base(_, reach) => Registered(reach, reg)
    case Every(all) => forall i :: 0 <= i < |all| ==> Registered(all[i], reg)
    case Walk(inner, _, base, name) =>
      name in reg && reg[name] == m && (base ==> inner.IsContext?) && Registered(inner, reg)
  }

  lemma BaseRegistered(leading: Option<Combinator>, reach: Matcher, reg: map<nat, Matcher>)
    requires reach.Walk? && reach.inner.IsContext? && reach.name in reg && reg[reach.name] == reach
    ensures Registered(Base(leading, reach), reg)
  {
    assert Registered(reach.inner, reg);
    assert Registered(reach, reg);
  }

  ghost predicate Extends(reg: map<nat, Matcher>, more: map<nat, Matcher>) {
    forall k :: k in reg ==> k in more && more[k] == reg[k]
  }

  lemma {:induction false} RegisteredExtends(m: Matcher, reg: map<nat, Matcher>, more: map<nat, Matcher>)
    requires Registered(m, reg) && Extends(reg, more)
    ensures Registered(m, more)
  {
    match m
    case IsContext =>
    case TestMatcher(_) =>
    case Base(_, reach) => RegisteredExtends(reach, reg, more);
    case Every(all) =>
      forall i | 0 <= i < |all| ensures Registered(all[i], more) {
        RegisteredExtends(all[i], reg, more);
      }
    case Walk(inner, _, _, _) => RegisteredExtends(inner, reg, more);
  }

  /** The closures held when `body` has been read, and the next free name; `done` is the first. */
  function Closures(leading: Option<Combinator>, body: seq<Token>, done: nat): (r: (seq<Matcher>, nat))
    ensures r.0 != []
  {
    if body == [] then
      // The name after this one goes to the variant for several contexts.
      ([Base(leading, Walk(IsContext, if leading.Some? then leading.value else Descendant, true, done))], done + 2)
    else
      var r := Closures(leading, body[..|body| - 1], done);
      match body[|body| - 1]
      case Relative(c) => ([Walk(ElementMatcher(r.0), c, false, r.1)], r.1 + 1)
      case Simple(test) => (r.0 + [TestMatcher(test)], r.1)
  }

  /** The closure of a group. */
  function Closure(tokens: seq<Token>, done: nat): Matcher {
    ElementMatcher(Closures(Leading(tokens), Body(tokens), done).0)
  }

  lemma ClosuresOneMore(leading: Option<Combinator>, body: seq<Token>, token: Token, done: nat)
    ensures var r := Closures(leading, body, done);
      Closures(leading, body + [token], done) ==
      match token
      case Relative(c) => ([Walk(ElementMatcher(r.0), c, false, r.1)], r.1 + 1)
      case Simple(test) => (r.0 + [TestMatcher(test)], r.1)
  {
    assert (body + [token])[..|body|] == body;
  }

  lemma MeansCompiles(ms: seq<Matcher>, tokens: seq<Token>)
    requires ms != [] && Means(ms, Leading(tokens), Body(tokens))
    ensures Compiles(ElementMatcher(ms), tokens)
  {
    hide Eval, Tree.Valid;
    forall t: Tree, context: nat, e: nat | t.Valid() && context < |t.nodes| && t.IsElement(e)
      ensures Eval(t, ElementMatcher(ms), context, e) <==> Satisfies(t, tokens, context, e)
    {
      ElementMatcherEval(t, ms, context, e);
    }
  }

  lemma {:induction false} ClosuresMean(leading: Option<Combinator>, body: seq<Token>, done: nat)
    ensures Means(Closures(leading, body, done).0, leading, body)
    decreases |body|
  {
    hide Means;
    if body == [] {
      BaseMeans(leading, done);
    } else {
      var init, r := body[..|body| - 1], Closures(leading, body[..|body| - 1], done);
      assert body == init + [body[|body| - 1]];
      ClosuresMean(leading, init, done);
      match body[|body| - 1] {
        case Relative(c) => CombinatorMeans(r.0, leading, init, c, r.1);
        case Simple(test) => TestMeans(r.0, leading, init, test);
      }
    }
  }

  /** The closure of a group, whatever the names, means the group. */
  lemma ClosureCompiles(tokens: seq<Token>, done: nat)
    ensures Compiles(Closure(tokens, done), tokens)
  {
    ClosuresMean(Leading(tokens), Body(tokens), done);
    MeansCompiles(Closures(Leading(tokens), Body(tokens), done).0, tokens);
  }

  ghost predicate AllRegistered(ms: seq<Matcher>, reg: map<nat, Matcher>) {
    forall k :: 0 <= k < |ms| ==> Registered(ms[k], reg)
  }

  lemma ExtendsTwice(a: map<nat, Matcher>, b: map<nat, Matcher>, c: map<nat, Matcher>)
    requires Extends(a, b) && Extends(b, c)
    ensures Extends(a, c)
  {
  }

  /** A new walk over the closures so far, under a new name. */
  lemma WalkRegistered(ms: seq<Matcher>, c: Combinator, name: nat, reg: map<nat, Matcher>)
    requires ms != [] && AllRegistered(ms, reg) && forall k :: k in reg ==> k < name
    ensures var w := Walk(ElementMatcher(ms), c, false, name);
      AllRegistered([w], reg[name := w]) && Extends(reg, reg[name := w])
  {
    var w := Walk(ElementMatcher(ms), c, false, name);
    ElementMatcherRegistered(ms, reg);
    RegisteredExtends(ElementMatcher(ms), reg, reg[name := w]);
  }

  lemma ElementMatcherRegistered(ms: seq<Matcher>, reg: map<nat, Matcher>)
    requires ms != [] && AllRegistered(ms, reg)
    ensures Registered(ElementMatcher(ms), reg)
  {
  }

  lemma TestRegistered(ms: seq<Matcher>, test: Test, reg: map<nat, Matcher>)
    requires AllRegistered(ms, reg)
    ensures AllRegistered(ms + [TestMatcher(test)], reg)
  {
  }

  /** Compiles one group; `done` is the counter that names walk closures. */
  method MatcherFromTokens(tokens: seq<Token>, done: nat, ghost reg: map<nat, Matcher>)
    returns (m: Matcher, done': nat, ghost reg': map<nat, Matcher>)
    requires tokens != []
    requires forall k :: k in reg ==> k < done
    ensures Compiles(m, tokens) && m == Closure(tokens, done)
    ensures Extends(reg, reg') && Registered(m, reg')
    ensures done <= done' && forall k :: k in reg' ==> k < done'
  {
    hide Compiles, Tree.Valid;
    ClosureCompiles(tokens, done);
    var leading := Leading(tokens);
    var i := if leading.Some? then 1 else 0;
    var reach := Walk(IsContext, if leading.Some? then leading.value else Descendant, true, done);
    var matchers := [Base(leading, reach)];
    reg', done' := reg[done := reach], done + 2;
    BaseRegistered(leading, reach, reg');
    assert AllRegistered(matchers, reg');
    ghost var skip := i;
    assert tokens[skip..skip] == [];
    assert Extends(reg, reg');
    hide Closures, ElementMatcher, Registered, AllRegistered, Extends;
    while i < |tokens|
      invariant skip <= i <= |tokens|
      invariant (matchers, done') == Closures(leading, tokens[skip..i], done)
      invariant Extends(reg, reg') && AllRegistered(matchers, reg') && matchers != []
      invariant done <= done' && forall k :: k in reg' ==> k < done'
    {
      assert tokens[skip..i + 1] == tokens[skip..i] + [tokens[i]];
      ClosuresOneMore(leading, tokens[skip..i], tokens[i], done);
      match tokens[i] {
        case Relative(c) =>
          var w := Walk(ElementMatcher(matchers), c, false, done');
          WalkRegistered(matchers, c, done', reg');
          ExtendsTwice(reg, reg', reg'[done' := w]);
          matchers, reg', done' := [w], reg'[done' := w], done' + 1;
        case Simple(test) =>
          TestRegistered(matchers, test, reg');
          matchers := matchers + [TestMatcher(test)];
      }
      i := i + 1;
    }
    assert tokens[skip..i] == Body(tokens);
    ElementMatcherRegistered(matchers, reg');
    m := ElementMatcher(matchers);
  }
}
