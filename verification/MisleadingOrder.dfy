/**
 Selectors whose answers depend on the order of tests: with children a and b of one element, testing b for its
 position from the last leaves position 1 on a, which is really at position 2.
 */
module MisleadingOrder {
  import opened Sequences
  import opened Dom
  import opened Selectors
  import opened SelectorCompiler
  import opened QueryPlan
  import opened ScanRange
  import opened LastPositions
  import opened Outcomes
  import opened PositionScans
  import opened QueryRuns
  import opened Engine

  /** A document with one element, the parent of a and b. */
  function Rows(): Tree {
    Tree([Node(Document, None, [1], "#document", None, {}, map[]),
          Node(Element, Some(0), [2, 3], "div", None, {}, map[]),
          Node(Element, Some(1), [], "a", None, {}, map[]),
          Node(Element, Some(1), [], "b", None, {}, map[])], 0)
  }

  /** `:nth-last-child(n)` */
  function FromLast(n: nat): Test {
    ChildTest(NthLast, false, 0, n)
  }

  /** `a:nth-last-child(n) + b:nth-last-child(1)` */
  function AThenB(n: nat): seq<Token> {
    [Simple(Tag("a")), Simple(FromLast(n)), Relative(Adjacent), Simple(Tag("b")), Simple(FromLast(1))]
  }

  lemma RowsValid()
    ensures Rows().Valid()
    ensures Rows().Position(2) == 0 && Rows().Position(3) == 1
    ensures Rows().PreviousSibling(3) == Some(2)
  {
    var t := Rows();
    assert t.LinkedUp(0) && t.LinkedDown(0) && t.LinkedUp(1) && t.LinkedDown(1);
    assert t.LinkedUp(2) && t.LinkedDown(2) && t.LinkedUp(3) && t.LinkedDown(3);
    assert t.nodes[1].kids[0] == 2 && t.nodes[1].kids[1] == 3;
    SiblingLinks(t, 1, 0);
    SiblingLinks(t, 1, 1);
  }

  lemma InProgressionOfOne(n: nat, index: nat)
    ensures InProgression(0, n, index) <==> n == index
  {
    assert 0 * 0 + n == n;
  }

  /** Positions from the last: 2 for a and 1 for b; after a test of b, 1 for a too. */
  lemma FirstTestMisleads(n: nat)
    ensures var t := Rows();
      && t.Valid()
      && (Holds(t, 2, FromLast(n)) <==> n == 2)
      && (Holds(t, 3, FromLast(n)) <==> n == 1)
      && PivotsRight(t, map[1 := 3])
      && Tested(t, 3, FromLast(1), map[]) == map[1 := 3] && HoldsIn(t, 3, FromLast(1), map[])
      && (HoldsIn(t, 2, FromLast(n), map[1 := 3]) <==> n == 1)
  {
    var t := Rows();
    RowsValid();
    var ks := Siblings(t, 2);
    assert ks == [2, 3] && ks[0..] == ks && ks[1..] == [3] && ks[0..1] == [2];
    assert [2, 3][..1] == [2] && [2][..0] == [] && [3][..0] == [];
    assert Count(t, 2, false, [2]) == 1 && Count(t, 3, false, [3]) == 1 && Count(t, 2, false, [2, 3]) == 2;
    InProgressionOfOne(n, 1);
    InProgressionOfOne(n, 2);
    InProgressionOfOne(1, 1);
  }

  /** The selector selects b exactly when a's number is 2. */
  lemma SelectsB(n: nat)
    ensures var t := Rows(); t.Valid() && (Selected(t, [AThenB(n)], 0, 3) <==> n == 2)
  {
    hide Subject, Tree.Valid, Holds, HoldsIn;
    var t, tokens := Rows(), AThenB(n);
    FirstTestMisleads(n);
    FirstTestMisleads(1);
    RowsValid();
    assert [tokens][0] == tokens && Leading(tokens) == None && Body(tokens) == tokens;
    assert tokens == tokens[..4] + [tokens[4]] && tokens[..4] == tokens[..3] + [tokens[3]];
    assert tokens[..3] == tokens[..2] + [tokens[2]] && tokens[..2] == [tokens[0]] + [tokens[1]];
    assert [] + [tokens[0]] == [tokens[0]];
    SubjectOfTest(t, None, tokens[..4], FromLast(1), 0, 3);
    SubjectOfTest(t, None, tokens[..3], Tag("b"), 0, 3);
    SubjectOfCombinator(t, None, tokens[..2], Adjacent, 0, 3);
    SubjectOfTest(t, None, [tokens[0]], FromLast(n), 0, 2);
    SubjectOfTest(t, None, [], Tag("a"), 0, 2);
    SubjectOfNothing(t, None, 0, 2);
    BesideB();
    assert Satisfies(t, tokens, 0, 3) <==> Subject(t, None, tokens, 0, 3) by { SatisfiesIsSubject(t, tokens, 0, 3); }
  }

  lemma SatisfiesIsSubject(t: Tree, tokens: seq<Token>, context: nat, e: nat)
    requires t.Valid()
    ensures Satisfies(t, tokens, context, e) <==> Subject(t, Leading(tokens), Body(tokens), context, e)
  {
  }

  /** a is the element directly before b. */
  lemma BesideB()
    ensures var t := Rows();
      && t.Valid() && Holds(t, 2, Tag("a")) && Holds(t, 3, Tag("b")) && Anchored(t, None, 0, 2)
      && forall a :: t.IsElement(a) && Related(t, Adjacent, a, 3) <==> a == 2
  {
    RowsValid();
  }

  /** What is left of the selector when b has been looked up. */
  function Rest(n: nat): seq<Token> {
    [Simple(Tag("a")), Simple(FromLast(n)), Relative(Adjacent), Simple(FromLast(1))]
  }

  /** The closure of what leads up to the combinator. */
  function Front(n: nat, done: nat): Matcher {
    Every([Base(None, Walk(IsContext, Descendant, true, done)), TestMatcher(Tag("a")), TestMatcher(FromLast(n))])
  }

  function StepToFront(n: nat, done: nat): Matcher {
    Walk(Front(n, done), Adjacent, false, done + 2)
  }

  lemma RestLeft(n: nat, done: nat)
    ensures Without(AThenB(n), 3) == Rest(n)
    ensures Closure(Rest(n), done) == Every([StepToFront(n, done), TestMatcher(FromLast(1))])
  {
    var r := Rest(n);
    assert r[..3] == [r[0], r[1], r[2]] && r[..3][..2] == [r[0], r[1]];
    assert [r[0], r[1]][..1] == [r[0]] && [r[0]][..0] == [];
    var reach := Base(None, Walk(IsContext, Descendant, true, done));
    assert Closures(None, [], done).0 == [reach];
    assert Closures(None, [r[0]], done).0 == [reach, TestMatcher(Tag("a"))];
    assert Closures(None, [r[0], r[1]], done).0 == [reach, TestMatcher(Tag("a")), TestMatcher(FromLast(n))];
    assert Closures(None, r[..3], done).0 == [StepToFront(n, done)];
  }

  /** After the test of b, what leads up to the combinator accepts a exactly when a's number is 1. */
  lemma FrontOutcome(n: nat, done: nat)
    ensures Rows().Valid() && PivotsRight(Rows(), map[1 := 3])
    ensures Outcome(Rows(), Front(n, done), 0, 2, map[1 := 3]).0 == (n == 1)
  {
    hide Tree.Valid, HoldsIn;
    var t, front, after: Pivots := Rows(), Front(n, done), map[1 := 3];
    FirstTestMisleads(n);
    BesideB();
    assert Tested(t, 2, FromLast(n), after) == after;
    assert Outcome(t, front.all[2], 0, 2, after) == (n == 1, after);
    PlainTest(t, 2, Tag("a"), after);
    assert Outcome(t, front.all[1], 0, 2, after) == (true, after);
    assert Outcome(t, front.all[0], 0, 2, after) == (true, after);
    assert OutcomeOfAll(t, front, 1, 0, 2, after) == (true, after);
    assert OutcomeOfAll(t, front, 2, 0, 2, after) == (true, after);
  }

  /** With the test of b made first, the closure accepts b exactly when a's number is 1. */
  lemma ClosureMisled(n: nat, done: nat)
    ensures var t, m := Rows(), Every([StepToFront(n, done), TestMatcher(FromLast(1))]);
      t.Valid() && Outcome(t, m, 0, 3, map[]).0 == (n == 1)
  {
    hide Tree.Valid, HoldsIn, Tested, Front;
    var t, after: Pivots := Rows(), map[1 := 3];
    var m := Every([StepToFront(n, done), TestMatcher(FromLast(1))]);
    var walk := m.all[0];
    RowsValid();
    FirstTestMisleads(n);
    FirstTestMisleads(1);
    FrontOutcome(n, done);
    assert Step(t, PreviousSiblingNode, 3) == Some(2);
    hide Step;
    assert Outcome(t, m.all[1], 0, 3, map[]) == (true, after);
    assert Outcome(t, walk, 0, 3, after) == OutcomeHere(t, walk, 0, 2, after);
    assert OutcomeHere(t, walk, 0, 2, after) == Outcome(t, Front(n, done), 0, 2, after);
    assert OutcomeOfAll(t, m, 1, 0, 3, after).0 == (n == 1);
  }

  lemma RowsListed()
    ensures Rows().Valid() && Rows().Descendants(0) == [1, 2, 3]
  {
    var t := Rows();
    RowsValid();
    hide Tree.Valid;
    assert t.Preorder(2) == [2] && t.Preorder(3) == [3];
    assert t.PreorderAll(1, [3]) == [3] && t.PreorderAll(1, [2, 3]) == [2, 3] && t.Preorder(1) == [1, 2, 3];
    assert t.PreorderAll(0, [1]) == [1, 2, 3] && t.Preorder(0) == [0, 1, 2, 3];
  }

  /** Only b is looked up, for every number. */
  lemma SeedIsB(n: nat)
    ensures var t, tokens := Rows(), AThenB(n);
      && t.Valid() && SeedIndex(t, [tokens], 0, false) == Some(3) && Find(t, Tag("b"), 0) == Some([3])
      && !StartsAtId(t, [tokens], 0)
  {
    hide Tree.Valid, Tree.Descendants;
    var t, tokens := Rows(), AThenB(n);
    RowsListed();
    var p := (e: nat) => LooksUp(t, Tag("b"), e);
    assert [1, 2, 3][1..] == [2, 3] && [2, 3][1..] == [3] && [3][1..] == [];
    assert Filter([3], p) == [3] && Filter([2, 3], p) == [3] && Filter([1, 2, 3], p) == [3];
    assert Find(t, Tag("b"), 0) == Some([3]) && Find(t, FromLast(1), 0) == None;
    hide Find;
    assert SeedBefore(t, tokens, 0, 4) == Some(3) && SeedBefore(t, tokens, 0, 5) == Some(3);
    RestLeft(n, 0);
  }

  /**
   Selecting `a:nth-last-child(n) + b:nth-last-child(1)`: the full scan has b exactly when n is 2, but the code
   returns b exactly when n is 1.
   */
  method SelectsWrongly(n: nat) returns (results: seq<nat>)
    ensures var t, groups := Rows(), [AThenB(n)];
      && t.Valid() && (forall id :: UniqueId(t, 0, id))
      && (3 in FullScan(t, groups, 0) <==> n == 2)
      && results == if n == 1 then [3] else []
  {
    hide Tree.Valid, Selected, FullScan, UniqueId, QueryRun;
    var t, groups := Rows(), [AThenB(n)];
    RowsValid();
    SelectsB(n);
    ScanMembers(t, groups, 0, 3);
    NoIds();
    RunMisled(n);
    var engine := new Engine(t);
    results := engine.Select(groups, 0, false, true);
  }

  /** Without caches on the nodes too, the run returns b exactly when n is 1. */
  lemma RunMisled(n: nat)
    ensures Rows().Valid() && QueryRun(Rows(), [AThenB(n)], 0, false, true) == if n == 1 then [3] else []
  {
    hide Tree.Valid, Outcome, Closure, Find, Scan;
    var t, m := Rows(), Closure(Rest(n), 0);
    RowsValid();
    SeedIsB(n);
    RestLeft(n, 0);
    ClosureMisled(n, 0);
    assert Compiled([Rest(n)]) == [m];
    OneScan(m);
  }

  lemma NoIds()
    ensures Rows().Valid() && forall id :: UniqueId(Rows(), 0, id)
    ensures Surroundings(Rows(), 0) == 0 && Rows().IsAncestor(0, 3)
  {
    RowsValid();
    assert Rows().IsAncestor(0, 1);
  }

  lemma OneScan(m: Matcher)
    ensures var t := Rows();
      t.Valid() && Scan(t, [3], 0, [m], 0, map[]) == if Outcome(t, m, 0, 3, map[]).0 then [3] else []
  {
    hide Tree.Valid, Outcome;
    var t := Rows();
    RowsValid();
    assert Scan(t, [3], 1, [m], 0, OutcomeOfAny(t, [m], 0, 0, 3, map[]).1) == [];
    assert OutcomeOfAny(t, [m], 0, 0, 3, map[]).0 == Outcome(t, m, 0, 3, map[]).0;
  }
}
