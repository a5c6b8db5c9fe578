/**
 When the order of tests does no harm. While one element, the subject, is matched, closures look at nodes on its path
 to the root and at earlier siblings of these. If they test remembered positions always the same number of siblings
 before the path, then below each parent only one child is tested, and over subjects in the order of the document
 no child is tested after a later sibling: then every answer is the plain one.
 */
module SafeOrder {
  import opened Sequences
  import opened Dom
  import opened Selectors
  import opened NthChild
  import opened DocumentOrder
  import opened LastPositions
  import opened Outcomes

  // ---------------------------------------------------------------- how far before the path

  /** The closest element before x among its siblings. */
  function PrevElement(t: Tree, x: nat): (r: Option<nat>)
    requires t.Valid() && x < |t.nodes|
    ensures r.Some? ==> t.IsElement(r.value) && t.SameParent(r.value, x) && t.Position(r.value) < t.Position(x)
    decreases Rank(t, PreviousSiblingNode, x)
  {
    PrevPlace(t, x);
    match Step(t, PreviousSiblingNode, x)
    case None => None
    case Some(y) => if t.IsElement(y) then Some(y) else PrevElement(t, y)
  }

  lemma PrevPlace(t: Tree, x: nat)
    requires t.Valid() && x < |t.nodes|
    ensures var y := Step(t, PreviousSiblingNode, x);
      && (y.Some? ==> y.value < |t.nodes| && t.SameParent(y.value, x) && t.Position(y.value) + 1 == t.Position(x))
      && (y.None? && t.nodes[x].parent.Some? ==> t.Position(x) == 0)
  {
    if t.nodes[x].parent.Some? {
      OwnPlace(t, x, false);
      SiblingLinks(t, t.nodes[x].parent.value, t.Position(x));
      if t.Position(x) > 0 {
        PositionOfKid(t, t.nodes[x].parent.value, t.Position(x) - 1);
      }
    }
  }

  /** No element stands between. */
  lemma {:induction false} PrevIsClosest(t: Tree, x: nat, u: nat)
    requires t.Valid() && t.SameParent(u, x) && t.IsElement(u) && t.Position(u) < t.Position(x)
    ensures PrevElement(t, x).Some? && t.Position(u) <= t.Position(PrevElement(t, x).value)
    decreases Rank(t, PreviousSiblingNode, x)
  {
    PrevPlace(t, x);
    var y := Step(t, PreviousSiblingNode, x).value;
    if !t.IsElement(y) {
      if t.Position(u) == t.Position(y) {
        SamePosition(t, u, y);
      }
      PrevIsClosest(t, y, u);
    }
  }

  /** The element n places before s, counting elements only. */
  function Back(t: Tree, s: nat, n: nat): (r: Option<nat>)
    requires t.Valid() && s < |t.nodes|
    ensures r.Some? ==> r.value < |t.nodes| && (r.value == s || t.SameParent(r.value, s))
  {
    if n == 0 then Some(s)
    else
      match Back(t, s, n - 1)
      case None => None
      case Some(y) => PrevElement(t, y)
  }

  /** Counting back the same number of places keeps the order. */
  lemma {:induction false} BackMonotone(t: Tree, a: nat, b: nat, n: nat)
    requires t.Valid() && t.SameParent(a, b) && t.Position(a) <= t.Position(b)
    requires Back(t, a, n).Some? && Back(t, b, n).Some?
    ensures t.SameParent(Back(t, a, n).value, Back(t, b, n).value)
    ensures t.Position(Back(t, a, n).value) <= t.Position(Back(t, b, n).value)
  {
    hide Tree.Valid, Tree.Position, PrevElement;
    if n > 0 {
      BackMonotone(t, a, b, n - 1);
      var a', b' := Back(t, a, n - 1).value, Back(t, b, n - 1).value;
      if t.Position(a') == t.Position(b') {
        SamePosition(t, a', b');
      } else {
        PrevIsClosest(t, b', Back(t, a, n).value);
      }
    }
  }

  // ---------------------------------------------------------------- where closures test

  /** How many places before the path a combinator leads, from i places before it; unknown after `~`. */
  function Towards(c: Combinator, i: Option<nat>): Option<nat> {
    if c.Dir() == ParentNode then Some(0)
    else if c.First() && i.Some? then Some(i.value + 1)
    else None
  }

  /** Called i places before the path, the closure tests remembered positions k places before it, if at all. */
  ghost predicate TestsAt(m: Matcher, i: Option<nat>, k: Option<nat>) {
    match m
    case IsContext => true
    case Base(_, reach) => TestsAt(reach, i, k)
    case TestMatcher(test) => CountsFromLast(test) ==> i.Some? && i == k
    case Every(all) => forall j :: 0 <= j < |all| ==> TestsAt(all[j], i, k)
    case Walk(inner, c, base, _) => (base ==> inner.IsContext?) && TestsAt(inner, Towards(c, i), k)
  }

  /** x stands i places before the path to the subject; or anywhere beside it. */
  ghost predicate Stands(t: Tree, x: nat, i: Option<nat>, subject: nat)
    requires t.Valid()
  {
    && x < |t.nodes|
    && match i
       case Some(n) => exists s :: OnPath(t, s, subject) && Back(t, s, n) == Some(x)
       case None => t.nodes[x].parent.Some? && OnPath(t, t.nodes[x].parent.value, subject)
  }

  ghost predicate OnPath(t: Tree, s: nat, subject: nat)
    requires t.Valid()
  {
    s < |t.nodes| && subject < |t.nodes| && Within(t, s, subject)
  }

  lemma ParentOnPath(t: Tree, s: nat, subject: nat)
    requires t.Valid() && OnPath(t, s, subject) && t.nodes[s].parent.Some?
    ensures OnPath(t, t.nodes[s].parent.value, subject)
  {
    assert t.LinkedUp(s);
    if s != subject {
      AncestorTransitive(t, t.nodes[s].parent.value, s, subject);
    }
  }

  /** The node above is on the path. */
  lemma StandsUp(t: Tree, x: nat, i: Option<nat>, subject: nat)
    requires t.Valid() && Stands(t, x, i, subject) && t.nodes[x].parent.Some?
    ensures OnPath(t, t.nodes[x].parent.value, subject)
    ensures t.nodes[x].parent.value < |t.nodes| && Stands(t, t.nodes[x].parent.value, Some(0), subject)
  {
    var p := t.nodes[x].parent.value;
    if i.Some? {
      var s :| OnPath(t, s, subject) && Back(t, s, i.value) == Some(x);
      ParentOnPath(t, s, subject);
    }
    assert OnPath(t, p, subject) && Back(t, p, 0) == Some(p);
  }

  /** A sibling before is beside the path. */
  lemma StandsBeside(t: Tree, x: nat, i: Option<nat>, subject: nat, y: nat)
    requires t.Valid() && Stands(t, x, i, subject) && t.SameParent(y, x)
    ensures Stands(t, y, None, subject)
  {
    StandsUp(t, x, i, subject);
  }

  lemma StandsBack(t: Tree, x: nat, n: nat, subject: nat)
    requires t.Valid() && Stands(t, x, Some(n), subject) && PrevElement(t, x).Some?
    ensures Stands(t, PrevElement(t, x).value, Some(n + 1), subject)
  {
    var s :| OnPath(t, s, subject) && Back(t, s, n) == Some(x);
    assert Back(t, s, n + 1) == PrevElement(t, x);
  }

  // ---------------------------------------------------------------- one test

  /** Nothing k places before the path has a later sibling that was tested first. */
  ghost predicate Ready(t: Tree, pivots: Pivots, k: Option<nat>, subject: nat)
    requires t.Valid()
  {
    && PivotsRight(t, pivots)
    && (forall p :: p in pivots ==> t.IsElement(pivots[p]))
    && (k.Some? ==> forall s :: OnPath(t, s, subject) ==> NotPassed(t, pivots, Back(t, s, k.value)))
  }

  ghost predicate NotPassed(t: Tree, pivots: Pivots, x: Option<nat>)
    requires t.Valid() && PivotsRight(t, pivots) && (x.Some? ==> x.value < |t.nodes|)
  {
    x.Some? && t.nodes[x.value].parent.Some? ==> !Passed(t, pivots, x.value)
  }

  /** What a match adds: first tests k places before the path. */
  ghost predicate Grew(t: Tree, k: Option<nat>, subject: nat, before: Pivots, after: Pivots)
    requires t.Valid()
  {
    forall p :: p in after ==>
      (p in before && after[p] == before[p]) || (k.Some? && Stands(t, after[p], k, subject))
  }

  lemma GrewTwice(t: Tree, k: Option<nat>, subject: nat, a: Pivots, b: Pivots, c: Pivots)
    requires t.Valid() && Grew(t, k, subject, a, b) && Grew(t, k, subject, b, c)
    ensures Grew(t, k, subject, a, c)
  {
    hide Stands;
  }

  /** A test k places before the path is right, and leaves everything ready. */
  lemma TestOnPath(t: Tree, e: nat, test: Test, pivots: Pivots, i: Option<nat>, k: Option<nat>, subject: nat)
    requires t.Valid() && t.IsElement(e) && Ready(t, pivots, k, subject) && Stands(t, e, i, subject)
    requires TestsAt(TestMatcher(test), i, k)
    ensures HoldsIn(t, e, test, pivots) == Holds(t, e, test)
    ensures Ready(t, Tested(t, e, test, pivots), k, subject)
    ensures Grew(t, k, subject, pivots, Tested(t, e, test, pivots))
  {
    hide Answered, IndexAmong, InProgression, Passed, Tree.Valid, Back, Within;
    if CountsFromLast(test) && t.nodes[e].parent.Some? {
      var s :| OnPath(t, s, subject) && Back(t, s, k.value) == Some(e);
      assert NotPassed(t, pivots, Back(t, s, k.value));
      AnsweredExactly(t, pivots, e);
      if t.nodes[e].parent.value !in pivots {
        StillReady(t, e, s, pivots, k.value, subject);
      }
    }
  }

  lemma StillReady(t: Tree, e: nat, s: nat, pivots: Pivots, k: nat, subject: nat)
    requires t.Valid() && t.IsElement(e) && Ready(t, pivots, Some(k), subject)
    requires OnPath(t, s, subject) && Back(t, s, k) == Some(e)
    requires t.nodes[e].parent.Some? && t.nodes[e].parent.value !in pivots
    ensures Ready(t, pivots[t.nodes[e].parent.value := e], Some(k), subject)
  {
    hide Tree.Valid, Tree.Position, Back, Within;
    var p := t.nodes[e].parent.value;
    var after := pivots[p := e];
    forall s' | OnPath(t, s', subject) ensures NotPassed(t, after, Back(t, s', k)) {
      var x := Back(t, s', k);
      assert NotPassed(t, pivots, x);
      if x.Some? && t.nodes[x.value].parent == Some(p) {
        SameChild(t, p, s, s', subject);
      }
    }
  }

  lemma SameChild(t: Tree, p: nat, a: nat, b: nat, subject: nat)
    requires t.Valid() && OnPath(t, a, subject) && OnPath(t, b, subject)
    requires t.nodes[a].parent == Some(p) && t.nodes[b].parent == Some(p)
    ensures a == b
  {
    OnePathChild(t, p, a, b, subject);
  }

  /** The path to the subject passes through one child of a node only. */
  lemma {:induction false} OnePathChild(t: Tree, p: nat, x: nat, y: nat, subject: nat)
    requires t.Valid() && Within(t, x, subject) && Within(t, y, subject) && subject < |t.nodes|
    requires x < |t.nodes| && y < |t.nodes| && t.nodes[x].parent == Some(p) && t.nodes[y].parent == Some(p)
    ensures x == y
    decreases subject
  {
    assert t.LinkedUp(subject) && t.LinkedUp(x) && t.LinkedUp(y);
    if x == subject && y != subject {
      AncestorsAreSmaller(t, y, subject);
      BelowChild(t, p, y, subject);
      assert false;
    } else if x != subject && y == subject {
      BelowChild(t, p, x, subject);
      assert false;
    } else if x != subject {
      OnePathChild(t, p, x, y, t.nodes[subject].parent.value);
    }
  }

  /** A child of p that has another child of p for an ancestor is impossible. */
  lemma BelowChild(t: Tree, p: nat, y: nat, x: nat)
    requires t.Valid() && x < |t.nodes| && y < |t.nodes| && t.nodes[x].parent == Some(p) && t.nodes[y].parent == Some(p)
    ensures !t.IsAncestor(y, x)
  {
    assert t.LinkedUp(x) && t.LinkedUp(y);
    if t.IsAncestor(y, x) {
      assert y == p || t.IsAncestor(y, p);
      if y != p { AncestorsAreSmaller(t, y, p); }
    }
  }

  // ---------------------------------------------------------------- one match

  /** The plain answer, and everything still ready. */
  ghost predicate Plain(t: Tree, k: Option<nat>, subject: nat, before: Pivots, b: bool, r: (bool, Pivots))
    requires t.Valid()
  {
    r.0 == b && Ready(t, r.1, k, subject) && Grew(t, k, subject, before, r.1)
  }

  lemma PlainThen(t: Tree, k: Option<nat>, subject: nat, before: Pivots, now: Pivots, b: bool, r: (bool, Pivots))
    requires t.Valid() && Grew(t, k, subject, before, now) && Plain(t, k, subject, now, b, r)
    ensures Plain(t, k, subject, before, b, r)
  {
    hide Stands, Ready, Grew;
    GrewTwice(t, k, subject, before, now, r.1);
  }

  lemma PlainSelf(t: Tree, k: Option<nat>, subject: nat, pivots: Pivots, b: bool)
    requires t.Valid() && Ready(t, pivots, k, subject)
    ensures Plain(t, k, subject, pivots, b, (b, pivots))
  {
  }

  lemma ReadyPivots(t: Tree, pivots: Pivots, k: Option<nat>, subject: nat)
    requires t.Valid() && Ready(t, pivots, k, subject)
    ensures PivotsRight(t, pivots)
  {
  }

  /** Matching the subject's surroundings in a safe order gives the plain answer. */
  lemma {:induction false} SafeMatch(t: Tree, m: Matcher, context: nat, e: nat, i: Option<nat>, k: Option<nat>,
                                     subject: nat, pivots: Pivots)
    requires t.Valid() && e < |t.nodes| && Stands(t, e, i, subject) && (m.IsContext? || t.IsElement(e))
    requires TestsAt(m, i, k) && Ready(t, pivots, k, subject)
    ensures PivotsRight(t, pivots)
    ensures Plain(t, k, subject, pivots, Eval(t, m, context, e), Outcome(t, m, context, e, pivots))
    decreases m, 1, 0, 0
  {
    hide Tree.Valid, Step, Rank, Visits, HoldsIn, Tested, Holds, Stands, Ready, Grew, PivotsRight;
    ReadyPivots(t, pivots, k, subject);
    match m
    case IsContext => PlainSelf(t, k, subject, pivots, e == context);
    case Base(leading, reach) =>
      if leading.None? && context == t.document {
        PlainSelf(t, k, subject, pivots, true);
      } else {
        SafeMatch(t, reach, context, e, i, k, subject, pivots);
      }
    case TestMatcher(test) => TestOnPath(t, e, test, pivots, i, k, subject);
    case Every(all) => SafeAll(t, m, |all|, context, e, i, k, subject, pivots);
    case Walk(_, c, _, _) =>
      if c.First() && c.Dir() == PreviousSiblingNode {
        SafeAdjacent(t, m, context, e, i, k, subject, pivots);
      } else {
        SafeAhead(t, m, context, e, i, k, subject, pivots);
      }
  }

  ghost predicate EvalFirst(t: Tree, m: Matcher, n: nat, context: nat, e: nat)
    requires t.Valid() && e < |t.nodes| && m.Every? && n <= |m.all|
  {
    forall j :: 0 <= j < n ==> Eval(t, m.all[j], context, e)
  }

  lemma {:induction false} SafeAll(t: Tree, m: Matcher, n: nat, context: nat, e: nat, i: Option<nat>, k: Option<nat>,
                                   subject: nat, pivots: Pivots)
    requires t.Valid() && Stands(t, e, i, subject) && t.IsElement(e) && m.Every? && TestsAt(m, i, k) && n <= |m.all|
    requires Ready(t, pivots, k, subject)
    ensures PivotsRight(t, pivots)
    ensures Plain(t, k, subject, pivots, EvalFirst(t, m, n, context, e), OutcomeOfAll(t, m, n, context, e, pivots))
    decreases m, 0, n, 0
  {
    hide Tree.Valid, Eval, Outcome, Stands, Ready, Grew, PivotsRight;
    ReadyPivots(t, pivots, k, subject);
    if n == 0 {
      PlainSelf(t, k, subject, pivots, true);
    } else {
      var r := Outcome(t, m.all[n - 1], context, e, pivots);
      SafeMatch(t, m.all[n - 1], context, e, i, k, subject, pivots);
      if r.0 {
        SafeAll(t, m, n - 1, context, e, i, k, subject, r.1);
        PlainThen(t, k, subject, pivots, r.1, EvalFirst(t, m, n - 1, context, e),
                  OutcomeOfAll(t, m, n - 1, context, e, r.1));
      }
    }
  }

  /** The walk of `+` comes to the closest element before. */
  lemma {:induction false} ClosestBefore(t: Tree, w: Matcher, context: nat, e: nat, pivots: Pivots)
    requires t.Valid() && e < |t.nodes| && PivotsRight(t, pivots)
    requires w.Walk? && w.combinator.First() && w.combinator.Dir() == PreviousSiblingNode
    ensures var y := PrevElement(t, e);
      && Along(t, w, context, e) == (y.Some? && Eval(t, w.inner, context, y.value))
      && OutcomeAhead(t, w, context, e, pivots) ==
         if y.None? then (false, pivots) else Outcome(t, w.inner, context, y.value, pivots)
    decreases Rank(t, PreviousSiblingNode, e)
  {
    hide Tree.Valid, Eval, Outcome;
    var next := Step(t, PreviousSiblingNode, e);
    if next.Some? && !t.IsElement(next.value) {
      ClosestBefore(t, w, context, next.value, pivots);
    }
  }

  lemma {:induction false} SafeAdjacent(t: Tree, w: Matcher, context: nat, e: nat, i: Option<nat>, k: Option<nat>,
                                        subject: nat, pivots: Pivots)
    requires t.Valid() && e < |t.nodes| && Stands(t, e, i, subject) && w.Walk? && TestsAt(w, i, k)
    requires w.combinator.First() && w.combinator.Dir() == PreviousSiblingNode && Ready(t, pivots, k, subject)
    ensures PivotsRight(t, pivots)
    ensures Plain(t, k, subject, pivots, Along(t, w, context, e), OutcomeAhead(t, w, context, e, pivots))
    decreases w, 0, 0, 0
  {
    hide Tree.Valid, Eval, Outcome, Along, OutcomeAhead, Ready, Grew, PrevElement, PivotsRight, Stands;
    ReadyPivots(t, pivots, k, subject);
    ClosestBefore(t, w, context, e, pivots);
    var y := PrevElement(t, e);
    if y.None? {
      PlainSelf(t, k, subject, pivots, false);
    } else {
      if i.Some? {
        StandsBack(t, e, i.value, subject);
      } else {
        StandsBeside(t, e, i, subject, y.value);
      }
      SafeMatch(t, w.inner, context, y.value, Towards(w.combinator, i), k, subject, pivots);
    }
  }

  /** A walk to ancestors, or to any earlier sibling, stays on the path or beside it. */
  ghost predicate WalkStands(t: Tree, w: Matcher, x: nat, subject: nat)
    requires t.Valid() && w.Walk?
  {
    Stands(t, x, if w.combinator.Dir() == ParentNode then Some(0) else None, subject)
  }

  lemma WalkStandsOn(t: Tree, w: Matcher, x: nat, i: Option<nat>, subject: nat)
    requires t.Valid() && w.Walk? && Stands(t, x, i, subject)
    ensures var next := Step(t, w.combinator.Dir(), x); next.Some? ==> WalkStands(t, w, next.value, subject)
  {
    if w.combinator.Dir() == ParentNode {
      if t.nodes[x].parent.Some? { StandsUp(t, x, i, subject); }
    } else {
      PrevPlace(t, x);
      var next := Step(t, PreviousSiblingNode, x);
      if next.Some? { StandsBeside(t, x, i, subject, next.value); }
    }
  }

  lemma {:induction false} SafeAhead(t: Tree, w: Matcher, context: nat, e: nat, i: Option<nat>, k: Option<nat>,
                                     subject: nat, pivots: Pivots)
    requires t.Valid() && e < |t.nodes| && Stands(t, e, i, subject) && w.Walk? && (w.base ==> w.inner.IsContext?)
    requires TestsAt(w.inner, if w.combinator.Dir() == ParentNode then Some(0) else None, k)
    requires Ready(t, pivots, k, subject)
    ensures PivotsRight(t, pivots)
    ensures Plain(t, k, subject, pivots, Along(t, w, context, e), OutcomeAhead(t, w, context, e, pivots))
    decreases w, 0, Rank(t, w.combinator.Dir(), e), 0
  {
    hide Tree.Valid, Here, OutcomeHere, Ready, Grew, PivotsRight, Stands;
    ReadyPivots(t, pivots, k, subject);
    WalkStandsOn(t, w, e, i, subject);
    var next := Step(t, w.combinator.Dir(), e);
    if next.None? {
      PlainSelf(t, k, subject, pivots, false);
    } else {
      SafeHere(t, w, context, next.value, k, subject, pivots);
    }
  }

  lemma {:induction false} SafeHere(t: Tree, w: Matcher, context: nat, x: nat, k: Option<nat>, subject: nat,
                                    pivots: Pivots)
    requires t.Valid() && x < |t.nodes| && w.Walk? && (w.base ==> w.inner.IsContext?) && WalkStands(t, w, x, subject)
    requires TestsAt(w.inner, if w.combinator.Dir() == ParentNode then Some(0) else None, k)
    requires Ready(t, pivots, k, subject)
    ensures PivotsRight(t, pivots)
    ensures Plain(t, k, subject, pivots, Here(t, w, context, x), OutcomeHere(t, w, context, x, pivots))
    decreases w, 0, Rank(t, w.combinator.Dir(), x), 1
  {
    hide Tree.Valid, Along, OutcomeAhead, Eval, Outcome, Ready, Grew, PivotsRight, Stands;
    ReadyPivots(t, pivots, k, subject);
    var i := if w.combinator.Dir() == ParentNode then Some(0) else None;
    if !Visits(t, w, x) {
      SafeAhead(t, w, context, x, i, k, subject, pivots);
    } else {
      var r := Outcome(t, w.inner, context, x, pivots);
      SafeMatch(t, w.inner, context, x, i, k, subject, pivots);
      if !r.0 && !w.combinator.First() {
        SafeAhead(t, w, context, x, i, k, subject, r.1);
        PlainThen(t, k, subject, pivots, r.1, Along(t, w, context, x), OutcomeAhead(t, w, context, x, r.1));
      }
    }
  }

  /** Without tests of remembered positions the answer is plain whatever has been tested, and nothing more is tested. */
  lemma PlainOutcome(t: Tree, m: Matcher, context: nat, e: nat, pivots: Pivots)
    requires t.Valid() && t.IsElement(e) && TestsAt(m, Some(0), None)
    requires PivotsRight(t, pivots) && forall p :: p in pivots ==> t.IsElement(pivots[p])
    ensures Outcome(t, m, context, e, pivots) == (Eval(t, m, context, e), pivots)
  {
    hide Outcome, Eval, TestsAt, Tree.Valid;
    assert OnPath(t, e, e) && Back(t, e, 0) == Some(e);
    SafeMatch(t, m, context, e, Some(0), None, e, pivots);
    OutcomeGrows(t, m, context, e, pivots);
    var after := Outcome(t, m, context, e, pivots).1;
    assert after == pivots;
  }

  // ---------------------------------------------------------------- from one subject to the next

  /** The root of n's tree. */
  function Top(t: Tree, n: nat): (top: nat)
    requires t.Valid() && n < |t.nodes|
    ensures top < |t.nodes| && t.nodes[top].parent == None && Within(t, top, n)
    decreases n
  {
    assert t.LinkedUp(n);
    match t.nodes[n].parent
    case None => n
    case Some(p) =>
      var top := Top(t, p);
      assert top == p || t.IsAncestor(top, p);
      top
  }

  /** Elements of one tree, in the order of the document. */
  ghost predicate InOrder(t: Tree, top: nat, elems: seq<nat>)
    requires t.Valid()
  {
    && top < |t.nodes| && t.nodes[top].parent == None
    && (forall e :: e in elems ==> t.IsElement(e))
    && forall i, j :: 0 <= i < j < |elems| ==> Before(t.Preorder(top), elems[i], elems[j])
  }

  /** Whatever was tested first stands k places before the path to one of these subjects. */
  ghost predicate SeenFrom(t: Tree, pivots: Pivots, k: Option<nat>, subjects: seq<nat>)
    requires t.Valid()
  {
    && PivotsRight(t, pivots)
    && forall p :: p in pivots ==> t.IsElement(pivots[p]) && k.Some? && StandsFrom(t, pivots[p], k, subjects)
  }

  ghost predicate StandsFrom(t: Tree, x: nat, k: Option<nat>, subjects: seq<nat>)
    requires t.Valid()
  {
    exists j :: 0 <= j < |subjects| && Stands(t, x, k, subjects[j])
  }

  /** A later subject finds everything ready. */
  lemma NextSubject(t: Tree, top: nat, pivots: Pivots, k: Option<nat>, elems: seq<nat>, i: nat)
    requires t.Valid() && i < |elems| && InOrder(t, top, elems) && SeenFrom(t, pivots, k, elems[..i])
    ensures Ready(t, pivots, k, elems[i])
  {
    hide InOrder, Tree.Position, Tree.Preorder, Tree.Valid, Within, Stands, Back;
    if k.Some? {
      forall s | OnPath(t, s, elems[i]) ensures NotPassed(t, pivots, Back(t, s, k.value)) {
        var x := Back(t, s, k.value);
        if x.Some? && t.nodes[x.value].parent.Some? && Passed(t, pivots, x.value) {
          var z := pivots[t.nodes[x.value].parent.value];
          assert StandsFrom(t, z, k, elems[..i]);
          var j :| 0 <= j < |elems[..i]| && Stands(t, z, k, elems[..i][j]);
          assert elems[..i][j] == elems[j];
          EarlierStands(t, top, elems, j, i, k.value, s, x.value, z);
        }
      }
    }
  }

  /** Two siblings that stand k places before the paths to two elements stand in the order of the elements. */
  lemma EarlierStands(t: Tree, top: nat, elems: seq<nat>, j: nat, i: nat, k: nat, s: nat, x: nat, z: nat)
    requires t.Valid() && InOrder(t, top, elems) && j < i < |elems|
    requires OnPath(t, s, elems[i]) && Back(t, s, k) == Some(x) && Stands(t, z, Some(k), elems[j])
    requires t.SameParent(x, z)
    ensures t.Position(z) <= t.Position(x)
  {
    hide InOrder, Tree.Preorder, Tree.Valid, Tree.Position, Within;
    var s' :| OnPath(t, s', elems[j]) && Back(t, s', k) == Some(z);
    assert t.SameParent(s', s);
    EarlierPath(t, top, elems, j, i, s, s');
    BackMonotone(t, s', s, k);
  }

  /** Two children of one node, on the paths to two elements, stand in the order of the elements. */
  lemma EarlierPath(t: Tree, top: nat, elems: seq<nat>, k: nat, i: nat, x: nat, z: nat)
    requires t.Valid() && InOrder(t, top, elems) && k < i < |elems|
    requires t.SameParent(x, z) && Within(t, x, elems[i]) && Within(t, z, elems[k])
    ensures t.Position(z) <= t.Position(x)
  {
    if t.Position(x) < t.Position(z) {
      assert t.LinkedUp(x) && t.LinkedUp(z);
      var p, order := t.nodes[x].parent.value, t.Preorder(top);
      assert Before(order, elems[k], elems[i]);
      PreorderMembers(t, top, elems[i]);
      BelowTop(t, top, p, x, elems[i]);
      EarlierSubtreeFirst(t, top, p, t.Position(x), t.Position(z), elems[i], elems[k]);
      PreorderDistinct(t, top);
      BeforeIsStrict(order, elems[k], elems[i]);
      assert false;
    }
  }

  lemma BelowTop(t: Tree, top: nat, p: nat, x: nat, e: nat)
    requires t.Valid() && top < |t.nodes| && t.nodes[top].parent == None && Within(t, top, e)
    requires x < |t.nodes| && t.nodes[x].parent == Some(p) && Within(t, x, e)
    ensures p < |t.nodes| && Within(t, top, p)
  {
    assert t.LinkedUp(x);
    if x == e {
      assert top != e;
    } else {
      AncestorTransitive(t, p, x, e);
      AncestorsCompare(t, p, top, e);
    }
  }

  lemma GrewSeen(t: Tree, k: Option<nat>, before: Pivots, after: Pivots, elems: seq<nat>, i: nat)
    requires t.Valid() && i < |elems| && SeenFrom(t, before, k, elems[..i])
    requires Grew(t, k, elems[i], before, after) && Ready(t, after, k, elems[i])
    ensures SeenFrom(t, after, k, elems[..i + 1])
  {
    hide Stands, Tree.Valid, NotPassed, Back, OnPath;
    forall p | p in after ensures k.Some? && StandsFrom(t, after[p], k, elems[..i + 1]) {
      if p in before && after[p] == before[p] {
        assert StandsFrom(t, before[p], k, elems[..i]);
        var j :| 0 <= j < |elems[..i]| && Stands(t, before[p], k, elems[..i][j]);
        assert elems[..i + 1][j] == elems[..i][j];
      } else {
        assert elems[..i + 1][i] == elems[i];
      }
    }
  }

  // ---------------------------------------------------------------- a whole run

  /** One of the compiled groups accepts e. */
  ghost predicate Accepted(t: Tree, matchers: seq<Matcher>, context: nat, e: nat)
    requires t.Valid()
  {
    e < |t.nodes| && exists k :: 0 <= k < |matchers| && Eval(t, matchers[k], context, e)
  }

  ghost function KeepAccepted(t: Tree, elems: seq<nat>, matchers: seq<Matcher>, context: nat): seq<nat>
    requires t.Valid()
  {
    Filter(elems, (e: nat) => Accepted(t, matchers, context, e))
  }

  /** All closures of the run test remembered positions k places before the path, if at all. */
  ghost predicate AllTestAt(ms: seq<Matcher>, k: Option<nat>) {
    forall j :: 0 <= j < |ms| ==> TestsAt(ms[j], Some(0), k)
  }

  /** The closures from index j on: the first that accepts e decides. */
  lemma {:induction false} SafeAny(t: Tree, ms: seq<Matcher>, j: nat, context: nat, e: nat, k: Option<nat>,
                                   pivots: Pivots)
    requires t.Valid() && t.IsElement(e) && AllTestAt(ms, k) && j <= |ms| && Ready(t, pivots, k, e)
    ensures PivotsRight(t, pivots)
    ensures Plain(t, k, e, pivots, exists n :: j <= n < |ms| && Eval(t, ms[n], context, e),
                  OutcomeOfAny(t, ms, j, context, e, pivots))
    decreases |ms| - j
  {
    hide Tree.Valid, Eval, Outcome, Stands, Ready, Grew, PivotsRight, TestsAt;
    ReadyPivots(t, pivots, k, e);
    if j == |ms| {
      PlainSelf(t, k, e, pivots, false);
    } else {
      var r := Outcome(t, ms[j], context, e, pivots);
      StandsSelf(t, e);
      SafeMatch(t, ms[j], context, e, Some(0), k, e, pivots);
      if !r.0 {
        SafeAny(t, ms, j + 1, context, e, k, r.1);
        var later := exists n :: j + 1 <= n < |ms| && Eval(t, ms[n], context, e);
        PlainThen(t, k, e, pivots, r.1, later, OutcomeOfAny(t, ms, j + 1, context, e, r.1));
        assert (exists n :: j <= n < |ms| && Eval(t, ms[n], context, e)) <==> later;
      }
    }
  }

  lemma StandsSelf(t: Tree, e: nat)
    requires t.Valid() && e < |t.nodes|
    ensures Stands(t, e, Some(0), e)
  {
    assert OnPath(t, e, e) && Back(t, e, 0) == Some(e);
  }

  /** Over elements in the order of the document such closures keep just the elements that they accept. */
  lemma {:induction false} SafeScan(t: Tree, top: nat, elems: seq<nat>, i: nat, ms: seq<Matcher>, context: nat,
                                    k: Option<nat>, pivots: Pivots)
    requires t.Valid() && InOrder(t, top, elems) && AllTestAt(ms, k) && i <= |elems|
    requires SeenFrom(t, pivots, k, elems[..i])
    ensures PivotsRight(t, pivots)
    ensures Scan(t, elems, i, ms, context, pivots) == KeepAccepted(t, elems[i..], ms, context)
    decreases |elems| - i
  {
    hide Tree.Valid, OutcomeOfAny, Stands, Ready, Grew, AllTestAt, StandsFrom, Eval;
    if i < |elems| {
      var e := elems[i];
      assert e in elems && elems[i..] == [e] + elems[i + 1..];
      NextSubject(t, top, pivots, k, elems, i);
      SafeAny(t, ms, 0, context, e, k, pivots);
      var r := OutcomeOfAny(t, ms, 0, context, e, pivots);
      GrewSeen(t, k, pivots, r.1, elems, i);
      SafeScan(t, top, elems, i + 1, ms, context, k, r.1);
    }
  }

  lemma SafeFromStart(t: Tree, top: nat, elems: seq<nat>, ms: seq<Matcher>, context: nat, k: Option<nat>)
    requires t.Valid() && InOrder(t, top, elems) && AllTestAt(ms, k)
    ensures Scan(t, elems, 0, ms, context, map[]) == KeepAccepted(t, elems, ms, context)
  {
    assert elems[..0] == [] && elems[0..] == elems;
    assert SeenFrom(t, map[], k, []);
    SafeScan(t, top, elems, 0, ms, context, k, map[]);
  }

  lemma SafeResults(t: Tree, elems: seq<nat>, ms: seq<Matcher>, context: nat)
    requires t.Valid()
    ensures forall k, top :: AllTestAt(ms, k) && InOrder(t, top, elems) ==>
      Scan(t, elems, 0, ms, context, map[]) == KeepAccepted(t, elems, ms, context)
  {
    hide AllTestAt, InOrder, Scan, KeepAccepted;
    forall k, top | AllTestAt(ms, k) && InOrder(t, top, elems)
      ensures Scan(t, elems, 0, ms, context, map[]) == KeepAccepted(t, elems, ms, context)
    {
      SafeFromStart(t, top, elems, ms, context, k);
    }
  }
}
