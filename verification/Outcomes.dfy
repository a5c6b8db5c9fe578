/**
 What compiled closures answer without the caches on the nodes, when `:nth-last-child` goes by the positions that the
 first test below each parent has left: an answer depends on what has been tested before, and adds to it. Once it is
 given it is settled, and that is why answers may be remembered.
 */
module Outcomes {
  import opened Dom
  import opened Selectors
  import opened LastPositions

  /** What a closure answers after what has been tested so far, and what has been tested then. */
  ghost function Outcome(t: Tree, m: Matcher, context: nat, e: nat, pivots: Pivots): (r: (bool, Pivots))
    requires t.Valid() && e < |t.nodes| && PivotsRight(t, pivots)
    ensures PivotsRight(t, r.1)
    decreases m, 1, 0, 0
  {
    match m
    case IsContext => (e == context, pivots)
    case Base(leading, reach) =>
      if leading.None? && context == t.document then (true, pivots) else Outcome(t, reach, context, e, pivots)
    case TestMatcher(test) => (HoldsIn(t, e, test, pivots), Tested(t, e, test, pivots))
    case Every(all) => OutcomeOfAll(t, m, |all|, context, e, pivots)
    case Walk(_, _, _, _) => OutcomeAhead(t, m, context, e, pivots)
  }

  /** The first n closures, from the last of them to the first, until one fails. */
  ghost function OutcomeOfAll(t: Tree, m: Matcher, n: nat, context: nat, e: nat, pivots: Pivots): (r: (bool, Pivots))
    requires t.Valid() && e < |t.nodes| && PivotsRight(t, pivots) && m.Every? && n <= |m.all|
    ensures PivotsRight(t, r.1)
    decreases m, 0, n, 0
  {
    if n == 0 then (true, pivots)
    else
      var r := Outcome(t, m.all[n - 1], context, e, pivots);
      if !r.0 then r else OutcomeOfAll(t, m, n - 1, context, e, r.1)
  }

  /** Further along the walk's link. */
  ghost function OutcomeAhead(t: Tree, w: Matcher, context: nat, e: nat, pivots: Pivots): (r: (bool, Pivots))
    requires t.Valid() && e < |t.nodes| && PivotsRight(t, pivots) && w.Walk?
    ensures PivotsRight(t, r.1)
    decreases w, 0, Rank(t, w.combinator.Dir(), e), 0
  {
    match Step(t, w.combinator.Dir(), e)
    case None => (false, pivots)
    case Some(x) => OutcomeHere(t, w, context, x, pivots)
  }

  /** At node x, and then further along unless x matches or only the closest node counts. */
  ghost function OutcomeHere(t: Tree, w: Matcher, context: nat, x: nat, pivots: Pivots): (r: (bool, Pivots))
    requires t.Valid() && x < |t.nodes| && PivotsRight(t, pivots) && w.Walk?
    ensures PivotsRight(t, r.1)
    decreases w, 0, Rank(t, w.combinator.Dir(), x), 1
  {
    if !Visits(t, w, x) then OutcomeAhead(t, w, context, x, pivots)
    else
      var r := Outcome(t, w.inner, context, x, pivots);
      if r.0 || w.combinator.First() then r else OutcomeAhead(t, w, context, x, r.1)
  }

  /** The first closure from index j on that accepts e. */
  ghost function OutcomeOfAny(t: Tree, ms: seq<Matcher>, j: nat, context: nat, e: nat, pivots: Pivots)
    : (r: (bool, Pivots))
    requires t.Valid() && e < |t.nodes| && PivotsRight(t, pivots) && j <= |ms|
    ensures PivotsRight(t, r.1)
    decreases |ms| - j
  {
    if j == |ms| then (false, pivots)
    else
      var r := Outcome(t, ms[j], context, e, pivots);
      if r.0 then r else OutcomeOfAny(t, ms, j + 1, context, e, r.1)
  }

  /** The elements from index i on that are accepted, one after the other. */
  ghost function Scan(t: Tree, elems: seq<nat>, i: nat, ms: seq<Matcher>, context: nat, pivots: Pivots): seq<nat>
    requires t.Valid() && PivotsRight(t, pivots) && i <= |elems|
    decreases |elems| - i
  {
    if i == |elems| || elems[i] >= |t.nodes| then []
    else
      var r := OutcomeOfAny(t, ms, 0, context, elems[i], pivots);
      (if r.0 then [elems[i]] else []) + Scan(t, elems, i + 1, ms, context, r.1)
  }

  // ---------------------------------------------------------------- answers add to what has been tested

  lemma {:induction false} OutcomeGrows(t: Tree, m: Matcher, context: nat, e: nat, pivots: Pivots)
    requires t.Valid() && e < |t.nodes| && PivotsRight(t, pivots)
    ensures Grown(pivots, Outcome(t, m, context, e, pivots).1)
    decreases m, 1, 0, 0
  {
    hide Tree.Valid, Step, Rank, Visits, HoldsIn, Tested;
    match m
    case IsContext =>
    case Base(_, reach) => OutcomeGrows(t, reach, context, e, pivots);
    case TestMatcher(test) => TestGrows(t, e, test, pivots);
    case Every(all) => OfAllGrows(t, m, |all|, context, e, pivots);
    case Walk(_, _, _, _) => AheadGrows(t, m, context, e, pivots);
  }

  lemma {:induction false} OfAllGrows(t: Tree, m: Matcher, n: nat, context: nat, e: nat, pivots: Pivots)
    requires t.Valid() && e < |t.nodes| && PivotsRight(t, pivots) && m.Every? && n <= |m.all|
    ensures Grown(pivots, OutcomeOfAll(t, m, n, context, e, pivots).1)
    decreases m, 0, n, 0
  {
    hide Tree.Valid, Outcome;
    if n > 0 {
      var r := Outcome(t, m.all[n - 1], context, e, pivots);
      OutcomeGrows(t, m.all[n - 1], context, e, pivots);
      OfAllGrows(t, m, n - 1, context, e, r.1);
    }
  }

  lemma {:induction false} AheadGrows(t: Tree, w: Matcher, context: nat, e: nat, pivots: Pivots)
    requires t.Valid() && e < |t.nodes| && PivotsRight(t, pivots) && w.Walk?
    ensures Grown(pivots, OutcomeAhead(t, w, context, e, pivots).1)
    decreases w, 0, Rank(t, w.combinator.Dir(), e), 0
  {
    hide Tree.Valid, OutcomeHere;
    var next := Step(t, w.combinator.Dir(), e);
    if next.Some? {
      HereGrows(t, w, context, next.value, pivots);
    }
  }

  lemma {:induction false} HereGrows(t: Tree, w: Matcher, context: nat, x: nat, pivots: Pivots)
    requires t.Valid() && x < |t.nodes| && PivotsRight(t, pivots) && w.Walk?
    ensures Grown(pivots, OutcomeHere(t, w, context, x, pivots).1)
    decreases w, 0, Rank(t, w.combinator.Dir(), x), 1
  {
    hide Tree.Valid, OutcomeAhead, Outcome;
    if !Visits(t, w, x) {
      AheadGrows(t, w, context, x, pivots);
    } else {
      var r := Outcome(t, w.inner, context, x, pivots);
      OutcomeGrows(t, w.inner, context, x, pivots);
      AheadGrows(t, w, context, x, r.1);
    }
  }

  // ---------------------------------------------------------------- answers are settled

  /** After all that it tested has been tested, a closure answers as it did, and tests nothing new. */
  lemma {:induction false} Settled(t: Tree, m: Matcher, context: nat, e: nat, before: Pivots, now: Pivots)
    requires t.Valid() && e < |t.nodes| && PivotsRight(t, before) && PivotsRight(t, now)
    requires Grown(Outcome(t, m, context, e, before).1, now)
    ensures Outcome(t, m, context, e, now) == (Outcome(t, m, context, e, before).0, now)
    decreases m, 1, 0, 0
  {
    hide Tree.Valid, Step, Rank, Visits, HoldsIn, Tested;
    match m
    case IsContext =>
    case Base(leading, reach) =>
      if leading.Some? || context != t.document { Settled(t, reach, context, e, before, now); }
    case TestMatcher(test) => TestSettled(t, e, test, before, now);
    case Every(all) => AllSettled(t, m, |all|, context, e, before, now);
    case Walk(_, _, _, _) => AheadSettled(t, m, context, e, before, now);
  }

  lemma {:induction false} AllSettled(t: Tree, m: Matcher, n: nat, context: nat, e: nat, before: Pivots, now: Pivots)
    requires t.Valid() && e < |t.nodes| && PivotsRight(t, before) && PivotsRight(t, now) && m.Every? && n <= |m.all|
    requires Grown(OutcomeOfAll(t, m, n, context, e, before).1, now)
    ensures OutcomeOfAll(t, m, n, context, e, now) == (OutcomeOfAll(t, m, n, context, e, before).0, now)
    decreases m, 0, n, 0
  {
    hide Tree.Valid, Outcome, Grown;
    if n > 0 {
      var r := Outcome(t, m.all[n - 1], context, e, before);
      if r.0 {
        OfAllGrows(t, m, n - 1, context, e, r.1);
        GrownTwice(r.1, OutcomeOfAll(t, m, n, context, e, before).1, now);
      }
      Settled(t, m.all[n - 1], context, e, before, now);
      if r.0 {
        AllSettled(t, m, n - 1, context, e, r.1, now);
      }
    }
  }

  lemma {:induction false} AheadSettled(t: Tree, w: Matcher, context: nat, e: nat, before: Pivots, now: Pivots)
    requires t.Valid() && e < |t.nodes| && PivotsRight(t, before) && PivotsRight(t, now) && w.Walk?
    requires Grown(OutcomeAhead(t, w, context, e, before).1, now)
    ensures OutcomeAhead(t, w, context, e, now) == (OutcomeAhead(t, w, context, e, before).0, now)
    decreases w, 0, Rank(t, w.combinator.Dir(), e), 0
  {
    hide Tree.Valid, OutcomeHere, Grown;
    var next := Step(t, w.combinator.Dir(), e);
    if next.Some? {
      HereSettled(t, w, context, next.value, before, now);
    }
  }

  lemma {:induction false} HereSettled(t: Tree, w: Matcher, context: nat, x: nat, before: Pivots, now: Pivots)
    requires t.Valid() && x < |t.nodes| && PivotsRight(t, before) && PivotsRight(t, now) && w.Walk?
    requires Grown(OutcomeHere(t, w, context, x, before).1, now)
    ensures OutcomeHere(t, w, context, x, now) == (OutcomeHere(t, w, context, x, before).0, now)
    decreases w, 0, Rank(t, w.combinator.Dir(), x), 1
  {
    hide Tree.Valid, OutcomeAhead, Outcome, Grown;
    if !Visits(t, w, x) {
      AheadSettled(t, w, context, x, before, now);
    } else {
      var r := Outcome(t, w.inner, context, x, before);
      if !r.0 && !w.combinator.First() {
        AheadGrows(t, w, context, x, r.1);
        GrownTwice(r.1, OutcomeHere(t, w, context, x, before).1, now);
      }
      Settled(t, w.inner, context, x, before, now);
      if !r.0 && !w.combinator.First() {
        AheadSettled(t, w, context, x, r.1, now);
      }
    }
  }

  // ---------------------------------------------------------------- names do not matter

  /** The same closures but for the names of their walks. */
  ghost predicate ButForNames(m: Matcher, n: Matcher) {
    match m
    case IsContext => n.IsContext?
    case Base(leading, reach) => n.Base? && n.leading == leading && ButForNames(reach, n.reach)
    case TestMatcher(_) => n == m
    case Every(all) => n.Every? && |n.all| == |all| && forall i :: 0 <= i < |all| ==> ButForNames(all[i], n.all[i])
    case Walk(inner, c, base, _) => n.Walk? && n.combinator == c && n.base == base && ButForNames(inner, n.inner)
  }

  lemma {:induction false} OutcomeAlike(t: Tree, m: Matcher, n: Matcher, context: nat, e: nat, pivots: Pivots)
    requires t.Valid() && e < |t.nodes| && PivotsRight(t, pivots) && ButForNames(m, n)
    ensures Outcome(t, m, context, e, pivots) == Outcome(t, n, context, e, pivots)
    decreases m, 1, 0, 0
  {
    hide Tree.Valid, Step, Rank, Visits, HoldsIn, Tested;
    match m
    case IsContext =>
    case Base(leading, reach) => OutcomeAlike(t, reach, n.reach, context, e, pivots);
    case TestMatcher(test) =>
    case Every(all) => OfAllAlike(t, m, n, |all|, context, e, pivots);
    case Walk(_, _, _, _) => AheadAlike(t, m, n, context, e, pivots);
  }

  lemma {:induction false} OfAllAlike(t: Tree, m: Matcher, n: Matcher, i: nat, context: nat, e: nat, pivots: Pivots)
    requires t.Valid() && e < |t.nodes| && PivotsRight(t, pivots) && m.Every? && ButForNames(m, n) && i <= |m.all|
    ensures OutcomeOfAll(t, m, i, context, e, pivots) == OutcomeOfAll(t, n, i, context, e, pivots)
    decreases m, 0, i, 0
  {
    hide Tree.Valid, Outcome;
    if i > 0 {
      OutcomeAlike(t, m.all[i - 1], n.all[i - 1], context, e, pivots);
      OfAllAlike(t, m, n, i - 1, context, e, Outcome(t, m.all[i - 1], context, e, pivots).1);
    }
  }

  lemma {:induction false} AheadAlike(t: Tree, w: Matcher, v: Matcher, context: nat, e: nat, pivots: Pivots)
    requires t.Valid() && e < |t.nodes| && PivotsRight(t, pivots) && w.Walk? && ButForNames(w, v)
    ensures OutcomeAhead(t, w, context, e, pivots) == OutcomeAhead(t, v, context, e, pivots)
    decreases w, 0, Rank(t, w.combinator.Dir(), e), 0
  {
    hide Tree.Valid, OutcomeHere;
    var next := Step(t, w.combinator.Dir(), e);
    if next.Some? {
      HereAlike(t, w, v, context, next.value, pivots);
    }
  }

  lemma {:induction false} HereAlike(t: Tree, w: Matcher, v: Matcher, context: nat, x: nat, pivots: Pivots)
    requires t.Valid() && x < |t.nodes| && PivotsRight(t, pivots) && w.Walk? && ButForNames(w, v)
    ensures OutcomeHere(t, w, context, x, pivots) == OutcomeHere(t, v, context, x, pivots)
    decreases w, 0, Rank(t, w.combinator.Dir(), x), 1
  {
    hide Tree.Valid, OutcomeAhead, Outcome;
    if !Visits(t, w, x) {
      AheadAlike(t, w, v, context, x, pivots);
    } else {
      OutcomeAlike(t, w.inner, v.inner, context, x, pivots);
      AheadAlike(t, w, v, context, x, Outcome(t, w.inner, context, x, pivots).1);
    }
  }

  ghost predicate AllButForNames(ms: seq<Matcher>, ns: seq<Matcher>) {
    |ms| == |ns| && forall i :: 0 <= i < |ms| ==> ButForNames(ms[i], ns[i])
  }

  lemma {:induction false} OfAnyAlike(t: Tree, ms: seq<Matcher>, ns: seq<Matcher>, j: nat, context: nat, e: nat,
                                      pivots: Pivots)
    requires t.Valid() && e < |t.nodes| && PivotsRight(t, pivots) && AllButForNames(ms, ns) && j <= |ms|
    ensures OutcomeOfAny(t, ms, j, context, e, pivots) == OutcomeOfAny(t, ns, j, context, e, pivots)
    decreases |ms| - j
  {
    hide Outcome, ButForNames, Tree.Valid;
    if j < |ms| {
      OutcomeAlike(t, ms[j], ns[j], context, e, pivots);
      OfAnyAlike(t, ms, ns, j + 1, context, e, Outcome(t, ms[j], context, e, pivots).1);
    }
  }

  lemma {:induction false} ScanAlike(t: Tree, elems: seq<nat>, i: nat, ms: seq<Matcher>, ns: seq<Matcher>, context: nat,
                                     pivots: Pivots)
    requires t.Valid() && PivotsRight(t, pivots) && AllButForNames(ms, ns) && i <= |elems|
    ensures Scan(t, elems, i, ms, context, pivots) == Scan(t, elems, i, ns, context, pivots)
    decreases |elems| - i
  {
    hide OutcomeOfAny, AllButForNames, Tree.Valid;
    if i < |elems| && elems[i] < |t.nodes| {
      OfAnyAlike(t, ms, ns, 0, context, elems[i], pivots);
      ScanAlike(t, elems, i + 1, ms, ns, context, OutcomeOfAny(t, ms, 0, context, elems[i], pivots).1);
    }
  }
}
