/**
 What `:nth-last-child` answers when positions are remembered on the elements. A test that finds nothing
 remembered first walks back from the element and leaves wrong positions on its earlier siblings, so
 whether a later answer is right depends on which sibling was tested first.
 */
module LastPositions {
  import opened Sequences
  import opened Dom
  import opened Selectors
  import opened NthChild

  /** For each parent, its first child that was tested in this run. */
  type Pivots = map<nat, nat>

  /** The tests that use the remembered positions: `:nth-last-child`, except for the shortcut `(n)`. */
  predicate CountsFromLast(test: Test) {
    test.ChildTest? && test.kind == NthLast && !test.ofType && !(test.a == 1 && test.b == 0)
  }

  ghost predicate PivotsRight(t: Tree, pivots: Pivots) {
    forall p :: p in pivots ==> pivots[p] < |t.nodes| && t.nodes[pivots[p]].parent == Some(p)
  }

  // ---------------------------------------------------------------- one position

  /** The position of x when its sibling `pivot` was tested first: only as far as the pivot if x stands before it. */
  ghost function Answer(t: Tree, pivot: nat, x: nat): nat
    requires t.Valid() && t.SameParent(pivot, x)
  {
    var ks, i, k := Siblings(t, x), t.Position(x), t.Position(pivot);
    Count(t, x, false, if i < k then ks[i..k] else ks[i..])
  }

  /** The position that a test of e goes by. */
  ghost function Answered(t: Tree, pivots: Pivots, e: nat): nat
    requires t.Valid() && PivotsRight(t, pivots) && e < |t.nodes| && t.nodes[e].parent.Some?
  {
    var p := t.nodes[e].parent.value;
    if p in pivots then Answer(t, pivots[p], e) else IndexAmong(t, e, false, true)
  }

  /** The first test below e's parent was of a later sibling of e. */
  ghost predicate Passed(t: Tree, pivots: Pivots, e: nat)
    requires t.Valid() && PivotsRight(t, pivots) && e < |t.nodes| && t.nodes[e].parent.Some?
  {
    var p := t.nodes[e].parent.value;
    p in pivots && t.Position(e) < t.Position(pivots[p])
  }

  /** The answer is right if and only if no later sibling was the first to be tested. */
  lemma AnsweredExactly(t: Tree, pivots: Pivots, e: nat)
    requires t.Valid() && PivotsRight(t, pivots) && t.IsElement(e) && t.nodes[e].parent.Some?
    requires forall p :: p in pivots ==> t.IsElement(pivots[p])
    ensures Answered(t, pivots, e) == IndexAmong(t, e, false, true) <==> !Passed(t, pivots, e)
  {
    if Passed(t, pivots, e) {
      var ks, i, pivot := Siblings(t, e), t.Position(e), pivots[t.nodes[e].parent.value];
      var k := t.Position(pivot);
      assert ks[i..] == ks[i..k] + ks[k..] && ks[k] == pivot;
      CountAppend(t, e, false, ks[i..k], ks[k..]);
      CountOneMore(t, e, false, ks, k);
    }
  }

  /** What a test answers, and which siblings have been tested first after it. */
  ghost predicate HoldsIn(t: Tree, e: nat, test: Test, pivots: Pivots)
    requires t.Valid() && PivotsRight(t, pivots) && e < |t.nodes|
  {
    if CountsFromLast(test) then t.nodes[e].parent.Some? && InProgression(test.a, test.b, Answered(t, pivots, e))
    else Holds(t, e, test)
  }

  ghost function Tested(t: Tree, e: nat, test: Test, pivots: Pivots): (r: Pivots)
    requires e < |t.nodes| && PivotsRight(t, pivots)
    ensures PivotsRight(t, r)
  {
    match t.nodes[e].parent
    case None => pivots
    case Some(p) => if CountsFromLast(test) && p !in pivots then pivots[p := e] else pivots
  }

  // ---------------------------------------------------------------- later tests

  /** What has been tested stays tested. */
  ghost predicate Grown(before: Pivots, after: Pivots) {
    forall p :: p in before ==> p in after && after[p] == before[p]
  }

  lemma GrownTwice(a: Pivots, b: Pivots, c: Pivots)
    requires Grown(a, b) && Grown(b, c)
    ensures Grown(a, c)
  {
  }

  /** A test that has been made is answered alike ever after, and leaves nothing new. */
  lemma TestSettled(t: Tree, e: nat, test: Test, before: Pivots, now: Pivots)
    requires t.Valid() && PivotsRight(t, before) && PivotsRight(t, now) && e < |t.nodes|
    requires Grown(Tested(t, e, test, before), now)
    ensures HoldsIn(t, e, test, now) == HoldsIn(t, e, test, before) && Tested(t, e, test, now) == now
  {
    if CountsFromLast(test) && t.nodes[e].parent.Some? {
      var p := t.nodes[e].parent.value;
      if p !in before {
        assert now[p] == e;
      }
    }
  }

  lemma TestGrows(t: Tree, e: nat, test: Test, pivots: Pivots)
    requires t.Valid() && PivotsRight(t, pivots) && e < |t.nodes|
    ensures Grown(pivots, Tested(t, e, test, pivots))
  {
  }
}
