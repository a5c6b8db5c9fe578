/** Counting siblings, and the an+b test of the nth pseudo-classes. */
module NthChild {
  import opened Sequences
  import opened Dom
  import opened Selectors

  lemma {:induction false} CountAppend(t: Tree, e: nat, ofType: bool, a: seq<nat>, b: seq<nat>)
    ensures Count(t, e, ofType, a + b) == Count(t, e, ofType, a) + Count(t, e, ofType, b)
  {
    if b == [] {
      assert a + b == a;
    } else {
      assert (a + b)[..|a + b| - 1] == a + b[..|b| - 1];
      CountAppend(t, e, ofType, a, b[..|b| - 1]);
    }
  }

  /** Counting one sibling more at the end of a scan from the first, or from the last. */
  lemma CountOneMore(t: Tree, e: nat, ofType: bool, ks: seq<nat>, i: nat)
    requires i < |ks|
    ensures Count(t, e, ofType, ks[..i + 1]) ==
            Count(t, e, ofType, ks[..i]) + if Counts(t, e, ofType, ks[i]) then 1 else 0
    ensures Count(t, e, ofType, ks[i..]) ==
            Count(t, e, ofType, ks[i + 1..]) + if Counts(t, e, ofType, ks[i]) then 1 else 0
  {
    assert ks[..i + 1][..i] == ks[..i];
    assert ks[i..] == [ks[i]] + ks[i + 1..];
    CountAppend(t, e, ofType, [ks[i]], ks[i + 1..]);
    assert [ks[i]][..0] == [];
  }

  /** Among elements of any type the count does not depend on whose position it is. */
  lemma {:induction false} CountElements(t: Tree, e: nat, f: nat, ks: seq<nat>)
    requires e < |t.nodes| && f < |t.nodes|
    ensures Count(t, e, false, ks) == Count(t, f, false, ks)
  {
    if ks != [] {
      CountElements(t, e, f, ks[..|ks| - 1]);
    }
  }

  /** Where e stands in its parent's child list. */
  lemma OwnPlace(t: Tree, e: nat, ofType: bool)
    requires t.Valid() && e < |t.nodes| && t.nodes[e].parent.Some?
    ensures var p := t.nodes[e].parent.value;
      && p < |t.nodes|
      && Siblings(t, e) == t.nodes[p].kids
      && t.Position(e) < |t.nodes[p].kids| && t.nodes[p].kids[t.Position(e)] == e
    ensures Count(t, e, ofType, []) == 0
    ensures t.IsElement(e) ==> Counts(t, e, ofType, e)
  {
    assert t.LinkedUp(e) && t.LinkedDown(t.nodes[e].parent.value);
  }

  /** A count is zero exactly when nothing in the list counts. */
  lemma {:induction false} CountZero(t: Tree, e: nat, ofType: bool, ks: seq<nat>)
    ensures Count(t, e, ofType, ks) == 0 <==> forall i :: 0 <= i < |ks| ==> !Counts(t, e, ofType, ks[i])
  {
    if ks != [] {
      CountZero(t, e, ofType, ks[..|ks| - 1]);
      assert forall i :: 0 <= i < |ks| - 1 ==> ks[..|ks| - 1][i] == ks[i];
    }
  }

  /** e has position 1 exactly when nothing that counts stands between it and its end of the list. */
  lemma PositionOne(t: Tree, e: nat, ofType: bool, fromLast: bool)
    requires t.Valid() && t.IsElement(e) && t.nodes[e].parent.Some?
    ensures var ks, p := Siblings(t, e), t.Position(e);
      IndexAmong(t, e, ofType, fromLast) == 1 <==>
      forall i :: (if fromLast then p < i < |ks| else 0 <= i < p) ==> !Counts(t, e, ofType, ks[i])
  {
    hide Counts, Count, Tree.Valid, Tree.Position;
    var ks, p := Siblings(t, e), t.Position(e);
    OwnPlace(t, e, ofType);
    CountOneMore(t, e, ofType, ks, p);
    if fromLast {
      var after := ks[p + 1..];
      CountZero(t, e, ofType, after);
      assert forall i :: 0 <= i < |after| ==> after[i] == ks[i + p + 1];
      assert forall i :: p < i < |ks| ==> ks[i] == after[i - p - 1];
    } else {
      var before := ks[..p];
      CountZero(t, e, ofType, before);
      assert forall i :: 0 <= i < p ==> before[i] == ks[i];
    }
  }

  /** The test on the counted position, written as the code computes it. */
  predicate CycleTest(a: int, b: int, index: int) {
    var diff := index - b;
    diff == a || (a != 0 && diff % a == 0 && diff / a >= 0)
  }

  /** It holds exactly when some n >= 0 gives a*n + b == index, for zero and negative a too. */
  lemma CycleTestMeaning(a: int, b: int, index: int)
    ensures CycleTest(a, b, index) <==> InProgression(a, b, index)
  {
    if CycleTest(a, b, index) {
      TestSoundly(a, b, index);
    }
    if InProgression(a, b, index) {
      var n: nat :| a * n + b == index;
      if a != 0 {
        MultipleDivides(n, a);
        assert index - b == n * a;
      }
    }
  }

  lemma TestSoundly(a: int, b: int, index: int)
    requires CycleTest(a, b, index)
    ensures InProgression(a, b, index)
  {
    var diff := index - b;
    if a == 0 {
      assert a * 0 + b == index;
    } else if diff == a {
      assert a * 1 + b == index;
    } else {
      var n: nat := diff / a;
      assert a * n + b == index;
    }
  }

  lemma MultipleDivides(n: int, a: int)
    requires a != 0
    ensures (n * a) % a == 0 && (n * a) / a == n
  {
    var q, r := (n * a) / a, (n * a) % a;
    assert n * a == q * a + r && 0 <= r;
    assert (n - q) * a == r;
    if n != q && a > 0 {
      ProductAtLeast(n - q, a);
    } else if n != q {
      assert (n - q) * a == (q - n) * -a;
      ProductAtLeast(q - n, -a);
    }
  }

  lemma {:induction false} ProductAtLeast(k: int, a: int)
    requires k != 0 && a > 0
    ensures if k > 0 then k * a >= a else k * a <= -a
    decreases if k < 0 then -k else k
  {
    if k > 1 {
      ProductAtLeast(k - 1, a);
    } else if k < -1 {
      ProductAtLeast(k + 1, a);
    }
  }

  // ---------------------------------------------------------------- what of-type counts

  /** The siblings that Selectors Level 3, section 6.6.5, counts: elements, and of e's type when asked. */
  predicate Alike(t: Tree, e: nat, ofType: bool, x: nat) {
    t.IsElement(x) && Counts(t, e, ofType, x)
  }

  ghost function CountAlike(t: Tree, e: nat, ofType: bool, ks: seq<nat>): nat {
    if ks == [] then 0
    else CountAlike(t, e, ofType, ks[..|ks| - 1]) + if Alike(t, e, ofType, ks[|ks| - 1]) then 1 else 0
  }

  lemma {:induction false} CountExtra(t: Tree, e: nat, ofType: bool, ks: seq<nat>)
    ensures Count(t, e, ofType, ks) >= CountAlike(t, e, ofType, ks)
    ensures Count(t, e, ofType, ks) == CountAlike(t, e, ofType, ks) <==>
      forall i :: 0 <= i < |ks| && Counts(t, e, ofType, ks[i]) ==> t.IsElement(ks[i])
  {
    hide Counts;
    if ks != [] {
      var front := ks[..|ks| - 1];
      CountExtra(t, e, ofType, front);
      assert forall i :: 0 <= i < |front| ==> front[i] == ks[i];
    }
  }

  /** The siblings from e to its end of the list. */
  function Outward(t: Tree, e: nat, fromLast: bool): seq<nat>
    requires t.Valid() && e < |t.nodes| && t.nodes[e].parent.Some?
  {
    if fromLast then Siblings(t, e)[t.Position(e)..] else Siblings(t, e)[..t.Position(e) + 1]
  }

  /**
   The of-type forms compare names without asking for an element, so the counted position is the
   standard's exactly when no counted sibling is something else. The plain forms are always right.
   */
  lemma PositionIsStandard(t: Tree, e: nat, ofType: bool, fromLast: bool)
    requires t.Valid() && e < |t.nodes| && t.nodes[e].parent.Some?
    ensures IndexAmong(t, e, ofType, fromLast) == CountAlike(t, e, ofType, Outward(t, e, fromLast)) <==>
      forall x :: x in Outward(t, e, fromLast) && Counts(t, e, ofType, x) ==> t.IsElement(x)
    ensures !ofType ==>
      IndexAmong(t, e, ofType, fromLast) == CountAlike(t, e, ofType, Outward(t, e, fromLast))
  {
    CountExtra(t, e, ofType, Outward(t, e, fromLast));
  }

  /** A document with a doctype and its root element, which have one name. */
  ghost function WithDoctype(): Tree {
    Tree([Node(Document, None, [1, 2], "#document", None, {}, map[]),
          Node(Other, Some(0), [], "html", None, {}, map[]),
          Node(Element, Some(0), [], "html", None, {}, map[])], 0)
  }

  lemma DoctypeTreeValid()
    ensures WithDoctype().Valid()
  {
    var t := WithDoctype();
    assert t.LinkedUp(0) && t.LinkedDown(0) && t.LinkedUp(1) && t.LinkedDown(1) && t.LinkedUp(2) && t.LinkedDown(2);
  }

  lemma DoctypeCounts(t: Tree)
    requires t == WithDoctype()
    ensures Count(t, 2, true, [1, 2]) == 2 && CountAlike(t, 2, true, [1, 2]) == 1
  {
    var ks: seq<nat>, front: seq<nat> := [1, 2], [1];
    assert ks[..|ks| - 1] == front && front[..|front| - 1] == [];
    var doctypeCounts, rootCounts := Counts(t, 2, true, 1), Counts(t, 2, true, 2);
    assert doctypeCounts && rootCounts && !t.IsElement(1) && t.IsElement(2);
    assert Count(t, 2, true, ks) == Count(t, 2, true, front) + 1 == Count(t, 2, true, []) + 2;
    assert CountAlike(t, 2, true, ks) == CountAlike(t, 2, true, front) + 1 == CountAlike(t, 2, true, []) + 1;
  }

  /** A doctype is named like the root element, which is then not the first of its type. */
  lemma DoctypeIsCounted()
    ensures var t := WithDoctype();
      && t.Valid() && t.IsElement(2) && t.nodes[2].parent.Some?
      && CountAlike(t, 2, true, Outward(t, 2, false)) == 1
      && !ChildHolds(t, 2, First, true, 0, 0)
  {
    hide Tree.Valid, Count, CountAlike, Tree.Position;
    var t := WithDoctype();
    DoctypeTreeValid();
    DoctypeCounts(t);
    PositionOfKid(t, 0, 1);
    var ks: seq<nat> := [1, 2];
    assert Siblings(t, 2) == ks && t.Position(2) == 1;
    assert ks[..2] == ks;
  }
}
