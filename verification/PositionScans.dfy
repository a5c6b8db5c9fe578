/**
 The sibling positions that a run leaves behind for the nth pseudo-classes, and the scans that count them.
 */
module PositionScans {
  import opened Sequences
  import opened Dom
  import opened Selectors
  import opened NthChild
  import opened LastPositions

  /** What `:nth-child` leaves on a parent: the run, a child's index, and how many elements end there. */
  datatype NthEntry = NthEntry(run: nat, nodeIndex: nat, diff: nat)

  /** What `:nth-last-child` leaves on an element: the run and its position from the last. */
  datatype NthLastEntry = NthLastEntry(run: nat, diff: nat)

  ghost predicate ForwardRight(t: Tree, p: nat, c: NthEntry)
    requires t.Valid()
  {
    && p < |t.nodes|
    && c.nodeIndex < |t.nodes[p].kids|
    && c.diff == Count(t, p, false, t.nodes[p].kids[..c.nodeIndex + 1])
  }

  /** The remembered position is the one that the first tested sibling left there. */
  ghost predicate BackwardRight(t: Tree, pivots: Pivots, e: nat, c: NthLastEntry)
    requires t.Valid() && PivotsRight(t, pivots)
  {
    && e < |t.nodes|
    && t.nodes[e].parent.Some? && t.nodes[e].parent.value in pivots
    && c.diff == Answer(t, pivots[t.nodes[e].parent.value], e)
  }

  /**
   What the current run remembers: positions from the first child are right, those from the last are the
   answers that follow from which siblings were tested first.
   */
  ghost predicate Remembered(t: Tree, run: nat, nth: map<nat, NthEntry>, nthLast: map<nat, NthLastEntry>,
                             pivots: Pivots)
    requires t.Valid()
  {
    && PivotsRight(t, pivots)
    && (forall p :: p in pivots ==> t.IsElement(pivots[p]))
    && (forall p :: p in nth ==> nth[p].run <= run && (nth[p].run == run ==> ForwardRight(t, p, nth[p])))
    && (forall e :: e in nthLast ==>
          nthLast[e].run <= run && (nthLast[e].run == run ==> BackwardRight(t, pivots, e, nthLast[e])))
    && (forall e: nat :: t.IsElement(e) && t.nodes[e].parent.Some? && t.nodes[e].parent.value in pivots ==>
          e in nthLast && nthLast[e].run == run)
  }

  // ---------------------------------------------------------------- one scan from the last child

  /**
   The siblings that a scan begun at e has left a position on: down to index `first` before e, and from
   `second` on.
   */
  ghost predicate Marked(t: Tree, e: nat, first: nat, second: nat, x: nat)
    requires t.Valid()
  {
    && t.SameParent(e, x) && t.IsElement(x)
    && (first <= t.Position(x) < t.Position(e) || (second <= t.Position(x) && t.Position(e) <= t.Position(x)))
  }

  ghost predicate Swept(t: Tree, e: nat, run: nat, before: map<nat, NthLastEntry>, after: map<nat, NthLastEntry>,
                        first: nat, second: nat)
    requires t.Valid()
  {
    && (forall x :: x in after <==> x in before || Marked(t, e, first, second, x))
    && (forall x :: x in after ==>
          after[x] == if Marked(t, e, first, second, x) then NthLastEntry(run, Answer(t, e, x)) else before[x])
  }

  /** The scan has come to sibling x, next before those reached in its first or its second pass. */
  ghost predicate Reaches(t: Tree, e: nat, first: nat, second: nat, first': nat, second': nat, x: nat)
    requires t.Valid() && t.SameParent(e, x)
  {
    || (first == first' + 1 && second' == second && t.Position(x) == first' < t.Position(e))
    || (first' == first && second == second' + 1 && t.Position(x) == second' >= t.Position(e))
  }

  lemma MarkedOneMore(t: Tree, e: nat, first: nat, second: nat, first': nat, second': nat, x: nat, y: nat)
    requires t.Valid() && t.SameParent(e, x) && Reaches(t, e, first, second, first', second', x)
    ensures Marked(t, e, first', second', y) <==> Marked(t, e, first, second, y) || (y == x && t.IsElement(x))
  {
    if t.SameParent(e, y) && t.Position(y) == t.Position(x) {
      SamePosition(t, y, x);
    }
  }

  lemma SweepOn(t: Tree, e: nat, run: nat, before: map<nat, NthLastEntry>, after: map<nat, NthLastEntry>,
                first: nat, second: nat, first': nat, second': nat, x: nat)
    requires t.Valid() && t.SameParent(e, x) && Swept(t, e, run, before, after, first, second)
    requires Reaches(t, e, first, second, first', second', x)
    ensures Swept(t, e, run, before,
                  if t.IsElement(x) then after[x := NthLastEntry(run, Answer(t, e, x))] else after, first', second')
  {
    hide Marked, Answer, Tree.Valid, Reaches;
    forall y: nat
      ensures Marked(t, e, first', second', y) <==> Marked(t, e, first, second, y) || (y == x && t.IsElement(x))
    {
      MarkedOneMore(t, e, first, second, first', second', x, y);
    }
  }

  /** A scan that ends at e has left every element sibling the answer that follows from e. */
  lemma SweepEnds(t: Tree, e: nat, run: nat, nth: map<nat, NthEntry>, before: map<nat, NthLastEntry>,
                  after: map<nat, NthLastEntry>, pivots: Pivots)
    requires t.Valid() && t.IsElement(e) && t.nodes[e].parent.Some? && t.nodes[e].parent.value !in pivots
    requires Remembered(t, run, nth, before, pivots)
    requires Swept(t, e, run, before, after, 0, t.Position(e))
    ensures Remembered(t, run, nth, after, pivots[t.nodes[e].parent.value := e])
  {
    hide Answer, Tree.Valid, Tree.Position, ForwardRight;
    var more := pivots[t.nodes[e].parent.value := e];
    forall x | x in after ensures after[x].run <= run && (after[x].run == run ==> BackwardRight(t, more, x, after[x])) {
      SweptEntry(t, e, run, before, after, x);
      if !Marked(t, e, 0, t.Position(e), x) && after[x].run == run {
        assert BackwardRight(t, pivots, x, before[x]);
      }
    }
    forall x: nat | t.IsElement(x) && t.nodes[x].parent.Some? && t.nodes[x].parent.value in more
      ensures x in after && after[x].run == run
    {
      SweptEntry(t, e, run, before, after, x);
      assert t.nodes[x].parent == t.nodes[e].parent || (x in before && before[x].run == run);
    }
  }

  lemma SweptEntry(t: Tree, e: nat, run: nat, before: map<nat, NthLastEntry>, after: map<nat, NthLastEntry>, x: nat)
    requires t.Valid() && t.IsElement(e) && t.nodes[e].parent.Some?
    requires Swept(t, e, run, before, after, 0, t.Position(e))
    ensures Marked(t, e, 0, t.Position(e), x) <==> t.SameParent(e, x) && t.IsElement(x)
    ensures x in after <==> x in before || Marked(t, e, 0, t.Position(e), x)
    ensures x in after ==>
      after[x] == if Marked(t, e, 0, t.Position(e), x) then NthLastEntry(run, Answer(t, e, x)) else before[x]
  {
  }

  lemma PivotsOf(t: Tree, run: nat, nth: map<nat, NthEntry>, nthLast: map<nat, NthLastEntry>, pivots: Pivots)
    requires t.Valid() && Remembered(t, run, nth, nthLast, pivots)
    ensures PivotsRight(t, pivots) && forall p :: p in pivots ==> t.IsElement(pivots[p])
  {
  }

  // ---------------------------------------------------------------- single tests

  lemma PlainTest(t: Tree, e: nat, test: Test, pivots: Pivots)
    requires t.Valid() && PivotsRight(t, pivots) && e < |t.nodes| && !CountsFromLast(test)
    ensures HoldsIn(t, e, test, pivots) == Holds(t, e, test) && Tested(t, e, test, pivots) == pivots
  {
  }

  /** What is found on an element is what its parent's first test left there. */
  lemma RememberedAnswer(t: Tree, run: nat, nth: map<nat, NthEntry>, nthLast: map<nat, NthLastEntry>, pivots: Pivots,
                         e: nat)
    requires t.Valid() && Remembered(t, run, nth, nthLast, pivots) && t.IsElement(e) && t.nodes[e].parent.Some?
    ensures e in nthLast && nthLast[e].run == run ==> nthLast[e].diff == Answered(t, pivots, e)
    ensures (e in nthLast && nthLast[e].run == run) <==> t.nodes[e].parent.value in pivots
    ensures t.nodes[e].parent.value !in pivots ==> Answered(t, pivots, e) == IndexAmong(t, e, false, true)
  {
  }

  /** What a child test comes to, in each of its cases. */
  lemma ChildTestMeaning(t: Tree, e: nat, test: Test, pivots: Pivots)
    requires t.Valid() && t.IsElement(e) && PivotsRight(t, pivots) && test.ChildTest?
    ensures var parent, kind := t.nodes[e].parent, test.kind;
      && (kind != Nth && kind != NthLast ==>
            HoldsIn(t, e, test, pivots) == ChildHolds(t, e, kind, test.ofType, 0, 0))
      && ((kind == Nth || kind == NthLast) && test.a == 1 && test.b == 0 ==>
            HoldsIn(t, e, test, pivots) == parent.Some?)
      && (parent.None? ==> !HoldsIn(t, e, test, pivots))
      && ((kind == Nth || kind == NthLast) && !CountsFromLast(test) && parent.Some? ==>
            HoldsIn(t, e, test, pivots) ==
            InProgression(test.a, test.b, IndexAmong(t, e, test.ofType, kind == NthLast)))
      && (CountsFromLast(test) && parent.Some? ==>
            HoldsIn(t, e, test, pivots) == InProgression(test.a, test.b, Answered(t, pivots, e)))
    ensures Tested(t, e, test, pivots) ==
            if CountsFromLast(test) && t.nodes[e].parent.Some? && t.nodes[e].parent.value !in pivots
            then pivots[t.nodes[e].parent.value := e] else pivots
  {
    hide Answered, IndexAmong, Tree.Valid;
    if (test.kind == Nth || test.kind == NthLast) && test.a == 1 && test.b == 0 && t.nodes[e].parent.Some? {
      var position := IndexAmong(t, e, test.ofType, test.kind == NthLast);
      assert 1 * position + 0 == position;
      assert InProgression(1, 0, position);
    }
  }

  lemma NotSwept(t: Tree, e: nat, run: nat, nthLast: map<nat, NthLastEntry>)
    requires t.Valid() && e < |t.nodes| && t.nodes[e].parent.Some?
    ensures Swept(t, e, run, nthLast, nthLast, t.Position(e), |Siblings(t, e)|)
  {
    forall x: nat ensures !Marked(t, e, t.Position(e), |Siblings(t, e)|, x) {
      if t.SameParent(e, x) {
        assert t.Position(x) < |Siblings(t, x)|;
      }
    }
  }

  /** One sibling in front of those counted. */
  lemma CountFirst(t: Tree, e: nat, x: nat, ks: seq<nat>)
    ensures Count(t, e, false, [x] + ks) == Count(t, e, false, ks) + if Counts(t, e, false, x) then 1 else 0
  {
    CountAppend(t, e, false, [x], ks);
    assert [x][..0] == [];
  }

  /** What a scan begun at e counts up to its sibling at index i is the answer for that sibling. */
  lemma AnswerAt(t: Tree, e: nat, x: nat, i: nat)
    requires t.Valid() && t.SameParent(e, x) && t.Position(x) == i && e < |t.nodes|
    ensures var ks := Siblings(t, e);
      Answer(t, e, x) == Count(t, e, false, if i < t.Position(e) then ks[i..t.Position(e)] else ks[i..])
  {
    var ks := Siblings(t, e);
    CountElements(t, e, x, if i < t.Position(e) then ks[i..t.Position(e)] else ks[i..]);
  }

  // ---------------------------------------------------------------- the scan that resumes on the parent

  /** The scan from the first child stands at index i, unless it is about to start over, and has counted up to there. */
  ghost predicate Resumed(t: Tree, e: nat, restarts: int, i: nat, node: Option<nat>, diff: nat, found: bool)
    requires t.Valid() && t.IsElement(e) && t.nodes[e].parent.Some?
  {
    var kids, place := Siblings(t, e), t.Position(e);
    && (node.Some? ==> i < |kids| && node.value == kids[i] && diff == Count(t, e, false, kids[..i + 1]))
    && (restarts == 0 && !found ==> node.Some? && i < place)
    && (found ==> node == Some(e) && i == place)
  }

  /** A scan begins with what is remembered on the parent. */
  lemma ResumesAt(t: Tree, e: nat, run: nat, nth: map<nat, NthEntry>, nthLast: map<nat, NthLastEntry>, pivots: Pivots)
    requires t.Valid() && t.IsElement(e) && t.nodes[e].parent.Some? && Remembered(t, run, nth, nthLast, pivots)
    ensures var p, kids := t.nodes[e].parent.value, Siblings(t, e);
      var i := if p in nth && nth[p].run == run then nth[p].nodeIndex else 0;
      && i < |kids| && kids[i] < |t.nodes|
      && Resumed(t, e, 1, i, if i != 0 then Some(kids[i]) else None, if i != 0 then nth[p].diff else 0, false)
  {
    hide Count;
    var p, kids := t.nodes[e].parent.value, Siblings(t, e);
    assert t.LinkedUp(e) && t.LinkedDown(p);
    OwnPlace(t, e, false);
    var i := if p in nth && nth[p].run == run then nth[p].nodeIndex else 0;
    SiblingLinks(t, p, i);
    CountElements(t, e, p, kids[..i + 1]);
  }

  /** Where the scan goes next: along the link, or back to the first child. */
  lemma ResumedNext(t: Tree, e: nat, restarts: int, i: nat, node: Option<nat>, diff: nat)
    requires t.Valid() && t.IsElement(e) && t.nodes[e].parent.Some? && Resumed(t, e, restarts, i, node, diff, false)
    ensures var kids := Siblings(t, e);
      && (node.Some? ==> i < |kids| && node.value < |t.nodes|)
      && var next := if node.Some? then t.NextSibling(node.value) else None;
         var i' := if next.Some? then i + 1 else 0;
      && (next.None? ==> restarts != 0) && i' < |kids| && kids[i'] < |t.nodes|
      && (next.Some? ==> node.Some? && next.value == kids[i'])
      && t.Position(kids[i']) == i' && t.Position(e) < |kids| && kids[t.Position(e)] == e
  {
    hide Count;
    var p, kids := t.nodes[e].parent.value, Siblings(t, e);
    OwnPlace(t, e, false);
    if node.Some? { SiblingLinks(t, p, i); }
    var next := if node.Some? then t.NextSibling(node.value) else None;
    SiblingLinks(t, p, if next.Some? then i + 1 else 0);
  }

  lemma ResumedStep(t: Tree, e: nat, restarts: int, i: nat, node: Option<nat>, diff: nat)
    requires t.Valid() && t.IsElement(e) && t.nodes[e].parent.Some? && Resumed(t, e, restarts, i, node, diff, false)
    ensures var kids := Siblings(t, e);
      && (node.Some? ==> i < |kids| && node.value < |t.nodes|)
      && var next := if node.Some? then t.NextSibling(node.value) else None;
         var i' := if next.Some? then i + 1 else 0;
      && (next.None? ==> restarts != 0) && i' < |kids| && kids[i'] < |t.nodes|
      && (next.Some? ==> next.value == kids[i'])
      && Resumed(t, e, if next.None? then restarts - 1 else restarts, i', Some(kids[i']),
                 (if next.None? then 0 else diff) + (if t.IsElement(kids[i']) then 1 else 0), kids[i'] == e)
  {
    hide Count, Tree.Valid, Tree.Position, Tree.NextSibling;
    ResumedNext(t, e, restarts, i, node, diff);
    var kids, next := Siblings(t, e), if node.Some? then t.NextSibling(node.value) else None;
    CountOneMore(t, e, false, kids, if next.Some? then i + 1 else 0);
    assert kids[..0] == [];
    NoneCounted(t, e);
  }

  lemma NoneCounted(t: Tree, e: nat)
    ensures Count(t, e, false, []) == 0
  {
  }

  /** When the element is found its position has been counted, and may be remembered. */
  lemma ResumedEnds(t: Tree, e: nat, restarts: int, i: nat, node: Option<nat>, diff: nat, run: nat,
                    nth: map<nat, NthEntry>, nthLast: map<nat, NthLastEntry>, pivots: Pivots)
    requires t.Valid() && t.IsElement(e) && t.nodes[e].parent.Some? && Resumed(t, e, restarts, i, node, diff, true)
    requires Remembered(t, run, nth, nthLast, pivots)
    ensures diff == IndexAmong(t, e, false, false)
    ensures Remembered(t, run, nth[t.nodes[e].parent.value := NthEntry(run, i, diff)], nthLast, pivots)
  {
    hide Count, BackwardRight;
    var p, kids := t.nodes[e].parent.value, Siblings(t, e);
    OwnPlace(t, e, false);
    CountElements(t, e, p, kids[..i + 1]);
  }

  // ---------------------------------------------------------------- the scan that counts from an end

  /** The link of a scan; it has none before it has come to a node. */
  function Link(t: Tree, forward: bool, node: Option<nat>): Option<nat>
    requires t.Valid() && (node.Some? ==> node.value < |t.nodes|)
  {
    if node.None? then None else if forward then t.NextSibling(node.value) else t.PreviousSibling(node.value)
  }

  /** Where the scan goes from index i: along its link, or back to the end it counts from. */
  ghost function Moved(n: nat, forward: bool, restarts: int, i: nat, node: Option<nat>): (int, nat)
    requires i < n
  {
    if node.None? || i == (if forward then n - 1 else 0) then (restarts - 1, if forward then 0 else n - 1)
    else (restarts, if forward then i + 1 else i - 1)
  }

  /** How far back the first pass has come, and how far back the second. */
  ghost function FirstPass(restarts: int, i: nat): nat {
    if restarts == 1 then i else 0
  }

  ghost function SecondPass(n: nat, restarts: int, i: nat): nat {
    if restarts == 1 then n else i
  }

  /** The scan is at index i, has not come to e, and has counted so far. */
  ghost predicate Scanning(t: Tree, e: nat, forward: bool, ofType: bool, restarts: int, i: nat, node: Option<nat>,
                           diff: nat)
    requires t.Valid() && e < |t.nodes| && t.nodes[e].parent.Some?
  {
    var kids, place := Siblings(t, e), t.Position(e);
    && 0 <= restarts <= 1 && i < |kids| && (node.Some? ==> node.value == kids[i]) && (!ofType ==> !forward)
    && (node.None? <==> restarts == 1 && ofType)
    && (restarts == 1 ==> diff == 0 || !ofType)
    && (restarts == 1 && !ofType ==> i <= place && diff == Count(t, e, false, kids[i..place]))
    && (restarts == 0 ==> if forward then i < place else place < i)
    && (restarts == 0 ==> diff == Count(t, e, ofType, if forward then kids[..i + 1] else kids[i..]))
  }

  lemma ScanBegins(t: Tree, e: nat, forward: bool, ofType: bool)
    requires t.Valid() && e < |t.nodes| && t.nodes[e].parent.Some? && (!ofType ==> !forward)
    ensures Scanning(t, e, forward, ofType, 1, t.Position(e), if ofType then None else Some(e), 0)
  {
    var kids, place := Siblings(t, e), t.Position(e);
    assert kids[place..place] == [];
  }

  /** What has been counted when the scan comes to the sibling at index i. */
  ghost function Counted(t: Tree, e: nat, forward: bool, ofType: bool, restarts: int, i: nat): nat
    requires t.Valid() && e < |t.nodes| && t.nodes[e].parent.Some? && i < |Siblings(t, e)|
    requires restarts == 1 ==> i <= t.Position(e)
  {
    var kids := Siblings(t, e);
    if restarts == 1 then Count(t, e, false, kids[i..t.Position(e)])
    else Count(t, e, ofType, if forward then kids[..i + 1] else kids[i..])
  }

  /** One step of the scan: where it comes to. */
  lemma ScanComesTo(t: Tree, e: nat, forward: bool, ofType: bool, restarts: int, i: nat, node: Option<nat>, diff: nat)
    requires t.Valid() && t.IsElement(e) && t.nodes[e].parent.Some?
    requires Scanning(t, e, forward, ofType, restarts, i, node, diff)
    ensures var kids := Siblings(t, e);
      var (restarts', i') := Moved(|kids|, forward, restarts, i, node);
      && 0 <= restarts' && i' < |kids| && kids[i'] < |t.nodes|
      && (node.Some? ==> node.value < |t.nodes|)
      && Link(t, forward, node) == (if restarts' == restarts then Some(kids[i']) else None)
      && (restarts' == 1 ==> i' < t.Position(e))
      && (restarts' == 0 ==> if forward then i' <= t.Position(e) else t.Position(e) <= i')
      && (kids[i'] == e <==> i' == t.Position(e))
  {
    hide Count, Counts;
    var p, kids := t.nodes[e].parent.value, Siblings(t, e);
    OwnPlace(t, e, ofType);
    var (restarts', i') := Moved(|kids|, forward, restarts, i, node);
    SiblingLinks(t, p, i);
    SiblingLinks(t, p, i');
    hide Tree.Valid, Tree.Position, Tree.NextSibling, Tree.PreviousSibling;
  }

  /** What it has counted there. */
  lemma ScanCounts(t: Tree, e: nat, forward: bool, ofType: bool, restarts: int, i: nat, node: Option<nat>, diff: nat)
    requires t.Valid() && t.IsElement(e) && t.nodes[e].parent.Some?
    requires Scanning(t, e, forward, ofType, restarts, i, node, diff)
    ensures var kids := Siblings(t, e);
      var (restarts', i') := Moved(|kids|, forward, restarts, i, node);
      && i' < |kids| && 0 <= restarts' && (restarts' == 1 ==> i' < t.Position(e))
      && (if restarts' == restarts then diff else 0) + (if Counts(t, e, ofType, kids[i']) then 1 else 0) ==
         Counted(t, e, forward, ofType, restarts', i')
  {
    hide Count, Counts;
    var kids, place := Siblings(t, e), t.Position(e);
    OwnPlace(t, e, ofType);
    var (restarts', i') := Moved(|kids|, forward, restarts, i, node);
    hide Tree.Valid, Tree.Position;
    CountOneMore(t, e, ofType, kids, i');
    if restarts' == 1 {
      assert kids[i'..place] == [kids[i']] + kids[i' + 1..place];
      CountFirst(t, e, kids[i'], kids[i' + 1..place]);
    } else if restarts == 1 {
      assert kids[..0] == [] && kids[|kids|..] == [];
    }
  }

  lemma ScanMoves(t: Tree, e: nat, forward: bool, ofType: bool, restarts: int, i: nat, node: Option<nat>, diff: nat)
    requires t.Valid() && t.IsElement(e) && t.nodes[e].parent.Some?
    requires Scanning(t, e, forward, ofType, restarts, i, node, diff)
    ensures var kids := Siblings(t, e);
      var (restarts', i') := Moved(|kids|, forward, restarts, i, node);
      var diff' := (if restarts' == restarts then diff else 0) + (if Counts(t, e, ofType, kids[i']) then 1 else 0);
      && 0 <= restarts' && i' < |kids| && kids[i'] < |t.nodes|
      && (node.Some? ==> node.value < |t.nodes|)
      && Link(t, forward, node) == (if restarts' == restarts then Some(kids[i']) else None)
      && (restarts' == 1 ==> i' < t.Position(e)) && diff' == Counted(t, e, forward, ofType, restarts', i')
      && (kids[i'] == e ==> restarts' == 0 && i' == t.Position(e) && Counts(t, e, ofType, e))
      && (kids[i'] == e ==> diff' == IndexAmong(t, e, ofType, !forward))
      && (kids[i'] != e ==> Scanning(t, e, forward, ofType, restarts', i', Some(kids[i']), diff'))
  {
    hide Count, Counts, Tree.Valid, Tree.Position, Link;
    ScanComesTo(t, e, forward, ofType, restarts, i, node, diff);
    ScanCounts(t, e, forward, ofType, restarts, i, node, diff);
    OwnPlace(t, e, ofType);
  }

  /** The same step leaves a position on the sibling it comes to, if that is an element. */
  lemma SweepMoves(t: Tree, e: nat, run: nat, before: map<nat, NthLastEntry>, after: map<nat, NthLastEntry>,
                   restarts: int, i: nat, node: Option<nat>, diff: nat)
    requires t.Valid() && t.IsElement(e) && t.nodes[e].parent.Some?
    requires Scanning(t, e, false, false, restarts, i, node, diff)
    requires Swept(t, e, run, before, after, FirstPass(restarts, i), SecondPass(|Siblings(t, e)|, restarts, i))
    ensures var kids := Siblings(t, e);
      var (restarts', i') := Moved(|kids|, false, restarts, i, node);
      var entry := NthLastEntry(run, (if restarts' == restarts then diff else 0) + 1);
      && i' < |kids| && 0 <= restarts'
      && Swept(t, e, run, before, if Counts(t, e, false, kids[i']) then after[kids[i'] := entry] else after,
               FirstPass(restarts', i'), SecondPass(|kids|, restarts', i'))
  {
    hide Count, Swept;
    var p, kids := t.nodes[e].parent.value, Siblings(t, e);
    assert t.LinkedUp(e) && t.LinkedDown(p);
    var (restarts', i') := Moved(|kids|, false, restarts, i, node);
    ScanMoves(t, e, false, false, restarts, i, node, diff);
    SiblingLinks(t, p, i');
    var x := kids[i'];
    hide Tree.Valid, Tree.Position, Scanning;
    AnswerAt(t, e, x, i');
    ReachedPlace(t, e, restarts, i, node, diff);
    SweepOn(t, e, run, before, after, FirstPass(restarts, i), SecondPass(|kids|, restarts, i),
            FirstPass(restarts', i'), SecondPass(|kids|, restarts', i'), x);
  }

  /** In its second pass the scan does not go beyond e. */
  lemma ReachedPlace(t: Tree, e: nat, restarts: int, i: nat, node: Option<nat>, diff: nat)
    requires t.Valid() && t.IsElement(e) && t.nodes[e].parent.Some?
    requires Scanning(t, e, false, false, restarts, i, node, diff)
    ensures var (restarts', i') := Moved(|Siblings(t, e)|, false, restarts, i, node);
      (restarts' == 0 ==> t.Position(e) <= i') && (restarts' == 1 ==> i == i' + 1 && i' < t.Position(e))
  {
  }
}
