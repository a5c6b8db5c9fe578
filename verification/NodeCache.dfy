/**
 The combinator caches of one run: slots on the nodes, one per direction, that refer to arrays
 shared by all the nodes a walk has passed.
 */
module NodeCache {
  import opened Sequences
  import opened Dom
  import opened Selectors
  import opened LastPositions
  import opened Outcomes

  /** The array [dirruns, doneName, result]. */
  datatype Cell = Cell(run: nat, name: nat, result: Option<bool>)

  /** Nodes of one walk share a cell, so a slot holds the cell's number. */
  type Slots = map<(nat, Direction), nat>

  /** One run: the tree, the closures by name, the context node and the run's number. */
  datatype Run = Run(t: Tree, reg: map<nat, Matcher>, context: nat, number: nat)

  /** What a walk answers, and what has been tested in the run then. */
  type Answer = (bool, Pivots)

  /** At node x, with all that has been tested by then, the walk gives just this answer. */
  ghost predicate IsAnswer(r: Run, w: Matcher, x: nat, answer: Answer)
    requires r.t.Valid() && w.Walk?
  {
    x < |r.t.nodes| && PivotsRight(r.t, answer.1) && OutcomeHere(r.t, w, r.context, x, answer.1) == answer
  }

  ghost predicate InRange(number: nat, cells: seq<Cell>, slots: Slots) {
    forall k :: k in slots ==> slots[k] < |cells| && cells[slots[k]].run <= number
  }

  /** A finished slot answers for "this node, or one further along" of the walk that it names. */
  ghost predicate Finished(r: Run, pivots: Pivots, k: (nat, Direction), c: Cell)
    requires r.t.Valid()
  {
    && c.name in r.reg
    && var w := r.reg[c.name];
    && w.Walk? && w.combinator.Dir() == k.1 && !w.combinator.First()
    && c.result.Some? && IsAnswer(r, w, k.0, (c.result.value, pivots))
  }

  /** Every slot of the current run is finished, or belongs to a walk that is still open. */
  ghost predicate SlotsRight(r: Run, pivots: Pivots, cells: seq<Cell>, slots: Slots, busy: set<nat>)
    requires r.t.Valid()
  {
    && InRange(r.number, cells, slots)
    && forall k :: k in slots && cells[slots[k]].run == r.number && slots[k] !in busy ==>
         Finished(r, pivots, k, cells[slots[k]])
  }

  /** The nodes that share cell c of an open walk all await the same answer, and lie before `beyond`. */
  ghost predicate Awaits(r: Run, w: Matcher, slots: Slots, c: nat, answer: Answer, beyond: int)
    requires r.t.Valid() && w.Walk?
  {
    forall k :: k in slots && slots[k] == c ==>
      k.1 == w.combinator.Dir() && IsAnswer(r, w, k.0, answer) && beyond < Rank(r.t, k.1, k.0)
  }

  /** A nested match changes only cells of its own, and gives no node back to an older cell. */
  ghost predicate Undisturbed(cells: seq<Cell>, slots: Slots, cells': seq<Cell>, slots': Slots) {
    && cells <= cells'
    && forall k :: k in slots' && slots'[k] < |cells| ==> k in slots && slots[k] == slots'[k]
  }

  /** The enclosing walks, which are the open ones, all have closures larger than m. */
  ghost predicate Encloses(r: Run, cells: seq<Cell>, busy: set<nat>, m: Matcher) {
    forall c :: c in busy ==> c < |cells| && cells[c].name in r.reg && m < r.reg[cells[c].name]
  }

  /**
   The walk w has been under way, with cell c, since the caches were cells0 and slots0: every node that holds its
   cell failed, so it awaits the same answer as the nodes still to be visited.
   */
  ghost predicate Under(r: Run, w: Matcher, pivots: Pivots, cells0: seq<Cell>, slots0: Slots,
                        cells: seq<Cell>, slots: Slots, busy: set<nat>, answer: Answer, beyond: int)
    requires r.t.Valid()
  {
    var c := |cells0|;
    && w.Walk? && !w.combinator.First() && w.name in r.reg && r.reg[w.name] == w
    && SlotsRight(r, pivots, cells, slots, busy)
    && Encloses(r, cells, busy - {c}, w)
    && Undisturbed(cells0, slots0, cells, slots)
    && c in busy && c < |cells| && cells[c].run == r.number && cells[c].name == w.name
    && Awaits(r, w, slots, c, answer, beyond)
    && ((exists k :: k in slots && slots[k] == c) ==> cells[c].result == Some(false))
  }

  lemma UnderFacts(r: Run, w: Matcher, pivots: Pivots, cells0: seq<Cell>, slots0: Slots,
                   cells: seq<Cell>, slots: Slots, busy: set<nat>, answer: Answer, beyond: int)
    requires r.t.Valid() && Under(r, w, pivots, cells0, slots0, cells, slots, busy, answer, beyond)
    ensures SlotsRight(r, pivots, cells, slots, busy) && |cells0| < |cells| && |cells0| in busy
    ensures forall k :: k in slots ==> slots[k] < |cells|
  {
  }

  // ---------------------------------------------------------------- answers stay right

  /** An answer given after what had been tested before is the answer with all that has been tested now. */
  lemma AnswerStays(r: Run, w: Matcher, x: nat, before: Pivots, b: bool, now: Pivots)
    requires r.t.Valid() && w.Walk? && x < |r.t.nodes| && PivotsRight(r.t, before) && PivotsRight(r.t, now)
    requires Grown(OutcomeHere(r.t, w, r.context, x, before).1, now) && b == OutcomeHere(r.t, w, r.context, x, before).0
    ensures IsAnswer(r, w, x, (b, now))
  {
    HereSettled(r.t, w, r.context, x, before, now);
  }

  /** The answer that a walk has yet to come to is the answer at the node it comes to, as if already there. */
  lemma AnswerAhead(r: Run, w: Matcher, x: nat, before: Pivots, answer: Answer)
    requires r.t.Valid() && w.Walk? && x < |r.t.nodes| && PivotsRight(r.t, before)
    requires OutcomeHere(r.t, w, r.context, x, before) == answer
    ensures IsAnswer(r, w, x, answer)
  {
    AnswerStays(r, w, x, before, answer.0, answer.1);
  }

  /** More tests leave every finished slot right. */
  lemma SlotsStay(r: Run, before: Pivots, now: Pivots, cells: seq<Cell>, slots: Slots, busy: set<nat>)
    requires r.t.Valid() && PivotsRight(r.t, now) && SlotsRight(r, before, cells, slots, busy) && Grown(before, now)
    ensures SlotsRight(r, now, cells, slots, busy)
  {
    hide Tree.Valid, OutcomeHere, Grown, PivotsRight;
    forall k | k in slots && cells[slots[k]].run == r.number && slots[k] !in busy
      ensures Finished(r, now, k, cells[slots[k]])
    {
      var c := cells[slots[k]];
      assert Finished(r, before, k, c);
      AnswerStays(r, r.reg[c.name], k.0, before, c.result.value, now);
    }
  }

  // ---------------------------------------------------------------- one walk

  /** A new walk opens a cell that no node holds yet. */
  lemma Opened(r: Run, w: Matcher, pivots: Pivots, cells: seq<Cell>, slots: Slots, busy: set<nat>,
               answer: Answer, beyond: int)
    requires r.t.Valid() && w.Walk? && !w.combinator.First() && w.name in r.reg && r.reg[w.name] == w
    requires SlotsRight(r, pivots, cells, slots, busy) && Encloses(r, cells, busy, w)
    ensures Under(r, w, pivots, cells, slots, cells + [Cell(r.number, w.name, None)], slots, busy + {|cells|},
                  answer, beyond)
    ensures busy == busy + {|cells|} - {|cells|}
  {
    hide IsAnswer;
    assert busy + {|cells|} - {|cells|} == busy;
  }

  /**
   A slot with the current run and the walk's own name is never an open one, so it has the answer that the walk is
   to come to, and nothing is left to be tested; sharing its answer closes the walk.
   */
  lemma Hit(r: Run, w: Matcher, pivots: Pivots, cells0: seq<Cell>, slots0: Slots, cells: seq<Cell>, slots: Slots,
            busy: set<nat>, answer: Answer, x: nat)
    requires r.t.Valid() && w.Walk? && x < |r.t.nodes| && PivotsRight(r.t, pivots)
    requires OutcomeHere(r.t, w, r.context, x, pivots) == answer
    requires Under(r, w, pivots, cells0, slots0, cells, slots, busy, answer, Rank(r.t, w.combinator.Dir(), x))
    requires var k := (x, w.combinator.Dir());
      k in slots && cells[slots[k]].run == r.number && cells[slots[k]].name == w.name
    ensures cells[slots[(x, w.combinator.Dir())]].result == Some(answer.0) && pivots == answer.1
    ensures var cells' := cells[|cells0| := cells[|cells0|].(result := Some(answer.0))];
      SlotsRight(r, pivots, cells', slots, busy - {|cells0|}) && Undisturbed(cells0, slots0, cells', slots)
  {
    hide OutcomeHere, Tree.Valid, Rank;
    var k := (x, w.combinator.Dir());
    assert slots[k] != |cells0|;
    assert slots[k] !in busy;
    assert Finished(r, pivots, k, cells[slots[k]]);
  }

  /** The walk's cell goes on the next node before the inner closure runs there. */
  lemma Placed(r: Run, w: Matcher, pivots: Pivots, cells0: seq<Cell>, slots0: Slots, cells: seq<Cell>, slots: Slots,
               busy: set<nat>, answer: Answer, x: nat)
    requires r.t.Valid() && w.Walk? && x < |r.t.nodes|
    requires Under(r, w, pivots, cells0, slots0, cells, slots, busy, answer, Rank(r.t, w.combinator.Dir(), x))
    ensures SlotsRight(r, pivots, cells, slots[(x, w.combinator.Dir()) := |cells0|], busy)
    ensures Encloses(r, cells, busy, w.inner)
  {
    hide IsAnswer, Awaits;
    var c, slots' := |cells0|, slots[(x, w.combinator.Dir()) := |cells0|];
    forall k | k in slots' && cells[slots'[k]].run == r.number && slots'[k] !in busy
      ensures Finished(r, pivots, k, cells[slots'[k]])
    {
      assert slots'[k] != c && k in slots && slots[k] == slots'[k];
    }
    forall d | d in busy ensures d < |cells| && cells[d].name in r.reg && w.inner < r.reg[cells[d].name] {
      if d != c {
        assert d in busy - {c};
      }
    }
  }

  /** What the inner closure left behind, at node x, keeps the nodes of this walk waiting for the same answer. */
  lemma StillAwaits(r: Run, w: Matcher, cells: seq<Cell>, slots: Slots, cells': seq<Cell>, slots': Slots,
                    c: nat, answer: Answer, x: nat)
    requires r.t.Valid() && w.Walk? && c < |cells| && x < |r.t.nodes| && IsAnswer(r, w, x, answer)
    requires Undisturbed(cells, slots[(x, w.combinator.Dir()) := c], cells', slots')
    requires Awaits(r, w, slots, c, answer, Rank(r.t, w.combinator.Dir(), x))
    ensures Awaits(r, w, slots', c, answer, Rank(r.t, w.combinator.Dir(), x) - 1)
  {
    hide OutcomeHere, Tree.Valid;
  }

  /** After a failure the walk goes on past x. */
  lemma Failed(r: Run, w: Matcher, pivots: Pivots, cells0: seq<Cell>, slots0: Slots, cells: seq<Cell>, slots: Slots,
               now: Pivots, cells': seq<Cell>, slots': Slots, busy: set<nat>, answer: Answer, x: nat)
    requires r.t.Valid() && w.Walk? && x < |r.t.nodes| && IsAnswer(r, w, x, answer)
    requires Under(r, w, pivots, cells0, slots0, cells, slots, busy, answer, Rank(r.t, w.combinator.Dir(), x))
    requires Undisturbed(cells, slots[(x, w.combinator.Dir()) := |cells0|], cells', slots')
    requires SlotsRight(r, now, cells', slots', busy)
    ensures |cells0| < |cells'|
    ensures Under(r, w, now, cells0, slots0, cells'[|cells0| := cells'[|cells0|].(result := Some(false))], slots',
                  busy, answer, Rank(r.t, w.combinator.Dir(), x) - 1)
  {
    StillAwaits(r, w, cells, slots, cells', slots', |cells0|, answer, x);
    hide IsAnswer, Awaits;
  }

  /** After a success every node of the walk has its answer. */
  lemma Succeeded(r: Run, w: Matcher, pivots: Pivots, cells0: seq<Cell>, slots0: Slots, cells: seq<Cell>, slots: Slots,
                  cells': seq<Cell>, slots': Slots, busy: set<nat>, answer: Answer, x: nat)
    requires r.t.Valid() && w.Walk? && x < |r.t.nodes| && IsAnswer(r, w, x, answer) && answer.0
    requires Under(r, w, pivots, cells0, slots0, cells, slots, busy, answer, Rank(r.t, w.combinator.Dir(), x))
    requires Undisturbed(cells, slots[(x, w.combinator.Dir()) := |cells0|], cells', slots')
    requires SlotsRight(r, answer.1, cells', slots', busy)
    ensures |cells0| < |cells'|
    ensures var cells'' := cells'[|cells0| := cells'[|cells0|].(result := Some(true))];
      SlotsRight(r, answer.1, cells'', slots', busy - {|cells0|}) && Undisturbed(cells0, slots0, cells'', slots')
  {
    StillAwaits(r, w, cells, slots, cells', slots', |cells0|, answer, x);
    hide IsAnswer;
  }

  /** A walk that runs out of nodes has answered no for all of them. */
  lemma Exhausted(r: Run, w: Matcher, pivots: Pivots, cells0: seq<Cell>, slots0: Slots, cells: seq<Cell>, slots: Slots,
                  busy: set<nat>, beyond: int)
    requires r.t.Valid() && Under(r, w, pivots, cells0, slots0, cells, slots, busy, (false, pivots), beyond)
    ensures SlotsRight(r, pivots, cells, slots, busy - {|cells0|}) && Undisturbed(cells0, slots0, cells, slots)
  {
    hide IsAnswer;
  }

  /** Nothing else depends on where the walk goes next. */
  lemma Beyond(r: Run, w: Matcher, pivots: Pivots, cells0: seq<Cell>, slots0: Slots, cells: seq<Cell>, slots: Slots,
               busy: set<nat>, answer: Answer, beyond: int, beyond': int)
    requires r.t.Valid() && beyond' <= beyond
    requires Under(r, w, pivots, cells0, slots0, cells, slots, busy, answer, beyond)
    ensures Under(r, w, pivots, cells0, slots0, cells, slots, busy, answer, beyond')
  {
    hide IsAnswer;
  }
}
