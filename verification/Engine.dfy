/**
 Running compiled selectors with the caches that a run leaves on the nodes: one slot per node and
 direction for the combinators, and the sibling positions for the nth pseudo-classes.
 */
module Engine {
  import opened Sequences
  import opened Dom
  import opened Selectors
  import opened AttributeTests
  import opened SelectorCompiler
  import opened NthChild
  import opened LastPositions
  import opened Outcomes
  import opened PositionScans
  import opened NodeCache
  import opened SafeOrder
  import opened QueryPlan
  import opened CarefulSelectors
  import opened QueryRuns

  lemma UndisturbedSelf(cells: seq<Cell>, slots: Slots)
    ensures Undisturbed(cells, slots, cells, slots)
  {
  }

  lemma UndisturbedTwice(cells: seq<Cell>, slots: Slots, cells': seq<Cell>, slots': Slots,
                         cells'': seq<Cell>, slots'': Slots)
    requires Undisturbed(cells, slots, cells', slots') && Undisturbed(cells', slots', cells'', slots'')
    ensures Undisturbed(cells, slots, cells'', slots'')
  {
  }

  /** Enclosing walks keep their cells, and enclose the parts of a closure too. */
  lemma EnclosesMore(r: Run, cells: seq<Cell>, slots: Slots, cells': seq<Cell>, slots': Slots, busy: set<nat>,
                     m: Matcher, part: Matcher)
    requires Encloses(r, cells, busy, m) && Undisturbed(cells, slots, cells', slots') && m.Every? && part in m.all
    ensures Encloses(r, cells', busy, part)
  {
  }

  lemma StepRank(t: Tree, dir: Direction, n: nat)
    requires t.Valid() && n < |t.nodes|
    ensures var next := Step(t, dir, n);
      next.Some? ==> next.value < |t.nodes| && Rank(t, dir, next.value) < Rank(t, dir, n)
  {
  }

  lemma InnerRegistered(t: Tree, w: Matcher, reg: map<nat, Matcher>, x: nat)
    requires w.Walk? && Registered(w, reg) && Visits(t, w, x)
    ensures Registered(w.inner, reg) && (w.inner.IsContext? || t.IsElement(x))
  {
  }

  // ---------------------------------------------------------------- walks

  /** What a walk makes of the node it comes to next. */
  ghost function AtNext(t: Tree, w: Matcher, context: nat, next: Option<nat>, pivots: Pivots): Answer
    requires t.Valid() && PivotsRight(t, pivots) && w.Walk? && (next.Some? ==> next.value < |t.nodes|)
  {
    if next.None? then (false, pivots) else OutcomeHere(t, w, context, next.value, pivots)
  }

  lemma AheadIsNext(t: Tree, w: Matcher, context: nat, e: nat, pivots: Pivots)
    requires t.Valid() && e < |t.nodes| && PivotsRight(t, pivots) && w.Walk?
    ensures OutcomeAhead(t, w, context, e, pivots) ==
            AtNext(t, w, context, Step(t, w.combinator.Dir(), e), pivots)
  {
  }

  lemma HereIs(t: Tree, w: Matcher, context: nat, x: nat, pivots: Pivots)
    requires t.Valid() && x < |t.nodes| && PivotsRight(t, pivots) && w.Walk?
    ensures OutcomeHere(t, w, context, x, pivots) ==
      if !Visits(t, w, x) then OutcomeAhead(t, w, context, x, pivots)
      else
        var r := Outcome(t, w.inner, context, x, pivots);
        if r.0 || w.combinator.First() then r else OutcomeAhead(t, w, context, x, r.1)
  {
  }

  /** How far along its chain a walk is that comes to a node next; it has no further to go at the end. */
  ghost function Ahead(t: Tree, dir: Direction, next: Option<nat>): int
    requires t.Valid() && (next.Some? ==> next.value < |t.nodes|)
  {
    if next.Some? then Rank(t, dir, next.value) else -1
  }

  /** A walk begins with a cell of its own, and goes to its first node. */
  lemma WalkBegins(r: Run, w: Matcher, e: nat, pivots: Pivots, cells: seq<Cell>, slots: Slots, busy: set<nat>)
    requires r.t.Valid() && e < |r.t.nodes| && w.Walk? && !w.combinator.First() && PivotsRight(r.t, pivots)
    requires SlotsRight(r, pivots, cells, slots, busy) && Encloses(r, cells, busy, w)
    requires w.name in r.reg && r.reg[w.name] == w
    ensures var next, answer := Step(r.t, w.combinator.Dir(), e), OutcomeAhead(r.t, w, r.context, e, pivots);
      && AtNext(r.t, w, r.context, next, pivots) == answer
      && Under(r, w, pivots, cells, slots, cells + [Cell(r.number, w.name, None)], slots, busy + {|cells|}, answer,
               Ahead(r.t, w.combinator.Dir(), next))
    ensures busy == busy + {|cells|} - {|cells|}
  {
    hide SlotsRight, Encloses, Under, OutcomeAhead, OutcomeHere, Step, Tree.Valid, Rank;
    AheadIsNext(r.t, w, r.context, e, pivots);
    Opened(r, w, pivots, cells, slots, busy, OutcomeAhead(r.t, w, r.context, e, pivots),
           Ahead(r.t, w.combinator.Dir(), Step(r.t, w.combinator.Dir(), e)));
  }

  /** A walk goes on from a node that it has passed. */
  lemma WalkGoesOn(r: Run, w: Matcher, x: nat, pivots: Pivots, cells0: seq<Cell>, slots0: Slots,
                   cells: seq<Cell>, slots: Slots, busy: set<nat>, answer: Answer)
    requires r.t.Valid() && w.Walk? && x < |r.t.nodes| && PivotsRight(r.t, pivots)
    requires OutcomeAhead(r.t, w, r.context, x, pivots) == answer
    requires Under(r, w, pivots, cells0, slots0, cells, slots, busy, answer, Rank(r.t, w.combinator.Dir(), x) - 1)
    ensures var dir := w.combinator.Dir();
      var next := Step(r.t, dir, x);
      && AtNext(r.t, w, r.context, next, pivots) == answer && Ahead(r.t, dir, next) < Rank(r.t, dir, x)
      && Under(r, w, pivots, cells0, slots0, cells, slots, busy, answer, Ahead(r.t, dir, next))
  {
    hide Under, OutcomeAhead, OutcomeHere, Step, Tree.Valid, Rank;
    AheadIsNext(r.t, w, r.context, x, pivots);
    var dir := w.combinator.Dir();
    StepRank(r.t, dir, x);
    Beyond(r, w, pivots, cells0, slots0, cells, slots, busy, answer, Rank(r.t, dir, x) - 1,
           Ahead(r.t, dir, Step(r.t, dir, x)));
  }

  // ---------------------------------------------------------------- runs

  lemma WalkNamed(w: Matcher, reg: map<nat, Matcher>)
    requires w.Walk? && Registered(w, reg)
    ensures w.name in reg && reg[w.name] == w
  {
  }

  /** Nothing that is remembered carries a new run's number. */
  lemma NewRun(r: Run, cells: seq<Cell>, slots: Slots, nth: map<nat, NthEntry>, nthLast: map<nat, NthLastEntry>)
    requires r.t.Valid() && r.number > 0 && InRange(r.number - 1, cells, slots)
    requires forall k :: k in nth ==> nth[k].run < r.number
    requires forall k :: k in nthLast ==> nthLast[k].run < r.number
    ensures SlotsRight(r, map[], cells, slots, {}) && Remembered(r.t, r.number, nth, nthLast, map[])
  {
  }

  lemma StillIdle(r: Run, cells: seq<Cell>, slots: Slots, nth: map<nat, NthEntry>, nthLast: map<nat, NthLastEntry>,
                  pivots: Pivots)
    requires r.t.Valid() && SlotsRight(r, pivots, cells, slots, {}) && Remembered(r.t, r.number, nth, nthLast, pivots)
    ensures InRange(r.number, cells, slots)
    ensures forall k :: k in nth ==> nth[k].run <= r.number
    ensures forall k :: k in nthLast ==> nthLast[k].run <= r.number
  {
  }

  /** Compiled groups are like those compiled with other names. */
  lemma CompiledAlike(groups: seq<seq<Token>>, i: nat, ms: seq<Matcher>, done: nat)
    requires i < |groups| && |ms| == |groups| - 1 - i
    requires forall k :: 0 <= k < |ms| ==> ButForNames(ms[k], Compiled(groups)[k])
    ensures forall k :: 0 <= k <= |ms| ==> ButForNames((ms + [Closure(groups[i], done)])[k], Compiled(groups)[k])
  {
    hide Closure, ButForNames;
    ClosureAlike(groups[i], done, 0);
  }

  lemma KeepsOrNot(t: Tree, elems: seq<nat>, i: nat, ms: seq<Matcher>, context: nat, results: seq<nat>,
                   accepted: bool, pivots: Pivots)
    requires t.Valid() && PivotsRight(t, pivots) && i < |elems|
    ensures var rest := Scan(t, elems, i + 1, ms, context, pivots);
      results + ((if accepted then [elems[i]] else []) + rest) ==
      (if accepted then results + [elems[i]] else results) + rest
  {
    hide Scan;
  }

  class Engine {
    var t: Tree
    var dirruns: nat
    var cells: seq<Cell>
    var slots: Slots
    var nth: map<nat, NthEntry>
    var nthLast: map<nat, NthLastEntry>
    /** The counter that names combinator closures. */
    var done: nat
    ghost var reg: map<nat, Matcher>
    ghost var busy: set<nat>
    /** The first child of each parent that this run tested for its position from the last. */
    ghost var pivots: Pivots

    /** An engine for a document. Nothing has been run. */
    constructor (t: Tree)
      requires t.Valid()
      ensures Idle() && this.t == t && done == 0
    {
      this.t, dirruns, cells, slots, nth, nthLast, done := t, 0, [], map[], map[], map[], 0;
      reg, busy, pivots := map[], {}, map[];
    }

    /** Whatever the caches hold, it was left by this run number or an earlier one. */
    ghost predicate Idle()
      reads this
    {
      && t.Valid()
      && busy == {}
      && (forall k :: k in reg ==> k < done)
      && InRange(dirruns, cells, slots)
      && (forall k :: k in nth ==> nth[k].run <= dirruns)
      && (forall k :: k in nthLast ==> nthLast[k].run <= dirruns)
    }

    ghost predicate PositionsRight()
      requires t.Valid()
      reads this
    {
      Remembered(t, dirruns, nth, nthLast, pivots)
    }

    ghost function Current(context: nat): Run
      reads this
    {
      Run(t, reg, context, dirruns)
    }

    /** What the run remembers is right: the positions, and the slots of finished walks. */
    ghost predicate Running(context: nat)
      reads this
    {
      t.Valid() && context < |t.nodes| && PositionsRight() && SlotsRight(Current(context), pivots, cells, slots, busy)
    }

    /** The closure's answer, and what has been tested then, are those without caches on the nodes. */
    method Match(m: Matcher, context: nat, e: nat) returns (b: bool)
      requires Running(context) && Registered(m, reg) && Encloses(Current(context), cells, busy, m)
      requires e < |t.nodes| && (m.IsContext? || t.IsElement(e))
      modifies this`slots, this`cells, this`busy, this`nth, this`nthLast, this`pivots
      ensures Running(context) && busy == old(busy) && Undisturbed(old(cells), old(slots), cells, slots)
      ensures PivotsRight(t, old(pivots)) && (b, pivots) == Outcome(t, m, context, e, old(pivots))
      decreases m, 3
    {
      hide Remembered, SlotsRight, Undisturbed, Tree.Valid, HoldsIn, Tested, OutcomeAhead, OutcomeOfAll;
      ghost var before := pivots;
      PivotsOf(t, dirruns, nth, nthLast, pivots);
      UndisturbedSelf(cells, slots);
      match m {
        case IsContext =>
          b := e == context;
        case TestMatcher(test) =>
          b := TestElement(e, test);
          TestGrows(t, e, test, before);
          PivotsOf(t, dirruns, nth, nthLast, pivots);
          SlotsStay(Current(context), before, pivots, cells, slots, busy);
        case Base(leading, reach) =>
          if leading.None? && context == t.document {
            b := true;
          } else {
            b := Match(reach, context, e);
          }
        case Every(all) =>
          b := MatchEvery(m, context, e);
        case Walk(inner, c, base, name) =>
          if c.First() {
            b := MatchClosest(m, context, e);
          } else {
            b := MatchWalk(m, context, e);
          }
      }
    }

    /** The closures of a conjunction, from the last to the first, until one fails. */
    method MatchEvery(m: Matcher, context: nat, e: nat) returns (b: bool)
      requires m.Every?
      requires Running(context) && Registered(m, reg) && Encloses(Current(context), cells, busy, m) && t.IsElement(e)
      modifies this`slots, this`cells, this`busy, this`nth, this`nthLast, this`pivots
      ensures Running(context) && busy == old(busy) && Undisturbed(old(cells), old(slots), cells, slots)
      ensures PivotsRight(t, old(pivots)) && (b, pivots) == OutcomeOfAll(t, m, |m.all|, context, e, old(pivots))
      decreases m, 2
    {
      hide Remembered, SlotsRight, Undisturbed, Tree.Valid, Encloses, Outcome, PivotsRight;
      ghost var cells0, slots0, before := cells, slots, pivots;
      PivotsOf(t, dirruns, nth, nthLast, pivots);
      UndisturbedSelf(cells, slots);
      var i := |m.all|;
      b := true;
      while i > 0 && b
        invariant 0 <= i <= |m.all|
        invariant Running(context) && busy == old(busy) && Undisturbed(cells0, slots0, cells, slots)
        invariant PivotsRight(t, pivots)
        invariant OutcomeOfAll(t, m, |m.all|, context, e, before) ==
                  if b then OutcomeOfAll(t, m, i, context, e, pivots) else (false, pivots)
      {
        i := i - 1;
        ghost var cells1, slots1 := cells, slots;
        EnclosesMore(Current(context), cells0, slots0, cells, slots, busy, m, m.all[i]);
        b := Match(m.all[i], context, e);
        UndisturbedTwice(cells0, slots0, cells1, slots1, cells, slots);
        PivotsOf(t, dirruns, nth, nthLast, pivots);
      }
    }

    method MatchClosest(w: Matcher, context: nat, e: nat) returns (b: bool)
      requires w.Walk? && w.combinator.First()
      requires Running(context) && Registered(w, reg) && Encloses(Current(context), cells, busy, w) && t.IsElement(e)
      modifies this`slots, this`cells, this`busy, this`nth, this`nthLast, this`pivots
      ensures Running(context) && busy == old(busy) && Undisturbed(old(cells), old(slots), cells, slots)
      ensures PivotsRight(t, old(pivots)) && (b, pivots) == OutcomeAhead(t, w, context, e, old(pivots))
      decreases w, 2
    {
      hide Remembered, SlotsRight, Undisturbed, Tree.Valid, Step, Rank, Outcome, OutcomeAhead, OutcomeHere, PivotsRight;
      PivotsOf(t, dirruns, nth, nthLast, pivots);
      var dir := w.combinator.Dir();
      StepRank(t, dir, e);
      AheadIsNext(t, w, context, e, pivots);
      var next: Option<nat> := Step(t, dir, e);
      UndisturbedSelf(cells, slots);
      while next.Some? && !Visits(t, w, next.value)
        invariant unchanged(this) && (next.Some? ==> next.value < |t.nodes|)
        invariant OutcomeAhead(t, w, context, e, pivots) == AtNext(t, w, context, next, pivots)
        decreases if next.Some? then 1 + Rank(t, dir, next.value) else 0
      {
        HereIs(t, w, context, next.value, pivots);
        AheadIsNext(t, w, context, next.value, pivots);
        StepRank(t, dir, next.value);
        next := Step(t, dir, next.value);
      }
      if next.Some? {
        HereIs(t, w, context, next.value, pivots);
        b := Match(w.inner, context, next.value);
      } else {
        b := false;
      }
    }

    /**
     The loop body of a walk, at a node it visits: a slot of this run and closure answers at once;
     otherwise the walk's cell goes on the node before the inner closure runs there.
     */
    method VisitNode(w: Matcher, context: nat, x: nat, newCache: nat, ghost slots0: Slots, ghost cells0: seq<Cell>,
                     ghost answer: Answer)
      returns (found: Option<bool>)
      requires w.Walk? && !w.combinator.First() && x < |t.nodes| && context < |t.nodes| && newCache == |cells0|
      requires t.Valid() && PositionsRight() && Registered(w, reg) && Visits(t, w, x)
      requires PivotsRight(t, pivots) && OutcomeHere(t, w, context, x, pivots) == answer
      requires Under(Current(context), w, pivots, cells0, slots0, cells, slots, busy, answer,
                     Rank(t, w.combinator.Dir(), x))
      modifies this`slots, this`cells, this`busy, this`nth, this`nthLast, this`pivots
      ensures PositionsRight() && PivotsRight(t, pivots)
      ensures found.Some? ==>
        && (found.value, pivots) == answer && busy == old(busy) - {newCache}
        && Running(context) && Undisturbed(cells0, slots0, cells, slots)
      ensures found.None? ==>
        && OutcomeAhead(t, w, context, x, pivots) == answer && busy == old(busy)
        && Under(Current(context), w, pivots, cells0, slots0, cells, slots, busy, answer,
                 Rank(t, w.combinator.Dir(), x) - 1)
      decreases w, 0
    {
      hide SlotsRight, Under, Undisturbed, Encloses, Step, Rank, Tree.Valid, Remembered, IsAnswer;
      hide Outcome, OutcomeAhead, OutcomeHere, PivotsRight, InRange, Registered, Visits;
      var dir := w.combinator.Dir();
      ghost var r, before := Current(context), pivots;
      UnderFacts(r, w, pivots, cells0, slots0, cells, slots, busy, answer, Rank(t, dir, x));
      HereIs(t, w, context, x, pivots);
      AnswerAhead(r, w, x, pivots, answer);
      if (x, dir) in slots && cells[slots[(x, dir)]].run == dirruns && cells[slots[(x, dir)]].name == w.name {
        Hit(r, w, pivots, cells0, slots0, cells, slots, busy, answer, x);
        found := cells[slots[(x, dir)]].result;
      } else {
        Placed(r, w, pivots, cells0, slots0, cells, slots, busy, answer, x);
        ghost var cells1, slots1 := cells, slots;
        slots := slots[(x, dir) := newCache];
        InnerRegistered(t, w, reg, x);
        var b := Match(w.inner, context, x);
        PivotsOf(t, dirruns, nth, nthLast, pivots);
        if b {
          Succeeded(r, w, before, cells0, slots0, cells1, slots1, cells, slots, busy, answer, x);
          found := Some(true);
        } else {
          Failed(r, w, before, cells0, slots0, cells1, slots1, pivots, cells, slots, busy, answer, x);
          cells := cells[newCache := cells[newCache].(result := Some(false))];
          return None;
        }
      }
      cells := cells[newCache := cells[newCache].(result := found)];
      busy := busy - {newCache};
    }

    /** The cached walk answers, and tests, what the uncached one does, for every closure. */
    method MatchWalk(w: Matcher, context: nat, e: nat) returns (b: bool)
      requires w.Walk? && !w.combinator.First()
      requires Running(context) && Registered(w, reg) && Encloses(Current(context), cells, busy, w) && t.IsElement(e)
      modifies this`slots, this`cells, this`busy, this`nth, this`nthLast, this`pivots
      ensures Running(context) && busy == old(busy) && Undisturbed(old(cells), old(slots), cells, slots)
      ensures PivotsRight(t, old(pivots)) && (b, pivots) == OutcomeAhead(t, w, context, e, old(pivots))
      decreases w, 1
    {
      hide SlotsRight, Under, Undisturbed, Encloses, Step, Rank, Tree.Valid, Remembered, IsAnswer;
      hide Outcome, OutcomeAhead, OutcomeHere, PivotsRight, InRange, Registered, Visits;
      var dir := w.combinator.Dir();
      PivotsOf(t, dirruns, nth, nthLast, pivots);
      ghost var r, answer := Current(context), OutcomeAhead(t, w, context, e, pivots);
      ghost var cells0, slots0 := cells, slots;
      var newCache := |cells|;
      WalkNamed(w, reg);
      WalkBegins(r, w, e, pivots, cells, slots, busy);
      StepRank(t, dir, e);
      var next: Option<nat> := Step(t, dir, e);
      cells := cells + [Cell(dirruns, w.name, None)];
      busy := busy + {newCache};
      while next.Some?
        invariant next.Some? ==> next.value < |t.nodes|
        invariant PositionsRight() && busy == old(busy) + {newCache} && PivotsRight(t, pivots)
        invariant AtNext(t, w, context, next, pivots) == answer
        invariant Under(r, w, pivots, cells0, slots0, cells, slots, busy, answer, Ahead(t, dir, next))
        decreases 1 + Ahead(t, dir, next)
      {
        var x := next.value;
        if Visits(t, w, x) {
          var found := VisitNode(w, context, x, newCache, slots0, cells0, answer);
          if found.Some? {
            return found.value;
          }
        } else {
          HereIs(t, w, context, x, pivots);
          Beyond(r, w, pivots, cells0, slots0, cells, slots, busy, answer, Rank(t, dir, x), Rank(t, dir, x) - 1);
        }
        WalkGoesOn(r, w, x, pivots, cells0, slots0, cells, slots, busy, answer);
        StepRank(t, dir, x);
        next := Step(t, dir, x);
      }
      Exhausted(r, w, pivots, cells0, slots0, cells, slots, busy, -1);
      busy := busy - {newCache};
      b := false;
    }

    // -------------------------------------------------------------- whole queries

    /** Compiles the groups, last group first. */
    method Compile(groups: seq<seq<Token>>) returns (matchers: seq<Matcher>)
      requires Idle() && forall g :: 0 <= g < |groups| ==> groups[g] != []
      modifies this`done, this`reg
      ensures Idle() && |matchers| == |groups|
      ensures forall k :: 0 <= k < |groups| ==>
        Compiles(matchers[k], groups[|groups| - 1 - k]) && Registered(matchers[k], reg)
      ensures AllButForNames(matchers, Compiled(groups))
    {
      hide Compiles, Closure, ButForNames, Registered;
      matchers := [];
      var i := |groups|;
      while i > 0
        invariant 0 <= i <= |groups| && |matchers| == |groups| - i && Idle()
        invariant forall k :: 0 <= k < |matchers| ==>
          Compiles(matchers[k], groups[|groups| - 1 - k]) && Registered(matchers[k], reg)
        invariant forall k :: 0 <= k < |matchers| ==> ButForNames(matchers[k], Compiled(groups)[k])
      {
        i := i - 1;
        ghost var before, more := reg, reg;
        CompiledAlike(groups, i, matchers, done);
        var m;
        m, done, more := MatcherFromTokens(groups[i], done, reg);
        reg := more;
        forall k | 0 <= k < |matchers| ensures Registered(matchers[k], reg) {
          RegisteredExtends(matchers[k], before, reg);
        }
        matchers := matchers + [m];
      }
    }

    /** Whether one of the compiled groups accepts e. */
    method TryMatchers(matchers: seq<Matcher>, context: nat, e: nat) returns (accepted: bool)
      requires Running(context) && busy == {} && t.IsElement(e)
      requires forall k :: 0 <= k < |matchers| ==> Registered(matchers[k], reg)
      modifies this`slots, this`cells, this`busy, this`nth, this`nthLast, this`pivots
      ensures Running(context) && busy == {}
      ensures PivotsRight(t, old(pivots)) && PivotsRight(t, pivots)
      ensures (accepted, pivots) == OutcomeOfAny(t, matchers, 0, context, e, old(pivots))
    {
      hide Tree.Valid, Registered, Remembered, SlotsRight, Outcome, PivotsRight;
      ghost var before := pivots;
      PivotsOf(t, dirruns, nth, nthLast, pivots);
      var j := 0;
      accepted := false;
      while j < |matchers| && !accepted
        invariant 0 <= j <= |matchers| && Running(context) && busy == {} && PivotsRight(t, pivots)
        invariant OutcomeOfAny(t, matchers, 0, context, e, before) ==
                  if accepted then (true, pivots) else OutcomeOfAny(t, matchers, j, context, e, pivots)
      {
        accepted := Match(matchers[j], context, e);
        PivotsOf(t, dirruns, nth, nthLast, pivots);
        j := j + 1;
      }
    }

    /** Takes a run number that no cache entry carries yet. */
    method BeginRun(context: nat)
      requires Idle() && context < |t.nodes|
      modifies this`dirruns, this`pivots
      ensures Running(context) && pivots == map[]
    {
      hide Tree.Valid, Remembered, SlotsRight;
      dirruns := dirruns + 1;
      pivots := map[];
      NewRun(Current(context), cells, slots, nth, nthLast);
    }

    /**
     Runs compiled groups over the elements, under a run number that no cache entry carries yet. The result is
     that of the closures without caches.
     */
    method SuperMatcher(elems: seq<nat>, matchers: seq<Matcher>, context: nat) returns (results: seq<nat>)
      requires Idle() && context < |t.nodes| && forall e :: e in elems ==> t.IsElement(e)
      requires forall k :: 0 <= k < |matchers| ==> Registered(matchers[k], reg)
      modifies this`dirruns, this`slots, this`cells, this`busy, this`nth, this`nthLast, this`pivots
      ensures Idle()
      ensures results == Scan(t, elems, 0, matchers, context, map[])
      ensures forall k, top :: AllTestAt(matchers, k) && InOrder(t, top, elems) ==>
        results == KeepAccepted(t, elems, matchers, context)
    {
      hide Tree.Valid, Registered, Remembered, SlotsRight, OutcomeOfAny, InRange, PivotsRight, AllTestAt, InOrder;
      hide KeepAccepted;
      SafeResults(t, elems, matchers, context);
      BeginRun(context);
      PivotsOf(t, dirruns, nth, nthLast, pivots);
      results := [];
      var i := 0;
      while i < |elems|
        invariant 0 <= i <= |elems| && Running(context) && busy == {} && PivotsRight(t, pivots)
        invariant Scan(t, elems, 0, matchers, context, map[]) ==
                  results + Scan(t, elems, i, matchers, context, pivots)
      {
        var e := elems[i];
        assert e in elems;
        var accepted := TryMatchers(matchers, context, e);
        KeepsOrNot(t, elems, i, matchers, context, results, accepted, pivots);
        if accepted {
          results := results + [e];
        }
        i := i + 1;
      }
      StillIdle(Current(context), cells, slots, nth, nthLast, pivots);
    }

    /**
     Selects from a tokenized selector. `positional` says that the text looks like a positional
     pseudo-class, `siblings` that it has a `+` or `~` anywhere. A leading id in the document makes
     its element the context of the rest. The result is that of the query without caches; it is the full scan
     when ids are unique and the groups are careful.
     */
    method Select(groups: seq<seq<Token>>, context: nat, positional: bool, siblings: bool) returns (results: seq<nat>)
      requires Idle() && context < |t.nodes|
      requires forall g :: 0 <= g < |groups| ==> groups[g] != []
      requires !siblings ==> forall g :: 0 <= g < |groups| ==>
        Relative(Adjacent) !in groups[g] && Relative(Sibling) !in groups[g]
      modifies this`done, this`reg
      modifies this`dirruns, this`slots, this`cells, this`busy, this`nth, this`nthLast, this`pivots
      ensures Idle()
      ensures results == QueryRun(t, groups, context, positional, siblings)
      ensures Careful(groups) && (forall id :: UniqueId(t, context, id)) ==> results == FullScan(t, groups, context)
    {
      hide Tree.Valid, UniqueId, FullScan, HasId, Find, RunFrom, Careful;
      if Careful(groups) && forall id :: UniqueId(t, context, id) {
        QueryRunIsFullScan(t, groups, context, positional, siblings);
      }
      if |groups| == 1 && LeadsWithId(groups[0]) && context == t.document {
        var tokens := groups[0];
        FoundById(t, tokens[0].test.id);
        var found := Find(t, tokens[0].test, context);
        if found.value == [] {
          return [];
        }
        results := SelectFrom([tokens[1..]], found.value[0], positional, siblings);
      } else {
        results := SelectFrom(groups, context, positional, siblings);
      }
    }

    method SelectFrom(groups: seq<seq<Token>>, context: nat, positional: bool, siblings: bool)
      returns (results: seq<nat>)
      requires Idle() && context < |t.nodes|
      requires forall g :: 0 <= g < |groups| ==> groups[g] != []
      requires !siblings ==> forall g :: 0 <= g < |groups| ==>
        Relative(Adjacent) !in groups[g] && Relative(Sibling) !in groups[g]
      modifies this`done, this`reg
      modifies this`dirruns, this`slots, this`cells, this`busy, this`nth, this`nthLast, this`pivots
      ensures Idle()
      ensures results == RunFrom(t, groups, context, positional, siblings)
      ensures Careful(groups) && (forall id :: UniqueId(t, context, id)) ==> results == FullScan(t, groups, context)
      ensures Careful(groups) ==>
        var i := SeedIndex(t, groups, context, positional);
        results == if i.Some? then Seeded(t, groups[0], context, i.value) else FullScan(t, groups, context)
    {
      hide Tree.Valid, UniqueId, Find, Careful, RunOver, FullScan, Seeded, KeepSelected;
      if Careful(groups) {
        RunFromMeaning(t, groups, context, positional, siblings);
        if forall id :: UniqueId(t, context, id) {
          RunFromIsFullScan(t, groups, context, positional, siblings);
        }
      }
      if |groups| == 1 {
        var tokens := groups[0];
        var i := if positional || NeedsContext(tokens) then 0 else |tokens|;
        while i > 0 && !tokens[i - 1].Relative?
          invariant 0 <= i <= |tokens| && Idle()
          invariant positional || NeedsContext(tokens) ==> i == 0
          invariant !positional && !NeedsContext(tokens) ==>
            SeedBefore(t, tokens, context, |tokens|) == SeedBefore(t, tokens, context, i)
        {
          i := i - 1;
          var seed := Find(t, tokens[i].test, context);
          if seed.Some? {
            var rest := Without(tokens, i);
            if seed.value == [] || rest == [] {
              return seed.value;
            }
            FindElements(t, tokens[i].test, context);
            results := Filtered(seed.value, [rest], context);
            return;
          }
        }
      }
      var outermost := if siblings then Surroundings(t, context) else context;
      FindAll(t, outermost, groups, context);
      results := Filtered(Find(t, Tag("*"), outermost).value, groups, context);
    }

    /** Compiles and runs: keeps the elements that one of the groups accepts. */
    method Filtered(elems: seq<nat>, groups: seq<seq<Token>>, context: nat) returns (results: seq<nat>)
      requires Idle() && context < |t.nodes| && forall e :: e in elems ==> t.IsElement(e)
      requires forall g :: 0 <= g < |groups| ==> groups[g] != []
      modifies this`done, this`reg
      modifies this`dirruns, this`slots, this`cells, this`busy, this`nth, this`nthLast, this`pivots
      ensures Idle()
      ensures results == RunOver(t, elems, groups, context)
    {
      hide Scan, Closure, AllButForNames, Compiled, Registered, Compiles;
      var matchers := Compile(groups);
      results := SuperMatcher(elems, matchers, context);
      ScanAlike(t, elems, 0, matchers, Compiled(groups), context, map[]);
    }

    // -------------------------------------------------------------- simple tests

    /** The answer of `:nth-last-child` depends on what has been tested before; all others are the plain ones. */
    method TestElement(e: nat, test: Test) returns (b: bool)
      requires t.Valid() && t.IsElement(e) && PositionsRight()
      modifies this`nth, this`nthLast, this`pivots
      ensures PositionsRight() && PivotsRight(t, old(pivots))
      ensures b == HoldsIn(t, e, test, old(pivots)) && pivots == Tested(t, e, test, old(pivots))
      ensures test.Attr? ==>
        var attrs := t.nodes[e].attrs;
        b == AttrMeans(if test.attr in attrs then Some(attrs[test.attr]) else None, test.operator, test.check)
    {
      hide HoldsIn, Tested, Remembered, Tree.Valid, AttrHolds, AttrMeans;
      PivotsOf(t, dirruns, nth, nthLast, pivots);
      if !test.ChildTest? {
        PlainTest(t, e, test, pivots);
      }
      match test {
        case Tag(name) => b := name == "*" || t.nodes[e].name == name;
        case Id(id) => b := t.nodes[e].id == Some(id);
        case Class(c) => b := c in t.nodes[e].classes;
        case Attr(attr, op, check) =>
          var value := if attr in t.nodes[e].attrs then Some(t.nodes[e].attrs[attr]) else None;
          b := AttrHolds(value, op, check);
          AttrMeaning(value, op, check);
        case ChildTest(kind, ofType, first, last) => b := TestChild(e, kind, ofType, first, last);
      }
    }

    method TestChild(e: nat, kind: ChildKind, ofType: bool, first: int, last: int) returns (b: bool)
      requires t.Valid() && t.IsElement(e) && PositionsRight()
      modifies this`nth, this`nthLast, this`pivots
      ensures PositionsRight() && PivotsRight(t, old(pivots))
      ensures var test := ChildTest(kind, ofType, first, last);
        b == HoldsIn(t, e, test, old(pivots)) && pivots == Tested(t, e, test, old(pivots))
    {
      hide HoldsIn, Tested, Answered, IndexAmong, Remembered, Tree.Valid, CycleTest, InProgression;
      ghost var test := ChildTest(kind, ofType, first, last);
      PivotsOf(t, dirruns, nth, nthLast, pivots);
      ChildTestMeaning(t, e, test, pivots);
      if kind != Nth && kind != NthLast {
        b := EndOfSiblings(e, kind, ofType);
      } else if first == 1 && last == 0 {
        b := t.nodes[e].parent.Some?;
      } else if t.nodes[e].parent.None? {
        b := false;
      } else {
        RememberedAnswer(t, dirruns, nth, nthLast, pivots, e);
        var diff: nat;
        if kind == Nth && !ofType {
          diff := SeekForward(e);
        } else if kind == NthLast && !ofType && e in nthLast && nthLast[e].run == dirruns {
          diff := nthLast[e].diff;
        } else {
          diff := SeekFromEnd(e, kind == Nth, ofType);
        }
        b := CycleTest(first, last, diff);
        CycleTestMeaning(first, last, diff);
      }
    }

    /** `:first-`, `:last-` and `:only-child` and their of-type forms. */
    method EndOfSiblings(e: nat, kind: ChildKind, ofType: bool) returns (b: bool)
      requires t.Valid() && t.IsElement(e) && (kind == Only || kind == First || kind == Last)
      ensures b == ChildHolds(t, e, kind, ofType, 0, 0)
    {
      hide Count, Tree.Valid, Tree.Position, Tree.NextSibling, Tree.PreviousSibling;
      if t.nodes[e].parent.None? {
        return false;
      }
      OwnPlace(t, e, ofType);
      var ks := Siblings(t, e);
      var parent := t.nodes[e].parent.value;
      ghost var i := t.Position(e);
      SiblingLinks(t, parent, i);
      if kind != Last {
        PositionOne(t, e, ofType, false);
        var node: Option<nat> := t.PreviousSibling(e);
        while node.Some?
          invariant 0 <= i <= t.Position(e) && node == (if i == 0 then None else Some(ks[i - 1]))
          invariant forall j :: i <= j < t.Position(e) ==> !Counts(t, e, ofType, ks[j])
          decreases i
        {
          if Counts(t, e, ofType, node.value) {
            return false;
          }
          i := i - 1;
          SiblingLinks(t, parent, i);
          node := t.PreviousSibling(node.value);
        }
      }
      i := t.Position(e);
      if kind != First {
        PositionOne(t, e, ofType, true);
        var node: Option<nat> := t.NextSibling(e);
        while node.Some?
          invariant t.Position(e) <= i < |ks| && node == (if i + 1 == |ks| then None else Some(ks[i + 1]))
          invariant forall j :: t.Position(e) < j <= i ==> !Counts(t, e, ofType, ks[j])
          decreases |ks| - i
        {
          if Counts(t, e, ofType, node.value) {
            return false;
          }
          i := i + 1;
          SiblingLinks(t, parent, i);
          node := t.NextSibling(node.value);
        }
      }
      b := true;
    }

    /**
     `:nth-child` without a type: resume from the position remembered on the parent, and start over
     from the first child when the element is not found after it.
     */
    method SeekForward(e: nat) returns (diff: nat)
      requires t.Valid() && t.IsElement(e) && t.nodes[e].parent.Some? && PositionsRight()
      modifies this`nth
      ensures PositionsRight()
      ensures diff == IndexAmong(t, e, false, false)
    {
      hide Count, Counts, Tree.Valid, Tree.Position, Tree.NextSibling, Remembered, Resumed;
      var parent := t.nodes[e].parent.value;
      OwnPlace(t, e, false);
      var kids := t.nodes[parent].kids;
      var restarts := 1;
      var hit := parent in nth && nth[parent].run == dirruns;
      ResumesAt(t, e, dirruns, nth, nthLast, pivots);
      var nodeIndex := if hit then nth[parent].nodeIndex else 0;
      diff := if nodeIndex != 0 then nth[parent].diff else 0;
      var node: Option<nat> := if nodeIndex != 0 then Some(kids[nodeIndex]) else None;
      var found := false;
      while !found
        invariant 0 <= restarts <= 1 && (node.Some? ==> nodeIndex < |kids| && node.value < |t.nodes|)
        invariant Resumed(t, e, restarts, nodeIndex, node, diff, found)
        invariant nth == old(nth)
        decreases !found, restarts, |kids| - nodeIndex
      {
        ResumedStep(t, e, restarts, nodeIndex, node, diff);
        var next: Option<nat> := if node.Some? then t.NextSibling(node.value) else None;
        nodeIndex := nodeIndex + 1;
        if next.None? {
          diff, nodeIndex := 0, 0;
          restarts := restarts - 1;
          next := Some(kids[0]);
        }
        node := next;
        if t.IsElement(node.value) {
          diff := diff + 1;
          found := node.value == e;
        }
      }
      ResumedEnds(t, e, restarts, nodeIndex, node, diff, dirruns, nth, nthLast, pivots);
      nth := nth[parent := NthEntry(dirruns, nodeIndex, diff)];
    }

    /**
     The other nth forms. A scan for `:nth-last-child`, made when nothing is remembered, begins at the element
     itself: it first goes back to the first child, leaving positions on the way that count from the element,
     and only then restarts at the last child.
     */
    method SeekFromEnd(e: nat, forward: bool, ofType: bool) returns (diff: nat)
      requires t.Valid() && t.IsElement(e) && t.nodes[e].parent.Some? && PositionsRight()
      requires if ofType then true else !forward && t.nodes[e].parent.value !in pivots
      modifies this`nthLast, this`pivots
      ensures PositionsRight()
      ensures diff == IndexAmong(t, e, ofType, !forward)
      ensures pivots == if ofType then old(pivots) else old(pivots)[t.nodes[e].parent.value := e]
    {
      hide Count, Counts, Tree.Valid, Tree.Position, Tree.NextSibling, Tree.PreviousSibling;
      hide Swept, Remembered, Scanning;
      var parent := t.nodes[e].parent.value;
      OwnPlace(t, e, ofType);
      var kids := t.nodes[parent].kids;
      ghost var i: nat, before: map<nat, NthLastEntry> := t.Position(e), nthLast;
      NotSwept(t, e, dirruns, nthLast);
      var restarts := 1;
      var node: Option<nat> := if ofType then None else Some(e);
      diff := 0;
      ScanBegins(t, e, forward, ofType);
      while true
        invariant 0 <= restarts <= 1 && i < |kids| && (node.Some? ==> node.value == kids[i])
        invariant Scanning(t, e, forward, ofType, restarts, i, node, diff)
        invariant pivots == old(pivots) && (ofType ==> nthLast == before)
        invariant !ofType ==>
          Swept(t, e, dirruns, before, nthLast, FirstPass(restarts, i), SecondPass(|kids|, restarts, i))
        decreases restarts, if node.None? then |kids| else if forward then |kids| - i else i
      {
        ScanMoves(t, e, forward, ofType, restarts, i, node, diff);
        ghost var reached: nat := Moved(|kids|, forward, restarts, i, node).1;
        if !ofType {
          SweepMoves(t, e, dirruns, before, nthLast, restarts, i, node, diff);
        }
        var next := Link(t, forward, node);
        if next.None? {
          diff := 0;
          restarts := restarts - 1;
          next := Some(if forward then kids[0] else kids[|kids| - 1]);
        }
        node := next;
        i := reached;
        if Counts(t, e, ofType, node.value) {
          diff := diff + 1;
          if !ofType {
            nthLast := nthLast[node.value := NthLastEntry(dirruns, diff)];
          }
          if node.value == e {
            break;
          }
        }
      }
      if !ofType {
        SweepEnds(t, e, dirruns, nth, before, nthLast, pivots);
        pivots := pivots[parent := e];
      }
    }
  }
}
