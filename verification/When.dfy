/** jQuery.when on two or more inputs: a countdown that settles one master deferred. */
module When {
  import opened Sequences
  import C = Callbacks
  import D = Deferred
  import opened DeferredObject

  datatype State = State(remaining: int, contexts: seq<nat>, values: seq<nat>, master: D.State)

  /** What one input settles with. */
  datatype Outcome = Fulfilled(context: nat, value: nat) | Refused(args: C.Args)

  /** An input settles, or code that holds the promise adds callbacks or returns from one. */
  datatype Event = InputSettles(input: nat, outcome: Outcome) | MasterEvent(event: D.Event)

  function New(inputs: seq<nat>): State {
    State(|inputs|, seq(|inputs|, i => 0), inputs, D.New())
  }

  /** The update function of one input. */
  ghost function Update(s: State, input: nat, context: nat, value: nat): (r: State)
    requires D.ListsRight(s.master) && input < |s.values| == |s.contexts|
    ensures D.ListsRight(r.master) && |r.values| == |s.values| == |r.contexts|
  {
    hide D.ListsRight, D.Settle;
    var contexts, values := s.contexts[input := context], s.values[input := value];
    var s' := s.(contexts := contexts, values := values, remaining := s.remaining - 1);
    if s'.remaining == 0 then s'.(master := D.Settle(s.master, D.Done, C.Args(contexts, values))) else s'
  }

  ghost function Step(s: State, e: Event): (r: State)
    requires D.ListsRight(s.master) && |s.values| == |s.contexts|
    requires e.InputSettles? ==> e.input < |s.values|
    ensures D.ListsRight(r.master) && |r.values| == |s.values| == |r.contexts|
  {
    hide D.ListsRight, D.Settle, D.Step, Update;
    match e
    case InputSettles(i, Fulfilled(context, value)) => Update(s, i, context, value)
    case InputSettles(i, Refused(args)) => s.(master := D.Settle(s.master, D.Fail, args))
    case MasterEvent(event) => s.(master := D.Step(s.master, event))
  }

  // ---------------------------------------------------------------- histories

  /** Inputs settle once each, and the master is settled by nothing else. */
  ghost predicate Lawful(n: nat, events: seq<Event>) {
    && (forall i :: 0 <= i < |events| && events[i].InputSettles? ==> events[i].input < n)
    && (forall i, j :: 0 <= i < j < |events| && events[i].InputSettles? && events[j].InputSettles? ==>
          events[i].input != events[j].input)
    && (forall i :: 0 <= i < |events| && events[i].MasterEvent? ==>
          !events[i].event.ResolveEvent? && !events[i].event.RejectEvent?)
  }

  ghost predicate FulfilledIn(events: seq<Event>, input: nat) {
    exists i :: 0 <= i < |events| && events[i].InputSettles? && events[i].input == input && events[i].outcome.Fulfilled?
  }

  /** How many inputs have been fulfilled. */
  ghost function FulfilledCount(events: seq<Event>): nat {
    if events == [] then 0
    else
      var last := events[|events| - 1];
      FulfilledCount(events[..|events| - 1]) + if last.InputSettles? && last.outcome.Fulfilled? then 1 else 0
  }

  ghost function FirstRefusal(events: seq<Event>): Option<C.Args> {
    if events == [] then None
    else
      var before, last := FirstRefusal(events[..|events| - 1]), events[|events| - 1];
      if before.None? && last.InputSettles? && last.outcome.Refused? then Some(last.outcome.args) else before
  }

  ghost function DoneCallbacks(events: seq<Event>): seq<nat> {
    if events == [] then []
    else
      var last := events[|events| - 1];
      DoneCallbacks(events[..|events| - 1]) + if last.MasterEvent? then D.DoneAdded(last.event) else []
  }

  ghost function FailCallbacks(events: seq<Event>): seq<nat> {
    if events == [] then []
    else
      var last := events[|events| - 1];
      FailCallbacks(events[..|events| - 1]) + if last.MasterEvent? then D.FailAdded(last.event) else []
  }

  ghost function Run(inputs: seq<nat>, events: seq<Event>): (s: State)
    requires Lawful(|inputs|, events)
    ensures D.ListsRight(s.master) && |s.values| == |s.contexts| == |inputs|
  {
    hide D.ListsRight, D.Step, D.New, D.StackRight, D.Unsettled, Step;
    if events == [] then
      D.NewIsUnsettled();
      D.ReachedFacts(D.New(), None, [], []);
      New(inputs)
    else
      assert forall i :: 0 <= i < |events| - 1 ==> events[..|events| - 1][i] == events[i];
      Step(Run(inputs, events[..|events| - 1]), events[|events| - 1])
  }

  /** What the master is settled with, if anything. */
  ghost function Expected(n: nat, events: seq<Event>, s: State): Option<D.Settlement> {
    if FirstRefusal(events).Some? then Some(D.Settlement(D.Fail, FirstRefusal(events).value))
    else if FulfilledCount(events) == n then Some(D.Settlement(D.Done, C.Args(s.contexts, s.values)))
    else None
  }

  /** Every fulfilled input has its own values in its own position. */
  ghost predicate InPosition(s: State, events: seq<Event>) {
    forall i :: 0 <= i < |events| && events[i].InputSettles? && events[i].outcome.Fulfilled? ==>
      && events[i].input < |s.values| == |s.contexts|
      && s.values[events[i].input] == events[i].outcome.value
      && s.contexts[events[i].input] == events[i].outcome.context
  }

  /** The inputs settled so far. */
  ghost function Settled(events: seq<Event>): (r: set<nat>)
    ensures forall k :: k in r <==> exists i :: 0 <= i < |events| && events[i].InputSettles? && events[i].input == k
  {
    if events == [] then {}
    else
      var init, last := events[..|events| - 1], events[|events| - 1];
      assert forall i :: 0 <= i < |init| ==> init[i] == events[i];
      Settled(init) + if last.InputSettles? then {last.input} else {}
  }

  /** Fulfilled inputs are settled inputs; a refused one makes them fewer. */
  lemma {:induction false} CountSettled(n: nat, events: seq<Event>)
    requires Lawful(n, events)
    ensures FulfilledCount(events) + (if FirstRefusal(events).Some? then 1 else 0) <= |Settled(events)| <= n
    decreases |events|
  {
    if events == [] {
    } else {
      var init, last := events[..|events| - 1], events[|events| - 1];
      assert forall i :: 0 <= i < |init| ==> init[i] == events[i];
      CountSettled(n, init);
      if last.InputSettles? {
        assert last.input !in Settled(init);
      }
    }
    SubsetOfRange(Settled(events), n);
  }

  lemma {:induction false} SubsetOfRange(s: set<nat>, n: nat)
    requires forall k :: k in s ==> k < n
    ensures |s| <= n
    decreases n
  {
    if n > 0 {
      SubsetOfRange(s - {n - 1}, n - 1);
      assert |s| <= |s - {n - 1}| + 1;
    } else {
      assert s == {};
    }
  }

  /** What holds after a history. */
  ghost predicate Right(inputs: seq<nat>, events: seq<Event>, s: State) {
    && |s.values| == |s.contexts| == |inputs|
    && s.remaining == |inputs| - FulfilledCount(events)
    && InPosition(s, events)
    && D.Reached(s.master, Expected(|inputs|, events, s), DoneCallbacks(events), FailCallbacks(events))
  }

  /** The histories' functions, one event later. */
  lemma OneEvent(events: seq<Event>, last: Event)
    ensures var more := events + [last];
      && FulfilledCount(more) ==
         FulfilledCount(events) + (if last.InputSettles? && last.outcome.Fulfilled? then 1 else 0)
      && FirstRefusal(more) == (if FirstRefusal(events).None? && last.InputSettles? && last.outcome.Refused?
                                then Some(last.outcome.args) else FirstRefusal(events))
      && DoneCallbacks(more) == DoneCallbacks(events) + (if last.MasterEvent? then D.DoneAdded(last.event) else [])
      && FailCallbacks(more) == FailCallbacks(events) + (if last.MasterEvent? then D.FailAdded(last.event) else [])
  {
    assert (events + [last])[..|events + [last]| - 1] == events;
  }

  lemma InPositionLater(s: State, s': State, events: seq<Event>, last: Event)
    requires InPosition(s, events)
    requires last.InputSettles? && last.outcome.Fulfilled? ==>
      && last.input < |s.values| == |s.contexts|
      && s'.values == s.values[last.input := last.outcome.value]
      && s'.contexts == s.contexts[last.input := last.outcome.context]
      && forall k :: 0 <= k < |events| && events[k].InputSettles? ==> events[k].input != last.input
    requires !(last.InputSettles? && last.outcome.Fulfilled?) ==> s'.values == s.values && s'.contexts == s.contexts
    ensures InPosition(s', events + [last])
  {
    assert forall k :: 0 <= k < |events| ==> (events + [last])[k] == events[k];
  }

  lemma StepIsRight(inputs: seq<nat>, events: seq<Event>, last: Event, s: State)
    requires Lawful(|inputs|, events + [last]) && |inputs| > 0
    requires Right(inputs, events, s) && D.ListsRight(s.master)
    requires last.InputSettles? ==> last.input < |inputs|
    ensures Right(inputs, events + [last], Step(s, last))
  {
    hide D.Reached, D.ListsRight, D.Settle, D.Step;
    hide Lawful, FulfilledCount, FirstRefusal, DoneCallbacks, FailCallbacks, InPosition;
    LawfulParts(|inputs|, events, last);
    OneEvent(events, last);
    InPositionLater(s, Step(s, last), events, last);
    MasterReaches(inputs, events, last, s);
  }

  lemma MasterReaches(inputs: seq<nat>, events: seq<Event>, last: Event, s: State)
    requires Lawful(|inputs|, events + [last]) && |inputs| > 0
    requires Right(inputs, events, s) && D.ListsRight(s.master)
    requires last.InputSettles? ==> last.input < |inputs|
    ensures var more := events + [last];
      D.Reached(Step(s, last).master, Expected(|inputs|, more, Step(s, last)), DoneCallbacks(more), FailCallbacks(more))
  {
    hide D.Reached, D.ListsRight, D.Settle, D.Step;
    hide Lawful, FulfilledCount, FirstRefusal, DoneCallbacks, FailCallbacks, InPosition;
    var n := |inputs|;
    LawfulParts(n, events, last);
    OneEvent(events, last);
    CountSettled(n, events + [last]);
    var first, done, fail := Expected(n, events, s), DoneCallbacks(events), FailCallbacks(events);
    assert done + [] == done && fail + [] == fail;
    match last
    case InputSettles(i, Fulfilled(context, value)) =>
      if s.remaining == 1 {
        D.SettleStep(s.master, first, D.Done,
                     C.Args(s.contexts[i := context], s.values[i := value]), done, fail);
      }
    case InputSettles(i, Refused(args)) =>
      CountSettled(n, events);
      D.SettleStep(s.master, first, D.Fail, args, done, fail);
    case MasterEvent(event) =>
      D.StepReaches(s.master, event, first, done, fail);
  }

  lemma LawfulParts(n: nat, events: seq<Event>, last: Event)
    requires Lawful(n, events + [last])
    ensures Lawful(n, events)
    ensures last.InputSettles? ==>
      last.input < n && forall k :: 0 <= k < |events| && events[k].InputSettles? ==> events[k].input != last.input
    ensures last.MasterEvent? ==> !last.event.ResolveEvent? && !last.event.RejectEvent?
  {
    var more := events + [last];
    assert more[|events|] == last && forall k :: 0 <= k < |events| ==> more[k] == events[k];
  }

  lemma {:induction false} RunIsRight(inputs: seq<nat>, events: seq<Event>)
    requires Lawful(|inputs|, events) && |inputs| > 0
    ensures Right(inputs, events, Run(inputs, events))
    decreases |events|
  {
    hide D.Reached, D.ListsRight, D.Step, D.New, Lawful, Step;
    if events == [] {
      D.NewIsUnsettled();
    } else {
      var init, last := events[..|events| - 1], events[|events| - 1];
      assert events == init + [last];
      LawfulParts(|inputs|, init, last);
      RunIsRight(inputs, init);
      StepIsRight(inputs, init, last, Run(inputs, init));
    }
  }

  /**
   In any order of settlement: `remaining` counts the inputs not yet fulfilled; the master is rejected
   with the first refusal, or else resolved exactly when every input has been fulfilled, with each
   input's values in its own position; and the callbacks of that outcome are owed exactly those
   arguments, those of the other outcome nothing.
   */
  lemma MasterSettlesLast(inputs: seq<nat>, events: seq<Event>)
    requires Lawful(|inputs|, events) && |inputs| >= 2
    ensures var s := Run(inputs, events);
      && s.remaining == |inputs| - FulfilledCount(events)
      && (s.master.phase == D.Resolved <==> FirstRefusal(events).None? && FulfilledCount(events) == |inputs|)
      && (s.master.phase == D.Rejected <==> FirstRefusal(events).Some?)
      && (s.master.phase == D.Resolved ==>
            && (forall k :: 0 <= k < |inputs| ==> FulfilledIn(events, k))
            && InPosition(s, events)
            && C.OnceMemory(s.master.done, Some(C.Args(s.contexts, s.values)))
            && D.Dead(s.master.fail))
      && (s.master.phase == D.Rejected ==>
            && C.OnceMemory(s.master.fail, FirstRefusal(events))
            && D.Dead(s.master.done))
  {
    hide C.OnceMemory, D.Dead, D.ListsRight, D.StackRight;
    RunIsRight(inputs, events);
    if FirstRefusal(events).None? && FulfilledCount(events) == |inputs| {
      AllFulfilled(|inputs|, events);
    }
  }

  /** When as many inputs are fulfilled as there are, each of them is. */
  lemma AllFulfilled(n: nat, events: seq<Event>)
    requires Lawful(n, events) && FirstRefusal(events).None? && FulfilledCount(events) == n
    ensures forall k :: 0 <= k < n ==> FulfilledIn(events, k)
  {
    CountSettled(n, events);
    forall k | 0 <= k < n ensures FulfilledIn(events, k) {
      if k !in Settled(events) {
        var more := Settled(events) + {k};
        assert |more| == |Settled(events)| + 1;
        SubsetOfRange(more, n);
        assert false;
      }
      var i :| 0 <= i < |events| && events[i].InputSettles? && events[i].input == k;
      NoRefusal(events, i);
    }
  }

  lemma {:induction false} NoRefusal(events: seq<Event>, i: nat)
    requires FirstRefusal(events).None? && i < |events| && events[i].InputSettles?
    ensures events[i].outcome.Fulfilled?
    decreases |events|
  {
    if i < |events| - 1 {
      NoRefusal(events[..|events| - 1], i);
    }
  }

  // ---------------------------------------------------------------- the call itself

  class WhenCall {
    var remaining: int
    var contexts: seq<nat>
    var values: seq<nat>
    const master: DeferredObject

    ghost function Now(): State
      reads this, master, master.progress, master.done, master.fail
    {
      State(remaining, contexts, values, master.Now())
    }

    ghost predicate Valid()
      reads this, master, master.progress, master.done, master.fail
    {
      master.Valid() && |values| == |contexts|
    }

    constructor (inputs: seq<nat>)
      ensures Valid() && Now() == New(inputs)
      ensures fresh(master) && fresh(master.progress) && fresh(master.done) && fresh(master.fail)
    {
      hide D.ListsRight, D.New, C.Inv;
      remaining, contexts, values := |inputs|, seq(|inputs|, i => 0), inputs;
      master := new DeferredObject();
    }

    method UpdateInput(input: nat, context: nat, value: nat)
      requires Valid() && input < |values|
      modifies this, master, master.progress, master.done, master.fail
      ensures Valid() && Now() == Update(old(Now()), input, context, value)
    {
      hide D.ListsRight, D.Settle;
      contexts, values := contexts[input := context], values[input := value];
      remaining := remaining - 1;
      if remaining == 0 {
        master.Settle(D.Done, C.Args(contexts, values));
      }
    }
  }
}
