/**
 Where a deferred gets to: every return of a callback makes the next call or takes its list off the stack, so when
 the callbacks only return every callback that is owed is called; and what `progress` calls, before the settlement and
 after it.
 */
module DeferredRuns {
  import opened Sequences
  import C = Callbacks
  import opened Deferred
  import opened OwedCalls
  import opened CallbackMemory

  lemma Bounds(d: State)
    requires ListsRight(d)
    ensures forall w: Which :: -1 <= List(d, w).firingIndex
  {
  }

  // ---------------------------------------------------------------- returns

  /** How many returns it takes until no callback runs. */
  ghost function Owing(d: State): nat
    requires ListsRight(d)
  {
    Bounds(d);
    assert List(d, Progress) == d.progress && List(d, Done) == d.done && List(d, Fail) == d.fail;
    |Owed(d.progress)| + |Owed(d.done)| + |Owed(d.fail)| + |d.stack|
  }

  /**
   The callback that runs returns: its list makes the first call that it owes, or owes none and leaves the stack.
   Nothing else happens.
   */
  lemma ReturnPaysTop(d: State)
    requires ListsRight(d) && StackRight(d) && d.stack != []
    ensures var r, top := Step(d, ReturnEvent), d.stack[|d.stack| - 1];
      && List(d, top).firing && -1 <= List(d, top).firingIndex
      && Paid(List(d, top).log.calls, Owed(List(d, top)), List(r, top))
      && r.stack == (if Owed(List(d, top)) == [] then d.stack[..|d.stack| - 1] else d.stack)
      && (forall w: Which :: w != top ==> List(r, w) == List(d, w))
      && r.phase == d.phase && StackRight(r)
  {
    hide C.Inv, C.Continue, Owed;
    var r, top := Step(d, ReturnEvent), d.stack[|d.stack| - 1];
    assert top in d.stack;
    ListInv(d, top);
    ReturnPays(List(d, top));
    assert List(r, top) == C.Return(List(d, top));
    StackPop(d, r, top);
  }

  /** Each return brings a deferred one step closer to where no callback runs. */
  lemma ReturnOwesLess(d: State)
    requires ListsRight(d) && StackRight(d) && d.stack != []
    ensures Owing(Step(d, ReturnEvent)) == Owing(d) - 1
  {
    hide C.Inv, Owed, Step, StackRight, ListsRight;
    var r, top := Step(d, ReturnEvent), d.stack[|d.stack| - 1];
    Bounds(d);
    Bounds(r);
    ReturnPaysTop(d);
    PaidLength(List(d, top), List(r, top));
    assert d.progress == List(d, Progress) && d.done == List(d, Done) && d.fail == List(d, Fail);
    assert r.progress == List(r, Progress) && r.done == List(r, Done) && r.fail == List(r, Fail);
  }

  lemma PaidLength(s: C.State, r: C.State)
    requires -1 <= s.firingIndex && Paid(s.log.calls, Owed(s), r)
    ensures |Owed(r)| == if Owed(s) == [] then 0 else |Owed(s)| - 1
  {
    assert |r.log.calls + Owed(r)| == |s.log.calls + Owed(s)|;
  }

  lemma {:induction false} InternalsStack(d: State, which: Which, n: nat)
    requires ListsRight(d) && which != Progress
    ensures var r := RunInternals(d, which, n);
      r.stack == d.stack && forall w: Which :: w != which ==> List(r, w).firing == List(d, w).firing
    decreases n
  {
    hide C.Inv, ReturnOf, ListsRight;
    if n > 0 {
      InternalsStack(RunInternal(d, which), which, n - 1);
    }
  }

  /** The lists that fire in r and not in d are on top of the stack, and nothing else is. */
  ghost predicate OnTop(d: State, r: State) {
    && (forall w: Which :: !List(d, w).firing && List(r, w).firing ==> r.stack == d.stack + [w])
    && ((forall w: Which :: List(r, w).firing ==> List(d, w).firing) ==> r.stack == d.stack)
  }

  lemma StackedOnTop(d: State, r: State, which: Which)
    requires r.stack == d.stack && forall w: Which :: w != which ==> List(r, w).firing == List(d, w).firing
    ensures OnTop(d, Stacked(r, List(d, which), which))
  {
    var q := Stacked(r, List(d, which), which);
    assert forall w: Which :: List(q, w) == List(r, w);
  }

  lemma SettledStack(d: State, which: Which, args: C.Args)
    requires ListsRight(d) && which != Progress
    ensures OnTop(d, Settle(d, which, args))
  {
    var list := List(d, which);
    if !list.locked {
      C.FireKeeps(list, args);
      var fired := WithList(d, which, C.FireWith(list, args));
      assert ListsRight(fired) && fired.stack == d.stack;
      assert forall w: Which :: w != which ==> List(fired, w) == List(d, w);
      hide C.Inv, C.FireWith, RunInternals, ListsRight, OnTop, WithList;
      InternalsStack(fired, which, |INTERNALS|);
      StackedOnTop(d, RunInternals(fired, which, |INTERNALS|), which);
    }
  }

  lemma AddedStack(d: State, which: Which, callbacks: seq<nat>)
    requires ListsRight(d)
    ensures OnTop(d, AddTo(d, which, callbacks))
  {
    C.AddKeeps(List(d, which), User(callbacks));
    hide C.Inv, C.Add, OnTop;
    StackedOnTop(d, WithList(d, which, C.Add(List(d, which), User(callbacks))), which);
  }

  lemma NotifiedStack(d: State, args: C.Args)
    requires ListsRight(d)
    ensures OnTop(d, Notify(d, args))
  {
    C.FireKeeps(d.progress, args);
    hide C.Inv, C.FireWith, OnTop;
    StackedOnTop(d, d.(progress := C.FireWith(d.progress, args)), Progress);
  }

  /** A list that begins to fire runs on top of those that are firing: its callbacks return before theirs do. */
  lemma NestedRunsOnTop(d: State, e: Event)
    requires ListsRight(d) && e != ReturnEvent
    ensures OnTop(d, Step(d, e))
  {
    hide OnTop, ListsRight, Settle, AddTo, Notify;
    match e
    case ResolveEvent(args) => SettledStack(d, Done, args);
    case RejectEvent(args) => SettledStack(d, Fail, args);
    case NotifyEvent(args) => NotifiedStack(d, args);
    case DoneEvent(callbacks) => AddedStack(d, Done, callbacks);
    case FailEvent(callbacks) => AddedStack(d, Fail, callbacks);
    case ProgressEvent(callbacks) => AddedStack(d, Progress, callbacks);
  }

  function Returns(n: nat): seq<Event> {
    seq(n, i => ReturnEvent)
  }

  /** All that a list has called, and still owes. */
  ghost function CallsInAll(d: State, w: Which): seq<C.Call>
    requires ListsRight(d)
  {
    Bounds(d);
    List(d, w).log.calls + Owed(List(d, w))
  }

  lemma ReturnConserves(d: State, w: Which)
    requires ListsRight(d) && StackRight(d) && d.stack != []
    ensures CallsInAll(Step(d, ReturnEvent), w) == CallsInAll(d, w)
  {
    hide C.Inv, Owed, Step, StackRight, ListsRight;
    Bounds(d);
    Bounds(Step(d, ReturnEvent));
    ReturnPaysTop(d);
  }

  /** If the callbacks only return, the stack empties, and every list calls just what it owes. */
  lemma {:induction false} ReturnsDrain(d: State, w: Which)
    requires ListsRight(d) && StackRight(d)
    ensures var r := Run(d, Returns(Owing(d)));
      ListsRight(r) && StackRight(r) && r.stack == [] && List(r, w).log.calls == CallsInAll(d, w)
    decreases Owing(d)
  {
    hide C.Inv, Owed, Step;
    Bounds(d);
    if d.stack == [] {
      NothingOwed(d);
      assert Returns(0) == [] && Run(d, []) == d;
      assert List(d, w).log.calls + [] == List(d, w).log.calls;
    } else {
      ReturnOwesLess(d);
      ReturnConserves(d, w);
      ReturnPaysTop(d);
      var n := Owing(d);
      assert Returns(n)[0] == ReturnEvent && Returns(n)[1..] == Returns(n - 1);
      ReturnsDrain(Step(d, ReturnEvent), w);
    }
  }

  lemma NothingOwed(d: State)
    requires ListsRight(d) && StackRight(d) && d.stack == []
    ensures Owing(d) == 0 && forall w: Which :: -1 <= List(d, w).firingIndex && Owed(List(d, w)) == []
  {
    Bounds(d);
    assert forall w: Which :: !List(d, w).firing;
    assert List(d, Progress) == d.progress && List(d, Done) == d.done && List(d, Fail) == d.fail;
  }

  lemma {:induction false} RunAppend(d: State, a: seq<Event>, b: seq<Event>)
    requires ListsRight(d)
    ensures ListsRight(Run(d, a)) && Run(d, a + b) == Run(Run(d, a), b)
    decreases |a|
  {
    hide ListsRight, Step;
    if a == [] {
      assert a + b == b;
    } else {
      assert (a + b)[1..] == a[1..] + b;
      RunAppend(Step(d, a[0]), a[1..], b);
    }
  }

  /** Returns add nothing and settle nothing. */
  lemma {:induction false} ReturnsChangeNothing(events: seq<Event>, n: nat)
    ensures FirstSettlement(events + Returns(n)) == FirstSettlement(events)
    ensures DoneAdditions(events + Returns(n)) == DoneAdditions(events)
    ensures FailAdditions(events + Returns(n)) == FailAdditions(events)
    decreases |events|, n
  {
    var all := events + Returns(n);
    if events != [] {
      assert all[1..] == events[1..] + Returns(n);
      ReturnsChangeNothing(events[1..], n);
    } else if n > 0 {
      assert all[0] == ReturnEvent && all[1..] == [] + Returns(n - 1);
      ReturnsChangeNothing([], n - 1);
    } else {
      assert all == [];
    }
  }

  /**
   After any history, if the callbacks only return from then on, after so many returns no callback runs, and if the
   deferred has been settled every callback of that outcome has been called, once and in order, with the values of
   the settlement, and none of the other.
   */
  lemma EveryCallbackIsCalled(events: seq<Event>)
    ensures ListsRight(New()) && ListsRight(Run(New(), events))
    ensures var n := Owing(Run(New(), events));
      var r, first := Run(New(), events + Returns(n)), FirstSettlement(events);
      && r.stack == []
      && (first.Some? ==>
            var s := first.value;
            var list := List(r, s.which);
            && s.which != Progress
            && C.CallbacksOf(C.EntriesOf(list.log.calls)) ==
               INTERNALS + User(if s.which == Done then DoneAdditions(events) else FailAdditions(events))
            && (forall i :: 0 <= i < |list.log.calls| ==> list.log.calls[i].args == s.args)
            && List(r, Other(s.which)).log.calls == [])
  {
    NewIsUnsettled();
    RunReaches(New(), events, None, [], []);
    var d := Run(New(), events);
    ReachedStack(d, FirstSettlement(events), [] + DoneAdditions(events), [] + FailAdditions(events));
    var n := Owing(d);
    RunAppend(New(), events, Returns(n));
    ReturnsDrain(d, Done);
    hide Run, Owing, FirstSettlement, DoneAdditions, FailAdditions, C.Inv, StackRight, ListsRight, C.CallbacksOf, User;
    ReturnsChangeNothing(events, n);
    SettlesOnce(events + Returns(n));
    NothingLeft(Run(New(), events + Returns(n)), FirstSettlement(events),
                DoneAdditions(events), FailAdditions(events));
  }

  lemma ReachedStack(d: State, first: Option<Settlement>, done: seq<nat>, fail: seq<nat>)
    requires Reached(d, first, done, fail)
    ensures ListsRight(d) && StackRight(d)
  {
  }

  lemma NothingLeft(r: State, first: Option<Settlement>, done: seq<nat>, fail: seq<nat>)
    requires first.Some? && first.value.which != Progress ==>
      var list := List(r, first.value.which);
      && -1 <= list.firingIndex && C.Pending(list) == []
      && CallsEvery(list, if first.value.which == Done then done else fail, first.value.args)
    ensures first.Some? && first.value.which != Progress ==>
      var list := List(r, first.value.which);
      C.CallbacksOf(C.EntriesOf(list.log.calls)) == INTERNALS + User(if first.value.which == Done then done else fail)
  {
    if first.Some? && first.value.which != Progress {
      var list := List(r, first.value.which);
      assert C.CallbacksOf([]) == [];
      assert C.CallbacksOf(C.EntriesOf(list.log.calls)) + [] == C.CallbacksOf(C.EntriesOf(list.log.calls));
    }
  }

  // ---------------------------------------------------------------- progress

  function Notified(events: seq<Event>): seq<C.Args> {
    if events == [] then []
    else (if events[0].NotifyEvent? then [events[0].args] else []) + Notified(events[1..])
  }

  lemma NotifyRemembers(d: State, e: Event, fires: seq<C.Args>)
    requires ListsRight(d) && Remembers(d.progress, fires) && !e.ResolveEvent? && !e.RejectEvent?
    ensures Remembers(Step(d, e).progress, fires + if e.NotifyEvent? then [e.args] else [])
  {
    hide C.Inv, Remembers, C.Continue;
    assert fires + [] == fires;
    match e
    case NotifyEvent(args) => FireRemembers(d.progress, args, fires);
    case ProgressEvent(callbacks) => AddRemembers(d.progress, User(callbacks), fires);
    case ReturnEvent =>
      StepRemembers(d.progress, C.ReturnEvent, fires);
    case _ =>
  }

  lemma {:induction false} RunNotified(d: State, events: seq<Event>, fires: seq<C.Args>)
    requires ListsRight(d) && Remembers(d.progress, fires) && FirstSettlement(events).None?
    ensures Remembers(Run(d, events).progress, fires + Notified(events))
    decreases |events|
  {
    hide ListsRight, Remembers, Step;
    if events == [] {
      assert fires + [] == fires;
    } else {
      var told := if events[0].NotifyEvent? then [events[0].args] else [];
      NotifyRemembers(d, events[0], fires);
      RunNotified(Step(d, events[0]), events[1..], fires + told);
      assert fires + told + Notified(events[1..]) == fires + (told + Notified(events[1..]));
    }
  }

  /**
   As long as nothing is settled: once there has been a notification, a progress callback that is added while no
   progress callback runs is called at once with the last notification.
   */
  lemma LateProgressIsCalled(events: seq<Event>, callbacks: seq<nat>)
    requires FirstSettlement(events).None?
    ensures ListsRight(New()) && ListsRight(Run(New(), events))
    ensures var d := Run(New(), events);
      var r := Step(d, ProgressEvent(callbacks));
      && (Notified(events) == [] ==> r.progress.log.calls == [])
      && (Notified(events) != [] && !d.progress.firing ==>
            && d.progress.log.added <= r.progress.log.added
            && C.CallbacksOf(NewEntries(d.progress, r.progress)) == User(callbacks)
            && Paid(d.progress.log.calls, CallsWith(NewEntries(d.progress, r.progress), Last(Notified(events))),
                    r.progress))
  {
    hide C.Inv, C.OnceMemory, Run, Notified, Paid, C.CallbacksOf, Reached, FirstSettlement;
    NewIsUnsettled();
    ReachedStack(New(), None, [], []);
    RunReaches(New(), events, None, [], []);
    var d := Run(New(), events);
    ReachedStack(d, FirstSettlement(events), [] + DoneAdditions(events), [] + FailAdditions(events));
    NewRemembers();
    RunNotified(New(), events, []);
    assert [] + Notified(events) == Notified(events);
    RepeatableRun(New(), events);
    hide New;
    LateProgressStep(d, Notified(events), callbacks);
  }

  lemma NewRemembers()
    ensures ListsRight(New()) && Remembers(New().progress, []) && !New().progress.options.unique
  {
    hide C.Add, ListsRight, StackRight, Reached, Remembers, C.Inv, CallsEvery, C.Initial;
    NewIsUnsettled();
    ReachedStack(New(), None, [], []);
    FreshRemembers();
  }

  lemma FreshRemembers()
    ensures var s := C.Initial(C.Options(false, true, false)); Remembers(s, []) && !s.options.unique
  {
  }

  lemma LateProgressStep(d: State, fires: seq<C.Args>, callbacks: seq<nat>)
    requires ListsRight(d) && Remembers(d.progress, fires) && !d.progress.options.unique
    ensures var r := Step(d, ProgressEvent(callbacks));
      && (fires == [] ==> r.progress.log.calls == [])
      && (fires != [] && !d.progress.firing ==>
            && d.progress.log.added <= r.progress.log.added
            && C.CallbacksOf(NewEntries(d.progress, r.progress)) == User(callbacks)
            && Paid(d.progress.log.calls, CallsWith(NewEntries(d.progress, r.progress), Last(fires)), r.progress))
  {
    ListInv(d, Progress);
    hide C.Inv, C.Add, Paid, C.CallbacksOf, ListsRight;
    AddedToProgress(d, callbacks);
    if fires == [] {
      AddWaits(d.progress, User(callbacks));
    } else if !d.progress.firing {
      AddReplays(d.progress, User(callbacks));
    }
  }

  lemma AddedToProgress(d: State, callbacks: seq<nat>)
    requires ListsRight(d)
    ensures -1 <= d.progress.firingIndex && C.Inv(d.progress)
    ensures Step(d, ProgressEvent(callbacks)).progress == C.Add(d.progress, User(callbacks))
  {
    ListInv(d, Progress);
    IndexInRange(d.progress);
    hide C.Add;
  }

  lemma {:induction false} RepeatableRun(d: State, events: seq<Event>)
    requires ListsRight(d) && FirstSettlement(events).None?
    ensures Run(d, events).progress.options == d.progress.options
    decreases |events|
  {
    hide ListsRight, Step;
    if events != [] {
      RepeatableStep(d, events[0]);
      RepeatableRun(Step(d, events[0]), events[1..]);
    }
  }

  lemma RepeatableStep(d: State, e: Event)
    requires ListsRight(d) && !e.ResolveEvent? && !e.RejectEvent?
    ensures Step(d, e).progress.options == d.progress.options
  {
    hide C.Inv, C.Continue;
    match e
    case NotifyEvent(args) => StepOptions(d.progress, C.FireEvent(args));
    case ProgressEvent(callbacks) => StepOptions(d.progress, C.AddEvent(User(callbacks)));
    case ReturnEvent => StepOptions(d.progress, C.ReturnEvent);
    case _ =>
  }

  lemma LockedProgressReturn(d: State)
    requires ListsRight(d) && Locked(d.progress)
    ensures StaysLocked(d.progress, Step(d, ReturnEvent).progress, d.progress.memory)
  {
    ListInv(d, Progress);
    hide C.Inv, C.Step, ListsRight, StaysLocked, Step;
    SameStaysLocked(d.progress);
    LockedStep(d.progress, C.ReturnEvent);
    ReturnOfProgress(d);
  }

  lemma LockedProgressAdd(d: State, callbacks: seq<nat>)
    requires ListsRight(d) && Locked(d.progress)
    ensures StaysLocked(d.progress, Step(d, ProgressEvent(callbacks)).progress, d.progress.memory)
  {
    hide C.Inv, C.Add, ListsRight, StaysLocked, Step;
    AddedToProgress(d, callbacks);
    LockedStep(d.progress, C.AddEvent(User(callbacks)));
  }

  /** Once its list is locked, `progress` calls with what it remembers only. */
  lemma LockedProgressStep(d: State, e: Event, s: Settlement, done: seq<nat>, fail: seq<nat>)
    requires Reached(d, Some(s), done, fail) && Locked(d.progress)
    ensures ListsRight(d) && StaysLocked(d.progress, Step(d, e).progress, d.progress.memory)
  {
    ReachedStack(d, Some(s), done, fail);
    hide C.Inv, C.Add, Reached, StaysLocked, ListsRight, Settle, Notify, Locked, ReturnTop;
    SameStaysLocked(d.progress);
    match e
    case ResolveEvent(args) => LaterSettlementsIgnored(d, s, done, fail, args);
    case RejectEvent(args) => LaterSettlementsIgnored(d, s, done, fail, args);
    case NotifyEvent(args) => LaterSettlementsIgnored(d, s, done, fail, args);
    case DoneEvent(_) =>
    case FailEvent(_) =>
    case ProgressEvent(callbacks) => LockedProgressAdd(d, callbacks);
    case ReturnEvent => LockedProgressReturn(d);
  }

  lemma ReturnOfProgress(d: State)
    requires ListsRight(d) && C.Inv(d.progress)
    ensures Step(d, ReturnEvent).progress == d.progress ||
            Step(d, ReturnEvent).progress == C.Step(d.progress, C.ReturnEvent)
  {
    hide C.Inv, C.Continue;
  }

  lemma SameStaysLocked(s: C.State)
    requires Locked(s)
    ensures StaysLocked(s, s, s.memory)
  {
  }

  lemma {:induction false} LockedProgressRun(d: State, events: seq<Event>, s: Settlement,
                                             done: seq<nat>, fail: seq<nat>)
    requires Reached(d, Some(s), done, fail) && Locked(d.progress)
    ensures ListsRight(d) && StaysLocked(d.progress, Run(d, events).progress, d.progress.memory)
    decreases |events|
  {
    ReachedStack(d, Some(s), done, fail);
    hide Reached, ListsRight, Step;
    if events == [] {
      SameStaysLocked(d.progress);
    } else {
      var e := events[0];
      var r := Step(d, e);
      StepReaches(d, e, Some(s), done, fail);
      LockedProgressStep(d, e, s, done, fail);
      LockedProgressRun(r, events[1..], s, done + DoneAdded(e), fail + FailAdded(e));
      StaysLockedTwice(d.progress, r.progress, Run(r, events[1..]).progress);
    }
  }

  lemma StaysLockedTwice(a: C.State, b: C.State, c: C.State)
    requires StaysLocked(a, b, a.memory) && StaysLocked(b, c, b.memory)
    ensures StaysLocked(a, c, a.memory)
  {
    forall i | |a.log.calls| <= i < |c.log.calls| ensures Some(c.log.calls[i].args) == a.memory {
      if i < |b.log.calls| { assert c.log.calls[i] == b.log.calls[i]; }
    }
  }

  /** Once the deferred is settled, by whatever history, the progress list is locked. */
  lemma {:induction false} SettledIsLocked(d: State, events: seq<Event>, done: seq<nat>, fail: seq<nat>)
    requires Reached(d, None, done, fail) && FirstSettlement(events).Some?
    ensures ListsRight(d) && Locked(Run(d, events).progress)
    decreases |events|
  {
    ReachedStack(d, None, done, fail);
    var e := events[0];
    var r := Step(d, e);
    StepReaches(d, e, None, done, fail);
    if e.ResolveEvent? || e.RejectEvent? {
      var which := if e.ResolveEvent? then Done else Fail;
      FirstSettle(d, which, e.args, done, fail);
      hide Reached, ListsRight, Step;
      LockedProgressRun(r, events[1..], Settlement(which, e.args), done + DoneAdded(e), fail + FailAdded(e));
    } else {
      hide Reached, ListsRight, Step;
      SettledIsLocked(r, events[1..], done + DoneAdded(e), fail + FailAdded(e));
    }
  }

  /**
   After the settlement no notification is taken any more: whatever happens, progress callbacks are called only with
   what the progress list remembered when it was locked.
   */
  lemma ProgressEndsWithSettlement(events: seq<Event>, more: seq<Event>)
    requires FirstSettlement(events).Some?
    ensures ListsRight(New()) && ListsRight(Run(New(), events))
    ensures var d := Run(New(), events);
      StaysLocked(d.progress, Run(d, more).progress, d.progress.memory)
  {
    NewIsUnsettled();
    RunReaches(New(), events, None, [], []);
    SettledIsLocked(New(), events, [], []);
    var d := Run(New(), events);
    LockedProgressRun(d, more, FirstSettlement(events).value, [] + DoneAdditions(events), [] + FailAdditions(events));
    ReachedStack(d, FirstSettlement(events), [] + DoneAdditions(events), [] + FailAdditions(events));
  }
}
