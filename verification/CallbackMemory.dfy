/**
 What callback lists remember: a repeatable list with the option `memory` its last fire, for additions made later;
 a locked list, and so a list with the option `once`, nothing but the arguments it was locked with.
 */
module CallbackMemory {
  import opened Sequences
  import opened Callbacks
  import opened OwedCalls

  function Last(args: seq<Args>): Args
    requires args != []
  {
    args[|args| - 1]
  }

  // ---------------------------------------------------------------- the last fire

  /** A pass is on, with the arguments that were started last. */
  ghost predicate Passing(s: State) {
    InPass(s) && s.firing && InOrder(s) && s.options.memory && !s.locked && !s.options.once && s.list.Some?
    && s.memory == Some(Last(s.log.started))
  }

  /** Still passing, or at rest with the arguments that were queued last. */
  ghost predicate PassedOn(s: State, r: State) {
    && r.options == s.options && !r.locked && r.fired == s.fired && r.list.Some?
    && r.log.pushed == s.log.pushed && r.memory.Some?
    && (!r.firing ==> s.log.pushed != [] && r.memory.value == Last(s.log.pushed))
  }

  lemma {:induction false} ContinuePasses(s: State)
    requires Passing(s)
    ensures PassedOn(s, Continue(s))
    decreases |s.queue|, 1
  {
    if !(s.firingIndex + 1 < |s.list.value|) {
      NextPassPasses(EndPass(s));
    }
  }

  lemma {:induction false} NextPassPasses(s: State)
    requires -1 <= s.firingIndex && s.firing && InOrder(s.(firing := false)) && s.list.Some?
    requires s.options.memory && !s.locked && !s.options.once
    requires s.queue == [] ==> s.log.started != [] && s.memory == Some(Last(s.log.started))
    ensures PassedOn(s, NextPass(s))
    decreases |s.queue|, 0
  {
    if s.queue != [] {
      assert s.log.started + s.queue == s.log.started + [s.queue[0]] + s.queue[1..];
      ContinuePasses(StartPass(s));
    } else {
      assert s.log.started + [] == s.log.started;
    }
  }

  /** The list has been fired with these arguments, one after the other, and remembers the last. */
  ghost predicate Remembers(s: State, fires: seq<Args>) {
    && InOrder(s) && s.options.memory && !s.options.once && !s.locked && s.list.Some?
    && (if fires == [] then !s.fired && !s.firing && s.memory.None? && s.log.pushed == [] && s.log.calls == []
        else s.fired && s.memory.Some? && s.log.pushed != [] && Last(s.log.pushed) == Last(fires)
             && (!s.firing ==> s.memory.value == Last(fires)))
  }

  lemma FireRemembers(s: State, args: Args, fires: seq<Args>)
    requires Inv(s) && Remembers(s, fires)
    ensures Remembers(FireWith(s, args), fires + [args])
  {
    StepInOrder(s, FireEvent(args));
    var p := s.(queue := s.queue + [args], log := s.log.(pushed := s.log.pushed + [args]));
    if !s.firing {
      NextPassPasses(p.(locked := p.locked || p.options.once, fired := true, firing := true));
    }
  }

  lemma AddRemembers(s: State, callbacks: seq<nat>, fires: seq<Args>)
    requires Inv(s) && Remembers(s, fires)
    ensures Remembers(Add(s, callbacks), fires)
  {
    StepInOrder(s, AddEvent(callbacks));
    if s.memory.Some? && !s.firing {
      var p := Push(PushMemory(s), callbacks);
      NextPassPasses(p.(locked := p.locked || p.options.once, fired := true, firing := true));
    }
  }

  lemma StepRemembers(s: State, e: Event, fires: seq<Args>)
    requires Inv(s) && Remembers(s, fires) && e != LockEvent && e != DisableEvent
    ensures Remembers(Step(s, e), fires + if e.FireEvent? then [e.args] else [])
  {
    StepInOrder(s, e);
    assert fires + [] == fires;
    match e
    case AddEvent(callbacks) => AddRemembers(s, callbacks, fires);
    case RemoveEvent(callbacks) => RemoveTouchesList(s, callbacks);
    case FireEvent(args) => FireRemembers(s, args, fires);
    case LockEvent =>
    case DisableEvent =>
    case ReturnEvent => if s.firing { ContinuePasses(s); }
  }

  lemma {:induction false} RunRemembers(s: State, events: seq<Event>, fires: seq<Args>)
    requires Inv(s) && Remembers(s, fires) && NothingDropped(events)
    ensures Remembers(Run(s, events), fires + FiredArgs(events))
    decreases |events|
  {
    hide Inv, Remembers, Step;
    if events == [] {
      assert fires + [] == fires;
    } else {
      var fired := if events[0].FireEvent? then [events[0].args] else [];
      StepRemembers(s, events[0], fires);
      StepKeeps(s, events[0]);
      RunRemembers(Step(s, events[0]), events[1..], fires + fired);
      assert fires + fired + FiredArgs(events[1..]) == fires + (fired + FiredArgs(events[1..]));
    }
  }

  /**
   Over every run of a repeatable list with memory: once it has been fired and is at rest, it remembers the last
   fire. What is added then is called at once, in order, with these arguments, and nothing else is; before the first
   fire nothing is called.
   */
  lemma LateAdditionsAreCalled(unique: bool, events: seq<Event>, callbacks: seq<nat>)
    requires NothingDropped(events)
    ensures Inv(Initial(Options(false, true, unique)))
    ensures var s := Run(Initial(Options(false, true, unique)), events);
      && (FiredArgs(events) == [] ==> s.log.calls == [] && Add(s, callbacks).log.calls == [])
      && (FiredArgs(events) != [] && !s.firing ==>
            && s.memory == Some(Last(FiredArgs(events)))
            && var r := Add(s, callbacks);
               && s.log.added <= r.log.added
               && Paid(s.log.calls, CallsWith(NewEntries(s, r), Last(FiredArgs(events))), r)
               && (!unique ==> CallbacksOf(NewEntries(s, r)) == callbacks))
  {
    var first := Initial(Options(false, true, unique));
    InitialInv(first.options);
    assert Remembers(first, []);
    RunRemembers(first, events, []);
    assert [] + FiredArgs(events) == FiredArgs(events);
    var s := Run(first, events);
    RunOptions(first, events);
    hide Inv, Run, FiredArgs, Paid, CallbacksOf;
    if FiredArgs(events) != [] && !s.firing {
      AddReplays(s, callbacks);
    }
    if FiredArgs(events) == [] {
      AddWaits(s, callbacks);
    }
  }

  lemma {:induction false} RunOptions(s: State, events: seq<Event>)
    requires Inv(s)
    ensures Run(s, events).options == s.options
    decreases |events|
  {
    if events != [] {
      StepKeeps(s, events[0]);
      StepOptions(s, events[0]);
      RunOptions(Step(s, events[0]), events[1..]);
    }
  }

  lemma StepOptions(s: State, e: Event)
    requires Inv(s)
    ensures Step(s, e).options == s.options
  {
    match e
    case AddEvent(callbacks) =>
      if s.list.Some? && s.memory.Some? && !s.firing {
        var p := Push(PushMemory(s), callbacks);
        NextPassOptions(p.(locked := p.locked || p.options.once, fired := true, firing := true));
      }
    case RemoveEvent(callbacks) => RemoveTouchesList(s, callbacks);
    case FireEvent(args) =>
      if !s.locked && !s.firing {
        var p := s.(queue := s.queue + [args], log := s.log.(pushed := s.log.pushed + [args]));
        NextPassOptions(p.(locked := p.locked || p.options.once, fired := true, firing := true));
      }
    case LockEvent =>
    case DisableEvent =>
    case ReturnEvent => if s.firing { ContinueOptions(s); }
  }

  lemma {:induction false} ContinueOptions(s: State)
    requires InPass(s)
    ensures Continue(s).options == s.options
    decreases |s.queue|, 1
  {
    if !(s.list.Some? && s.firingIndex + 1 < |s.list.value|) { NextPassOptions(EndPass(s)); }
  }

  lemma {:induction false} NextPassOptions(s: State)
    requires -1 <= s.firingIndex
    ensures NextPass(s).options == s.options
    decreases |s.queue|, 0
  {
    if s.queue != [] { ContinueOptions(StartPass(s)); }
  }

  // ---------------------------------------------------------------- locked lists

  /** Locked, with nothing queued. */
  ghost predicate Locked(s: State) {
    s.locked && s.queue == []
  }

  /** From s to r only calls with these arguments were made. */
  ghost predicate CallsOnly(s: State, r: State, args: Option<Args>) {
    && s.log.calls <= r.log.calls
    && forall i :: |s.log.calls| <= i < |r.log.calls| ==> Some(r.log.calls[i].args) == args
  }

  ghost predicate StaysLocked(s: State, r: State, args: Option<Args>) {
    Locked(r) && (r.memory.Some? ==> r.memory == args) && CallsOnly(s, r, args)
  }

  lemma LockedContinues(s: State)
    requires InPass(s) && Locked(s) && s.memory.Some?
    ensures StaysLocked(s, Continue(s), s.memory)
  {
    if !(s.list.Some? && s.firingIndex + 1 < |s.list.value|) {
      assert Continue(s) == Finish(EndPass(s));
    }
  }

  lemma LockedStep(s: State, e: Event)
    requires Inv(s) && Locked(s)
    ensures StaysLocked(s, Step(s, e), s.memory)
  {
    match e
    case AddEvent(callbacks) =>
      if s.list.Some? && s.memory.Some? && !s.firing {
        var p := Push(PushMemory(s), callbacks);
        var q := StartPass(p.(locked := true, fired := true, firing := true));
        assert Add(s, callbacks) == Continue(q);
        LockedContinues(q);
      }
    case RemoveEvent(callbacks) => RemoveTouchesList(s, callbacks);
    case FireEvent(args) =>
    case LockEvent =>
    case DisableEvent =>
    case ReturnEvent =>
      if s.firing {
        if s.memory.Some? { LockedContinues(s); } else { assert Continue(s) == Finish(EndPass(s)); }
      }
  }

  /** Whatever happens to a locked list, it makes calls with the arguments it remembers only. */
  lemma {:induction false} LockedRun(s: State, events: seq<Event>)
    requires Inv(s) && Locked(s)
    ensures StaysLocked(s, Run(s, events), s.memory)
    decreases |events|
  {
    hide Inv;
    if events != [] {
      var r := Step(s, events[0]);
      StepKeeps(s, events[0]);
      LockedStep(s, events[0]);
      LockedRun(r, events[1..]);
      var last := Run(r, events[1..]);
      forall i | |s.log.calls| <= i < |last.log.calls| ensures Some(last.log.calls[i].args) == s.memory {
        if i < |r.log.calls| { assert last.log.calls[i] == r.log.calls[i]; }
      }
    }
  }

  /** A list with the option `once` makes calls with the arguments of its first fire only, whatever happens. */
  lemma OnceCallsWithFirst(memory: bool, unique: bool, events: seq<Event>)
    ensures Inv(Initial(Options(true, memory, unique)))
    ensures var s := Run(Initial(Options(true, memory, unique)), events);
      forall i :: 0 <= i < |s.log.calls| ==> Some(s.log.calls[i].args) == FirstFire(events)
  {
    InitialInv(Options(true, memory, unique));
    OnceRun(Initial(Options(true, memory, unique)), events);
  }

  /** Not fired yet. */
  ghost predicate Unfired(s: State) {
    s.options.once && !s.firing && s.memory.None? && s.log.calls == []
  }

  lemma {:induction false} OnceRun(s: State, events: seq<Event>)
    requires Inv(s) && Unfired(s)
    ensures var r := Run(s, events);
      forall i :: 0 <= i < |r.log.calls| ==> Some(r.log.calls[i].args) == FirstFire(events)
    decreases |events|
  {
    hide Step, ListRight, InPass;
    if events != [] {
      var e := events[0];
      var r := Step(s, e);
      StepKeeps(s, e);
      if e.FireEvent? && !s.locked {
        OnceFires(s, e.args);
        LockedRun(r, events[1..]);
        var last := Run(r, events[1..]);
        forall i | 0 <= i < |last.log.calls| ensures Some(last.log.calls[i].args) == Some(e.args) {
          if i < |r.log.calls| { assert last.log.calls[i] == r.log.calls[i]; }
        }
      } else if s.locked {
        LockedRun(s, events);
      } else {
        UnfiredStep(s, e);
        OnceRun(r, events[1..]);
        assert Run(s, events) == Run(r, events[1..]);
        assert FirstFire(events) == FirstFire(events[1..]);
      }
    }
  }

  lemma UnfiredStep(s: State, e: Event)
    requires Inv(s) && Unfired(s) && !e.FireEvent?
    ensures Unfired(Step(s, e))
  {
    match e
    case RemoveEvent(callbacks) => RemoveTouchesList(s, callbacks);
    case _ =>
  }

  lemma OnceFires(s: State, args: Args)
    requires Inv(s) && Unfired(s) && !s.locked
    ensures var r := Step(s, FireEvent(args));
      Locked(r) && (r.memory.Some? ==> r.memory == Some(args))
      && forall i :: 0 <= i < |r.log.calls| ==> r.log.calls[i].args == args
  {
    var p := s.(queue := s.queue + [args], log := s.log.(pushed := s.log.pushed + [args]));
    var q := StartPass(p.(locked := true, fired := true, firing := true));
    assert FireWith(s, args) == Continue(q);
    LockedContinues(q);
  }
}
