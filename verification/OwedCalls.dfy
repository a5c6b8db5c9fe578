/**
 What a callback list still owes: the calls that follow if the callbacks only return. Every command changes what is
 owed in a simple way, and every return pays one call, until nothing is owed and the list is at rest.
 */
module OwedCalls {
  import opened Sequences
  import opened Callbacks

  function CallsWith(entries: seq<Entry>, args: Args): seq<Call> {
    seq(|entries|, i requires 0 <= i < |entries| => Call(entries[i], args))
  }

  /** One pass over the list for each of the queued arguments. */
  function Passes(list: seq<Entry>, queue: seq<Args>): seq<Call> {
    if queue == [] then [] else CallsWith(list, queue[0]) + Passes(list, queue[1..])
  }

  /** The rest of the pass, and then the passes that are queued. */
  function Owed(s: State): seq<Call>
    requires -1 <= s.firingIndex
  {
    if !s.firing || s.list.None? || s.memory.None? then []
    else CallsWith(Pending(s), s.memory.value) + Passes(s.list.value, s.queue)
  }

  lemma CallsAppend(a: seq<Entry>, b: seq<Entry>, args: Args)
    ensures CallsWith(a + b, args) == CallsWith(a, args) + CallsWith(b, args)
  {
  }

  lemma {:induction false} PassesAppend(list: seq<Entry>, queue: seq<Args>, args: Args)
    ensures Passes(list, queue + [args]) == Passes(list, queue) + CallsWith(list, args)
  {
    if queue == [] {
      assert queue + [args] == [args] && [args][1..] == [];
      assert CallsWith(list, args) + [] == CallsWith(list, args);
    } else {
      assert (queue + [args])[1..] == queue[1..] + [args];
      PassesAppend(list, queue[1..], args);
    }
  }

  lemma {:induction false} NoPasses(queue: seq<Args>)
    ensures Passes([], queue) == []
  {
    if queue != [] { NoPasses(queue[1..]); }
  }

  // ---------------------------------------------------------------- a return

  /** r comes from a state with these calls made and these owed: the next one is made, if there is one. */
  ghost predicate Paid(made: seq<Call>, owed: seq<Call>, r: State) {
    && -1 <= r.firingIndex
    && r.log.calls + Owed(r) == made + owed
    && |r.log.calls| == |made| + (if owed == [] then 0 else 1)
    && (r.firing <==> owed != [])
  }

  /** The pass goes on, or the next one begins. */
  lemma {:induction false} ContinuePays(s: State)
    requires Inv(s) && s.firing
    ensures Paid(s.log.calls, Owed(s), Continue(s))
    decreases |s.queue|, 1
  {
    hide ListRight;
    IndexBounds(s);
    if s.list.Some? && s.firingIndex + 1 < |s.list.value| {
      InvokePays(s);
    } else {
      EndPassKeeps(s);
      var p := EndPass(s);
      var list := if s.list.Some? then s.list.value else [];
      assert Owed(s) == Passes(list, s.queue) by {
        if s.list.Some? { PassOver(s); } else { NoPasses(s.queue); }
      }
      NextPassPays(p);
    }
  }

  lemma IndexBounds(s: State)
    requires Inv(s)
    ensures -1 <= s.firingIndex && (s.list.Some? ==> s.firingIndex < |s.list.value|)
    ensures s.list.None? ==> s.locked && s.queue == []
  {
  }

  lemma InvokePays(s: State)
    requires InPass(s) && s.firing && s.list.Some? && s.firingIndex + 1 < |s.list.value|
    ensures Paid(s.log.calls, Owed(s), Invoke(s))
  {
    var r, next := Invoke(s), s.list.value[s.firingIndex + 1];
    assert Pending(s) == [next] + Pending(r);
    CallsAppend([next], Pending(r), s.memory.value);
    assert CallsWith([next], s.memory.value) == [Call(next, s.memory.value)];
    assert r.log.calls + Owed(r) == s.log.calls + ([Call(next, s.memory.value)] + Owed(r));
  }

  lemma PassOver(s: State)
    requires InPass(s) && s.firing && s.list.Some? && s.firingIndex + 1 == |s.list.value|
    ensures Owed(s) == Passes(s.list.value, s.queue)
  {
    assert Pending(s) == [] && CallsWith([], s.memory.value) == [];
    assert [] + Passes(s.list.value, s.queue) == Passes(s.list.value, s.queue);
  }

  lemma {:induction false} NextPassPays(s: State)
    requires ListRight(s) && s.firing && s.log.made == [] && s.firingIndex == -1
    ensures Paid(s.log.calls, Passes(if s.list.Some? then s.list.value else [], s.queue), NextPass(s))
    decreases |s.queue|, 0
  {
    var list := if s.list.Some? then s.list.value else [];
    if s.queue == [] {
      assert NextPass(s) == Finish(s);
      assert s.log.calls + [] == s.log.calls;
    } else {
      var p := StartPass(s);
      assert Inv(p);
      ContinuePays(p);
      assert Pending(p) == list;
      assert Owed(p) == Passes(list, s.queue);
    }
  }

  /** A return makes the first call that is owed; when none is owed the list comes to rest. */
  lemma ReturnPays(s: State)
    requires Inv(s)
    ensures -1 <= s.firingIndex
    ensures s.firing ==> Paid(s.log.calls, Owed(s), Return(s))
    ensures !s.firing ==> Return(s) == s && Owed(s) == []
  {
    if s.firing { ContinuePays(s); }
  }

  function Returns(n: nat): seq<Event> {
    seq(n, i => ReturnEvent)
  }

  /** If the callbacks only return, all that is owed is called, in order, and the list is at rest. */
  lemma {:induction false} ReturnsPayAll(s: State)
    requires Inv(s)
    ensures -1 <= s.firingIndex
    ensures var r := Run(s, Returns(|Owed(s)| + 1)); !r.firing && r.log.calls == s.log.calls + Owed(s)
    decreases |Owed(s)|
  {
    hide Inv, Continue, Owed;
    ReturnPays(s);
    StepKeeps(s, ReturnEvent);
    var n := |Owed(s)|;
    assert Returns(n + 1)[1..] == Returns(n);
    var r := Step(s, ReturnEvent);
    if n == 0 {
      assert Run(s, Returns(1)) == Run(r, []) == r;
      assert s.log.calls + [] == s.log.calls;
      AtRestOwesNothing(r);
      assert r.log.calls + [] == r.log.calls;
    } else {
      ReturnsPayAll(r);
    }
  }

  lemma AtRestOwesNothing(s: State)
    requires -1 <= s.firingIndex && !s.firing
    ensures Owed(s) == []
  {
  }

  // ---------------------------------------------------------------- the other commands

  /** A fire adds one pass over the list to what is owed. */
  lemma FireOwes(s: State, args: Args)
    requires Inv(s) && !s.locked
    ensures -1 <= s.firingIndex && s.list.Some?
    ensures var r := FireWith(s, args);
      -1 <= r.firingIndex && r.log.calls + Owed(r) == s.log.calls + Owed(s) + CallsWith(s.list.value, args)
  {
    hide ListRight;
    IndexBounds(s);
    var p := s.(queue := s.queue + [args], log := s.log.(pushed := s.log.pushed + [args]));
    if s.firing {
      PassesAppend(s.list.value, s.queue, args);
      assert CallsWith(Pending(s), s.memory.value) + (Passes(s.list.value, s.queue) + CallsWith(s.list.value, args)) ==
             Owed(s) + CallsWith(s.list.value, args);
      assert s.log.calls + (Owed(s) + CallsWith(s.list.value, args)) ==
             s.log.calls + Owed(s) + CallsWith(s.list.value, args);
    } else {
      assert ListRight(p) && p.log.made == [] && p.firingIndex == -1 by { QueuedRight(s, p); }
      BeginPays(p);
      assert p.queue == [args] && [args][1..] == [];
      assert CallsWith(s.list.value, args) + [] == CallsWith(s.list.value, args);
      assert s.log.calls + [] == s.log.calls;
    }
  }

  lemma BeginPays(s: State)
    requires ListRight(s) && s.log.made == [] && s.firingIndex == -1 && s.list.Some?
    ensures Paid(s.log.calls, Passes(s.list.value, s.queue), Begin(s))
  {
    hide ListRight;
    var p := s.(locked := s.locked || s.options.once, fired := true, firing := true);
    assert ListRight(p) by { LockedOrNot(s, p); }
    NextPassPays(p);
  }

  lemma QueuedRight(s: State, p: State)
    requires Inv(s) && s.list.Some? && !s.firing && p == s.(queue := p.queue, log := s.log.(pushed := p.log.pushed))
    ensures ListRight(p) && p.log.made == [] && p.firingIndex == -1
  {
  }

  lemma LockedOrNot(s: State, p: State)
    requires ListRight(s) && s.list.Some? && p == s.(locked := p.locked, fired := p.fired, firing := p.firing)
    ensures ListRight(p)
  {
  }

  /** The entries that an addition puts on the list. */
  function NewEntries(s: State, r: State): seq<Entry>
    requires |s.log.added| <= |r.log.added|
  {
    r.log.added[|s.log.added|..]
  }

  lemma OneMoreNew(s: State, one: State, r: State, entry: Entry)
    requires one.log.added == s.log.added + [entry] && one.log.added <= r.log.added
    ensures s.log.added <= r.log.added && NewEntries(s, r) == [entry] + NewEntries(one, r)
  {
    assert r.log.added[|s.log.added|] == one.log.added[|s.log.added|];
  }

  lemma NoneNew(s: State)
    ensures NewEntries(s, s) == []
  {
  }

  /** Pushing appends the new entries, and nothing else. */
  lemma {:induction false} PushAppends(s: State, callbacks: seq<nat>)
    requires s.list.Some?
    ensures var r := Push(s, callbacks);
      s.log.added <= r.log.added && r.list == Some(s.list.value + NewEntries(s, r))
    decreases |callbacks|
  {
    hide Has;
    var r := Push(s, callbacks);
    if callbacks == [] {
      assert NewEntries(s, r) == [] && s.list.value + [] == s.list.value;
    } else if s.options.unique && Has(s.list.value, callbacks[0]) {
      PushAppends(s, callbacks[1..]);
    } else {
      var one, entry := PushOne(s, callbacks[0]), Entry(callbacks[0], |s.log.added|);
      PushAppends(one, callbacks[1..]);
      OneMoreNew(s, one, r, entry);
      assert one.list.value + NewEntries(one, r) == s.list.value + NewEntries(s, r);
    }
  }

  /** Without the option `unique` every callback is added, in order. */
  lemma {:induction false} PushAddsAll(s: State, callbacks: seq<nat>)
    requires s.list.Some? && !s.options.unique
    ensures s.log.added <= Push(s, callbacks).log.added
    ensures CallbacksOf(NewEntries(s, Push(s, callbacks))) == callbacks
    decreases |callbacks|
  {
    hide Has, NewEntries;
    var r := Push(s, callbacks);
    if callbacks == [] {
      NoneNew(s);
    } else {
      var one, entry := PushOne(s, callbacks[0]), Entry(callbacks[0], |s.log.added|);
      PushAddsAll(one, callbacks[1..]);
      OneMoreNew(s, one, r, entry);
    }
  }

  /** With it or without, every callback is listed then. */
  lemma {:induction false} PushLists(s: State, callbacks: seq<nat>, c: nat)
    requires s.list.Some?
    ensures Has(Push(s, callbacks).list.value, c) <==> Has(s.list.value, c) || c in callbacks
    decreases |callbacks|
  {
    if callbacks != [] {
      var one := PushOne(s, callbacks[0]);
      HasOneMore(s.list.value, one.list.value[|s.list.value|], c);
      if s.options.unique && Has(s.list.value, callbacks[0]) {
        PushLists(s, callbacks[1..], c);
      } else {
        PushLists(one, callbacks[1..], c);
      }
    }
  }

  lemma HasOneMore(list: seq<Entry>, e: Entry, c: nat)
    ensures Has(list + [e], c) <==> Has(list, c) || e.callback == c
  {
    if Has(list, c) {
      var i :| 0 <= i < |list| && list[i].callback == c;
      assert (list + [e])[i] == list[i];
    }
    assert (list + [e])[|list|] == e;
  }

  /** No callback is listed twice. */
  ghost predicate NoTwice(s: State) {
    s.list.Some? ==> forall i, j :: 0 <= i < j < |s.list.value| ==>
      s.list.value[i].callback != s.list.value[j].callback
  }

  lemma {:induction false} PushNoTwice(s: State, callbacks: seq<nat>)
    requires s.list.Some? && s.options.unique && NoTwice(s)
    ensures NoTwice(Push(s, callbacks))
    decreases |callbacks|
  {
    if callbacks != [] {
      if Has(s.list.value, callbacks[0]) {
        PushNoTwice(s, callbacks[1..]);
      } else {
        PushNoTwice(PushOne(s, callbacks[0]), callbacks[1..]);
      }
    }
  }

  /** An addition to a list at rest that remembers arguments is owed at once, with these arguments; nothing else is. */
  lemma AddReplays(s: State, callbacks: seq<nat>)
    requires Inv(s) && s.list.Some? && s.memory.Some? && !s.firing
    ensures var r := Add(s, callbacks);
      && s.log.added <= r.log.added
      && Paid(s.log.calls, CallsWith(NewEntries(s, r), s.memory.value), r)
      && (!s.options.unique ==> CallbacksOf(NewEntries(s, r)) == callbacks)
  {
    hide ListRight, CallbacksOf;
    IndexBounds(s);
    PushMemoryKeeps(s);
    var m := PushMemory(s);
    PushKeeps(m, callbacks);
    PushAppends(m, callbacks);
    if !s.options.unique { PushAddsAll(m, callbacks); }
    var p := Push(m, callbacks);
    ReplayPays(p, s.memory.value, s.list.value, NewEntries(m, p));
    BeginKeepsAdded(p);
  }

  lemma {:induction false} BeginKeepsAdded(s: State)
    requires -1 <= s.firingIndex
    ensures Begin(s).log.added == s.log.added
  {
    NextPassKeepsAdded(s.(locked := s.locked || s.options.once, fired := true, firing := true));
  }

  lemma {:induction false} NextPassKeepsAdded(s: State)
    requires -1 <= s.firingIndex
    ensures NextPass(s).log.added == s.log.added
    decreases |s.queue|, 0
  {
    if s.queue != [] { ContinueKeepsAdded(StartPass(s)); }
  }

  lemma {:induction false} ContinueKeepsAdded(s: State)
    requires InPass(s)
    ensures Continue(s).log.added == s.log.added
    decreases |s.queue|, 1
  {
    if !(s.list.Some? && s.firingIndex + 1 < |s.list.value|) { NextPassKeepsAdded(EndPass(s)); }
  }

  /** The replay starts behind the old entries. */
  lemma ReplayPays(p: State, args: Args, old_: seq<Entry>, new_: seq<Entry>)
    requires ListRight(p) && p.log.made == [] && p.list == Some(old_ + new_)
    requires p.firingIndex == |old_| - 1 && p.queue == [args]
    ensures Paid(p.log.calls, CallsWith(new_, args), Begin(p))
  {
    var q := p.(locked := p.locked || p.options.once, fired := true, firing := true);
    var r := StartPass(q);
    assert Begin(p) == NextPass(q) == Continue(r);
    assert Inv(r);
    ContinuePays(r);
    assert Pending(r) == new_ && r.queue == [];
    assert CallsWith(new_, args) + [] == CallsWith(new_, args);
  }

  /** An addition made while the list fires is owed by this pass and by every one that is queued. */
  lemma AddWhileFiring(s: State, callbacks: seq<nat>)
    requires Inv(s) && s.list.Some? && s.firing
    ensures -1 <= s.firingIndex && s.memory.Some?
    ensures var r := Add(s, callbacks);
      && r.log.calls == s.log.calls && s.log.added <= r.log.added && r.firingIndex == s.firingIndex
      && Owed(r) == CallsWith(Pending(s) + NewEntries(s, r), s.memory.value) +
                    Passes(s.list.value + NewEntries(s, r), s.queue)
  {
    hide ListRight;
    IndexBounds(s);
    PushAppends(s, callbacks);
    var r := Push(s, callbacks);
    assert Pending(r) == Pending(s) + NewEntries(s, r);
  }

  /** An addition to a list that remembers nothing is owed nothing yet. */
  lemma AddWaits(s: State, callbacks: seq<nat>)
    requires Inv(s) && s.list.Some? && !s.firing && s.memory.None?
    ensures var r := Add(s, callbacks);
      && r.log.calls == s.log.calls && s.log.added <= r.log.added && -1 <= r.firingIndex && Owed(r) == []
      && r.list == Some(s.list.value + NewEntries(s, r))
  {
    PushAppends(s, callbacks);
  }

  function CallsWithout(calls: seq<Call>, callback: nat): seq<Call> {
    if calls == [] then []
    else (if calls[0].entry.callback == callback then [] else [calls[0]]) + CallsWithout(calls[1..], callback)
  }

  lemma {:induction false} WithoutInCalls(list: seq<Entry>, args: Args, callback: nat)
    ensures CallsWith(Without(list, callback), args) == CallsWithout(CallsWith(list, args), callback)
  {
    if list != [] {
      WithoutInCalls(list[1..], args, callback);
      assert CallsWith(list, args)[1..] == CallsWith(list[1..], args);
      CallsAppend([list[0]], Without(list[1..], callback), args);
      assert CallsWith([list[0]], args) == [Call(list[0], args)];
      assert [] + CallsWith(Without(list[1..], callback), args) == CallsWith(Without(list[1..], callback), args);
    }
  }

  lemma {:induction false} CallsWithoutAppend(a: seq<Call>, b: seq<Call>, callback: nat)
    ensures CallsWithout(a + b, callback) == CallsWithout(a, callback) + CallsWithout(b, callback)
  {
    if a == [] {
      assert a + b == b;
    } else {
      assert (a + b)[1..] == a[1..] + b;
      CallsWithoutAppend(a[1..], b, callback);
    }
  }

  lemma {:induction false} PassesWithout(list: seq<Entry>, queue: seq<Args>, callback: nat)
    ensures Passes(Without(list, callback), queue) == CallsWithout(Passes(list, queue), callback)
  {
    if queue != [] {
      PassesWithout(list, queue[1..], callback);
      WithoutInCalls(list, queue[0], callback);
      CallsWithoutAppend(CallsWith(list, queue[0]), Passes(list, queue[1..]), callback);
    }
  }

  /** Removing a callback takes just its calls out of what is owed. */
  lemma RemoveOwes(s: State, callback: nat)
    requires Inv(s)
    ensures -1 <= s.firingIndex
    ensures var r := RemoveOne(s, callback);
      -1 <= r.firingIndex && Owed(r) == CallsWithout(Owed(s), callback) && r.log.calls == s.log.calls
  {
    IndexBounds(s);
    if s.list.Some? {
      RemoveOneMeaning(s, callback);
      hide ListRight, Without;
      if s.firing {
        var r := RemoveOne(s, callback);
        assert Pending(r) == Without(Pending(s), callback) by { RemovedPending(s, callback); }
        WithoutInCalls(Pending(s), s.memory.value, callback);
        PassesWithout(s.list.value, s.queue, callback);
        CallsWithoutAppend(CallsWith(Pending(s), s.memory.value), Passes(s.list.value, s.queue), callback);
      }
    }
  }

  lemma RemovedPending(s: State, callback: nat)
    requires Inv(s) && s.list.Some? && s.firing
    ensures -1 <= RemoveOne(s, callback).firingIndex
    ensures Pending(RemoveOne(s, callback)) == Without(Pending(s), callback)
  {
    hide ListRight;
    IndexBounds(s);
    RemoveOneMeaning(s, callback);
    var r := RemoveOne(s, callback);
    if r.firingIndex >= |r.list.value| {
      assert false;
    }
  }

  /** A lock leaves the rest of the pass, and drops the passes that are queued. */
  lemma LockOwes(s: State)
    requires Inv(s)
    ensures -1 <= s.firingIndex
    ensures Lock(s).locked && Lock(s).log == s.log
    ensures Owed(Lock(s)) == if s.firing && s.memory.Some? then CallsWith(Pending(s), s.memory.value) else []
  {
    IndexBounds(s);
    if s.firing && s.memory.Some? {
      assert Pending(Lock(s)) == Pending(s);
      assert CallsWith(Pending(s), s.memory.value) + [] == CallsWith(Pending(s), s.memory.value);
      if s.list.None? {
        assert Pending(s) == [];
      }
    }
  }

  /** The list is gone; nothing has been called or added since s. */
  ghost predicate GoneSince(s: State, r: State) {
    r.list.None? && r.log.calls == s.log.calls && r.log.added == s.log.added
  }

  /** A disabled list calls nothing and takes nothing, now or later. */
  lemma DisabledIsSilent(s: State, events: seq<Event>)
    requires Inv(s)
    ensures Inv(Step(s, DisableEvent)) && GoneSince(s, Run(Step(s, DisableEvent), events))
  {
    StepKeeps(s, DisableEvent);
    NoListIsSilent(Step(s, DisableEvent), events);
  }

  /** So is a list that is locked while it is at rest and has nothing to remember. */
  lemma LockedEarlyIsSilent(s: State, events: seq<Event>)
    requires Inv(s) && !s.firing && s.memory.None?
    ensures Inv(Step(s, LockEvent)) && GoneSince(s, Run(Step(s, LockEvent), events))
  {
    StepKeeps(s, LockEvent);
    NoListIsSilent(Step(s, LockEvent), events);
  }

  lemma {:induction false} NoListIsSilent(s: State, events: seq<Event>)
    requires Inv(s) && s.list.None? && s.memory.None?
    ensures GoneSince(s, Run(s, events))
    decreases |events|
  {
    if events != [] {
      StepKeeps(s, events[0]);
      NoListStep(s, events[0]);
      NoListIsSilent(Step(s, events[0]), events[1..]);
    }
  }

  lemma NoListStep(s: State, e: Event)
    requires Inv(s) && s.list.None? && s.memory.None?
    ensures GoneSince(s, Step(s, e)) && Step(s, e).memory.None?
  {
    match e
    case RemoveEvent(callbacks) => RemoveTouchesList(s, callbacks);
    case ReturnEvent =>
      if s.firing { assert Continue(s) == Finish(EndPass(s)); }
    case _ =>
  }

  // ---------------------------------------------------------------- no callback twice

  lemma {:induction false} PassKeepsNoTwice(s: State)
    requires InPass(s) && NoTwice(s)
    ensures NoTwice(Continue(s)) && Continue(s).options == s.options
    decreases |s.queue|, 1
  {
    if !(s.list.Some? && s.firingIndex + 1 < |s.list.value|) { NextPassKeepsNoTwice(EndPass(s)); }
  }

  lemma {:induction false} NextPassKeepsNoTwice(s: State)
    requires -1 <= s.firingIndex && NoTwice(s)
    ensures NoTwice(NextPass(s)) && NextPass(s).options == s.options
    decreases |s.queue|, 0
  {
    if s.queue != [] { PassKeepsNoTwice(StartPass(s)); }
  }

  lemma {:induction false} WithoutNoTwice(list: seq<Entry>, callback: nat)
    requires forall i, j :: 0 <= i < j < |list| ==> list[i].callback != list[j].callback
    ensures var w := Without(list, callback);
      forall i, j :: 0 <= i < j < |w| ==> w[i].callback != w[j].callback
  {
    if list != [] {
      WithoutNoTwice(list[1..], callback);
      WithoutMembers(list[1..], callback);
      forall e | e in Without(list[1..], callback) ensures e.callback != list[0].callback {
        assert e in list[1..];
      }
    }
  }

  lemma {:induction false} RemoveNoTwice(s: State, callbacks: seq<nat>)
    requires Inv(s) && NoTwice(s)
    ensures NoTwice(Remove(s, callbacks)) && Remove(s, callbacks).options == s.options
    decreases |callbacks|
  {
    hide ListRight, Without;
    IndexBounds(s);
    if callbacks != [] {
      RemoveOneKeeps(s, callbacks[0]);
      if s.list.Some? {
        RemoveOneMeaning(s, callbacks[0]);
        WithoutNoTwice(s.list.value, callbacks[0]);
      }
      RemoveNoTwice(RemoveOne(s, callbacks[0]), callbacks[1..]);
    }
  }

  lemma NoTwiceStep(s: State, e: Event)
    requires Inv(s) && NoTwice(s) && s.options.unique
    ensures NoTwice(Step(s, e)) && Step(s, e).options == s.options
  {
    match e
    case AddEvent(callbacks) =>
      if s.list.Some? {
        if s.memory.Some? && !s.firing {
          PushNoTwice(PushMemory(s), callbacks);
          var p := Push(PushMemory(s), callbacks);
          NextPassKeepsNoTwice(p.(locked := p.locked || p.options.once, fired := true, firing := true));
        } else {
          PushNoTwice(s, callbacks);
        }
      }
    case RemoveEvent(callbacks) => RemoveNoTwice(s, callbacks);
    case FireEvent(args) =>
      if !s.locked && !s.firing {
        var p := s.(queue := s.queue + [args], log := s.log.(pushed := s.log.pushed + [args]));
        NextPassKeepsNoTwice(p.(locked := p.locked || p.options.once, fired := true, firing := true));
      }
    case LockEvent =>
    case DisableEvent =>
    case ReturnEvent => if s.firing { PassKeepsNoTwice(s); }
  }

  /** With the option `unique` no callback is ever listed twice. */
  lemma {:induction false} UniqueListsOnce(s: State, events: seq<Event>)
    requires Inv(s) && NoTwice(s) && s.options.unique
    ensures NoTwice(Run(s, events))
    decreases |events|
  {
    hide Inv, NoTwice, Step;
    if events != [] {
      StepKeeps(s, events[0]);
      NoTwiceStep(s, events[0]);
      UniqueListsOnce(Step(s, events[0]), events[1..]);
    }
  }
}
