/**
 jQuery.Deferred: three callback lists that close each other off. A step is a command that some code
 issues, or the return of the callback that is running; the callbacks that the constructor puts at
 the front of the lists run to completion within a step, since no other code runs between them.
 */
module Deferred {
  import opened Sequences
  import C = Callbacks

  datatype Which = Progress | Done | Fail

  datatype Phase = Pending | Resolved | Rejected

  datatype State = State(progress: C.State, done: C.State, fail: C.State, phase: Phase, stack: seq<Which>)

  const SET_STATE: nat := 0
  const DISABLE_OTHER: nat := 1
  const LOCK_PROGRESS: nat := 2
  const INTERNALS: seq<nat> := [SET_STATE, DISABLE_OTHER, LOCK_PROGRESS]

  /** Callbacks given by users are numbered after the internal ones. */
  function User(callbacks: seq<nat>): seq<nat> {
    seq(|callbacks|, i requires 0 <= i < |callbacks| => callbacks[i] + |INTERNALS|)
  }

  function New(): State {
    var once := C.Add(C.Initial(C.Options(true, true, false)), INTERNALS);
    State(C.Initial(C.Options(false, true, false)), once, once, Pending, [])
  }

  function List(d: State, which: Which): C.State {
    match which
    case Progress => d.progress
    case Done => d.done
    case Fail => d.fail
  }

  function WithList(d: State, which: Which, list: C.State): State {
    match which
    case Progress => d.(progress := list)
    case Done => d.(done := list)
    case Fail => d.(fail := list)
  }

  /** What an internal callback of the list does. */
  function Effect(d: State, which: Which, callback: nat): State
    requires which != Progress
  {
    if callback == SET_STATE then d.(phase := if which == Done then Resolved else Rejected)
    else if callback == DISABLE_OTHER then
      if which == Done then d.(fail := C.Disable(d.fail)) else d.(done := C.Disable(d.done))
    else if callback == LOCK_PROGRESS then d.(progress := C.Lock(d.progress))
    else d
  }

  ghost predicate ListsRight(d: State) {
    C.Inv(d.progress) && C.Inv(d.done) && C.Inv(d.fail)
  }

  lemma ListInv(d: State, which: Which)
    requires ListsRight(d)
    ensures C.Inv(List(d, which))
  {
  }

  lemma EffectKeeps(d: State, which: Which, callback: nat)
    requires ListsRight(d) && which != Progress
    ensures ListsRight(Effect(d, which, callback))
    ensures List(Effect(d, which, callback), which) == List(d, which)
  {
    hide C.Inv;
    DisableKeeps(d.done);
    DisableKeeps(d.fail);
    LockKeeps(d.progress);
  }

  lemma DisableKeeps(s: C.State)
    requires C.Inv(s)
    ensures C.Inv(C.Disable(s))
  {
    C.StepKeeps(s, C.DisableEvent);
  }

  lemma LockKeeps(s: C.State)
    requires C.Inv(s)
    ensures C.Inv(C.Lock(s))
  {
    C.StepKeeps(s, C.LockEvent);
  }

  ghost function ReturnOf(s: C.State): (r: C.State)
    requires C.Inv(s)
    ensures C.Inv(r)
  {
    C.StepKeeps(s, C.ReturnEvent);
    hide C.Continue, C.ListRight;
    C.Return(s)
  }

  /** The list has just called an internal callback: its effect, and its return. */
  ghost function RunInternal(d: State, which: Which): (r: State)
    requires ListsRight(d) && which != Progress
    ensures ListsRight(r)
  {
    hide C.Inv;
    var list := List(d, which);
    if list.log.calls == [] then d
    else
      var callback := list.log.calls[|list.log.calls| - 1].entry.callback;
      EffectKeeps(d, which, callback);
      WithList(Effect(d, which, callback), which, ReturnOf(list))
  }

  /** n internal callbacks run before other code does. */
  ghost function RunInternals(d: State, which: Which, n: nat): (r: State)
    requires ListsRight(d) && which != Progress
    ensures ListsRight(r)
    decreases n
  {
    if n == 0 then d else RunInternals(RunInternal(d, which), which, n - 1)
  }

  /** A list that has begun to fire has a callback running on top of the others. */
  function Stacked(d: State, before: C.State, which: Which): State {
    if !before.firing && List(d, which).firing then d.(stack := d.stack + [which]) else d
  }

  datatype Event =
    | ResolveEvent(args: C.Args)
    | RejectEvent(args: C.Args)
    | NotifyEvent(args: C.Args)
    | DoneEvent(callbacks: seq<nat>)
    | FailEvent(callbacks: seq<nat>)
    | ProgressEvent(callbacks: seq<nat>)
    | ReturnEvent

  ghost function Settle(d: State, which: Which, args: C.Args): (r: State)
    requires ListsRight(d) && which != Progress
    ensures ListsRight(r)
  {
    var list := List(d, which);
    C.FireKeeps(list, args);
    if list.locked then d
    else Stacked(RunInternals(WithList(d, which, C.FireWith(list, args)), which, |INTERNALS|), list, which)
  }

  ghost function AddTo(d: State, which: Which, callbacks: seq<nat>): (r: State)
    requires ListsRight(d)
    ensures ListsRight(r)
  {
    C.AddKeeps(List(d, which), User(callbacks));
    Stacked(WithList(d, which, C.Add(List(d, which), User(callbacks))), List(d, which), which)
  }

  ghost function Notify(d: State, args: C.Args): (r: State)
    requires ListsRight(d)
    ensures ListsRight(r)
  {
    C.FireKeeps(d.progress, args);
    Stacked(d.(progress := C.FireWith(d.progress, args)), d.progress, Progress)
  }

  /** The callback that is running returns to the loop of its list, or to the callback below it. */
  ghost function ReturnTop(d: State): (r: State)
    requires ListsRight(d)
    ensures ListsRight(r)
  {
    if d.stack == [] then d
    else
      var top := d.stack[|d.stack| - 1];
      var d' := WithList(d, top, ReturnOf(List(d, top)));
      if List(d', top).firing then d' else d'.(stack := d.stack[..|d.stack| - 1])
  }

  ghost function Step(d: State, e: Event): (r: State)
    requires ListsRight(d)
    ensures ListsRight(r)
  {
    match e
    case ResolveEvent(args) => Settle(d, Done, args)
    case RejectEvent(args) => Settle(d, Fail, args)
    case NotifyEvent(args) => Notify(d, args)
    case DoneEvent(callbacks) => AddTo(d, Done, callbacks)
    case FailEvent(callbacks) => AddTo(d, Fail, callbacks)
    case ProgressEvent(callbacks) => AddTo(d, Progress, callbacks)
    case ReturnEvent => ReturnTop(d)
  }

  // ---------------------------------------------------------------- what every step keeps

  datatype Settlement = Settlement(which: Which, args: C.Args)

  /** The list holds the internal callbacks followed by what users added. */
  ghost predicate Added(list: C.State, callbacks: seq<nat>) {
    C.CallbacksOf(list.log.added) == INTERNALS + User(callbacks)
  }

  /** The list can never call anything. */
  ghost predicate Dead(list: C.State) {
    list.list.None? && list.locked && !list.firing && list.log.calls == []
  }

  /** The list of the settlement, its opposite, and the progress list. */
  ghost predicate SettledBy(d: State, s: Settlement, callbacks: seq<nat>)
    requires s.which != Progress
  {
    && d.phase == (if s.which == Done then Resolved else Rejected)
    && C.OnceMemory(List(d, s.which), Some(s.args))
    && |List(d, s.which).log.calls| >= |INTERNALS|
    && Added(List(d, s.which), callbacks)
    && Dead(List(d, if s.which == Done then Fail else Done))
    && d.progress.locked
  }

  ghost predicate Unsettled(d: State, done: seq<nat>, fail: seq<nat>) {
    && d.phase == Pending
    && C.OnceMemory(d.done, None) && Added(d.done, done)
    && C.OnceMemory(d.fail, None) && Added(d.fail, fail)
  }

  /** The lists that are firing are the ones on the stack. */
  ghost predicate StackRight(d: State) {
    && Distinct(d.stack)
    && forall w: Which :: w in d.stack <==> List(d, w).firing
  }

  /** The state after a history in which `first` settled it and done and fail callbacks were added. */
  ghost predicate Reached(d: State, first: Option<Settlement>, done: seq<nat>, fail: seq<nat>) {
    && ListsRight(d)
    && StackRight(d)
    && match first
       case None => Unsettled(d, done, fail)
       case Some(s) => s.which != Progress && SettledBy(d, s, if s.which == Done then done else fail)
  }

  lemma ReachedFacts(d: State, first: Option<Settlement>, done: seq<nat>, fail: seq<nat>)
    requires Reached(d, first, done, fail)
    ensures ListsRight(d)
  {
  }

  // ---------------------------------------------------------------- settling

  /** The first fire of a list calls its first entry. */
  lemma FireCallsFirst(s: C.State, args: C.Args)
    requires C.Inv(s) && C.OnceMemory(s, None) && s.log.added != []
    ensures var r := C.FireWith(s, args);
      C.Inv(r) && C.OnceMemory(r, Some(args)) && r.firing && |r.log.calls| == 1 && r.log.added == s.log.added
  {
    C.FireKeeps(s, args);
    C.FireOnceMemory(s, args, None);
    var p := s.(queue := s.queue + [args], log := s.log.(pushed := s.log.pushed + [args]));
    var q := C.StartPass(p.(locked := true, fired := true, firing := true));
    assert C.FireWith(s, args) == C.Continue(q) == C.Invoke(q);
  }

  /** A return calls the next pending entry, or ends the firing when there is none. */
  lemma ReturnCallsNext(s: C.State, args: C.Args)
    requires C.Inv(s) && C.OnceMemory(s, Some(args)) && s.firing
    ensures var r := C.Return(s);
      && C.Inv(r) && C.OnceMemory(r, Some(args)) && r.log.added == s.log.added
      && |r.log.calls| == |s.log.calls| + (if C.Pending(s) == [] then 0 else 1)
      && (r.firing <==> C.Pending(s) != [])
  {
    C.ContinueKeeps(s);
    C.ContinueOnceMemory(s, args);
  }

  /** The k-th call of a settled list is of its k-th addition. */
  lemma CallOfAddition(s: C.State, args: C.Args, k: nat)
    requires C.OnceMemory(s, Some(args)) && k < |s.log.calls|
    ensures k < |s.log.added| && s.log.calls[k].entry == s.log.added[k]
  {
    assert C.EntriesOf(s.log.calls)[k] == s.log.calls[k].entry;
    assert (C.EntriesOf(s.log.calls) + C.Pending(s))[k] == s.log.calls[k].entry;
  }

  lemma AddedInternal(s: C.State, callbacks: seq<nat>, k: nat)
    requires Added(s, callbacks) && k < |INTERNALS|
    ensures k < |s.log.added| && s.log.added[k].callback == k
  {
    assert |C.CallbacksOf(s.log.added)| == |s.log.added| >= 3;
    assert C.CallbacksOf(s.log.added)[k] == (INTERNALS + User(callbacks))[k] == k;
  }

  /** The k-th internal callback has the k-th effect, and the next entry is called. */
  lemma OneInternal(d: State, which: Which, args: C.Args, callbacks: seq<nat>, k: nat)
    requires ListsRight(d) && which != Progress && k < |INTERNALS|
    requires var s := List(d, which);
      C.OnceMemory(s, Some(args)) && s.firing && Added(s, callbacks) && |s.log.calls| == k + 1
    ensures RunInternal(d, which) == WithList(Effect(d, which, k), which, ReturnOf(List(d, which)))
    ensures var r := List(RunInternal(d, which), which);
      && C.OnceMemory(r, Some(args)) && Added(r, callbacks)
      && |r.log.calls| >= k + 1
      && (k + 1 < |INTERNALS| ==> r.firing && |r.log.calls| == k + 2)
  {
    hide C.Inv, C.Return, C.OnceMemory, C.Pending;
    var s := List(d, which);
    CallOfAddition(s, args, k);
    AddedInternal(s, callbacks, k);
    if k + 1 < |INTERNALS| {
      AddedInternal(s, callbacks, k + 1);
    }
    PendingLength(s, args);
    ReturnCallsNext(s, args);
  }

  lemma PendingLength(s: C.State, args: C.Args)
    requires C.OnceMemory(s, Some(args))
    ensures -1 <= s.firingIndex && |C.Pending(s)| == |s.log.added| - |s.log.calls|
  {
    assert |C.EntriesOf(s.log.calls)| == |s.log.calls|;
  }

  /** The three internal callbacks of a settlement set the state, kill the other list and lock progress. */
  lemma InternalsSettle(d: State, which: Which, args: C.Args, callbacks: seq<nat>)
    requires ListsRight(d) && which != Progress
    requires var s := List(d, which);
      C.OnceMemory(s, Some(args)) && s.firing && Added(s, callbacks) && |s.log.calls| == 1
    requires var other := List(d, if which == Done then Fail else Done);
      !other.firing && other.log.calls == []
    ensures var r := RunInternals(d, which, |INTERNALS|);
      && SettledBy(r, Settlement(which, args), callbacks)
      && (r.progress.firing <==> d.progress.firing) && r.stack == d.stack
      && r.progress == C.Lock(d.progress)
  {
    hide C.Inv, C.OnceMemory, Added, RunInternal, ReturnOf;
    OneInternal(d, which, args, callbacks, 0);
    var d1 := RunInternal(d, which);
    OneInternal(d1, which, args, callbacks, 1);
    var d2 := RunInternal(d1, which);
    OneInternal(d2, which, args, callbacks, 2);
    var d3 := RunInternal(d2, which);
    assert RunInternals(d, which, 3) == RunInternals(d1, which, 2) == RunInternals(d2, which, 1) == d3;
  }

  // ---------------------------------------------------------------- one step

  function Other(which: Which): Which
    requires which != Progress
  {
    if which == Done then Fail else Done
  }

  lemma StackPush(d: State, r: State, which: Which)
    requires StackRight(d) && r.stack == d.stack
    requires forall w: Which :: w != which ==> (List(r, w).firing <==> List(d, w).firing)
    requires List(d, which).firing ==> List(r, which).firing
    ensures StackRight(Stacked(r, List(d, which), which))
  {
    var q := Stacked(r, List(d, which), which);
    assert forall w: Which :: List(q, w) == List(r, w);
    if q.stack != d.stack {
      assert forall w: Which :: w in q.stack <==> w in d.stack || w == which;
    }
  }

  lemma StackPop(d: State, r: State, which: Which)
    requires StackRight(d) && d.stack != [] && d.stack[|d.stack| - 1] == which
    requires forall w: Which :: w != which ==> (List(r, w).firing <==> List(d, w).firing)
    requires r.stack == if List(r, which).firing then d.stack else d.stack[..|d.stack| - 1]
    ensures StackRight(r)
  {
    assert d.stack == d.stack[..|d.stack| - 1] + [which];
    assert forall w: Which :: w in d.stack <==> w in d.stack[..|d.stack| - 1] || w == which;
  }

  /** The first settlement. */
  lemma FirstSettle(d: State, which: Which, args: C.Args, done: seq<nat>, fail: seq<nat>)
    requires Reached(d, None, done, fail) && which != Progress
    ensures Reached(Settle(d, which, args), Some(Settlement(which, args)), done, fail)
    ensures Settle(d, which, args).progress == C.Lock(d.progress)
  {
    hide C.Inv, C.OnceMemory, Added, RunInternals, C.FireWith, Dead;
    var list, callbacks := List(d, which), if which == Done then done else fail;
    UnsettledIdle(list, callbacks);
    UnsettledIdle(List(d, Other(which)), if which == Done then fail else done);
    IndexInRange(list);
    FireCallsFirst(list, args);
    var fired := WithList(d, which, C.FireWith(list, args));
    AddedSame(list, C.FireWith(list, args), callbacks);
    InternalsSettle(fired, which, args, callbacks);
    var r := RunInternals(fired, which, |INTERNALS|);
    DeadIdle(List(r, Other(which)));
    StackPush(d, r, which);
  }

  lemma IndexInRange(s: C.State)
    requires C.Inv(s)
    ensures -1 <= s.firingIndex
  {
  }

  lemma UnsettledIdle(s: C.State, callbacks: seq<nat>)
    requires C.OnceMemory(s, None) && Added(s, callbacks)
    ensures !s.firing && !s.locked && s.log.calls == [] && s.log.added != []
  {
    AddedInternal(s, callbacks, 0);
  }

  lemma AddedSame(s: C.State, r: C.State, callbacks: seq<nat>)
    requires Added(s, callbacks) && r.log.added == s.log.added
    ensures Added(r, callbacks)
  {
  }

  lemma DeadIdle(s: C.State)
    requires Dead(s)
    ensures !s.firing && s.locked && s.list.None?
  {
  }

  /** Once settled, no attempt to settle or notify changes anything. */
  lemma LaterSettlementsIgnored(d: State, s: Settlement, done: seq<nat>, fail: seq<nat>, args: C.Args)
    requires Reached(d, Some(s), done, fail)
    ensures Step(d, ResolveEvent(args)) == d
    ensures Step(d, RejectEvent(args)) == d
    ensures Step(d, NotifyEvent(args)) == d
  {
    ReachedFacts(d, Some(s), done, fail);
    AllLocked(d, s, done, fail);
    hide Reached, ListsRight, RunInternals, Stacked, C.Begin, C.Inv;
    StackedSame(d);
  }

  lemma AllLocked(d: State, s: Settlement, done: seq<nat>, fail: seq<nat>)
    requires Reached(d, Some(s), done, fail)
    ensures d.progress.locked && d.done.locked && d.fail.locked
  {
    hide C.Inv, Added;
  }

  /** A list that has not changed does not go on the stack. */
  lemma StackedSame(d: State)
    ensures Stacked(d, d.progress, Progress) == d
  {
  }

  lemma AddedMore(s: C.State, r: C.State, callbacks: seq<nat>, more: seq<nat>)
    requires Added(s, callbacks) && C.CallbacksOf(r.log.added) == C.CallbacksOf(s.log.added) + User(more)
    ensures Added(r, callbacks + more)
  {
    assert User(callbacks + more) == User(callbacks) + User(more);
  }

  /** Firing goes on through additions. */
  lemma AddKeepsFiring(s: C.State, callbacks: seq<nat>)
    requires C.Inv(s)
    ensures C.Inv(C.Add(s, callbacks))
    ensures s.firing ==> C.Add(s, callbacks).firing
    ensures s.locked ==> C.Add(s, callbacks).locked
  {
    C.AddKeeps(s, callbacks);
    if s.list.Some? && s.memory.Some? && !s.firing {
      var p := C.Push(C.PushMemory(s), callbacks);
      StillLocked(p.(locked := p.locked || p.options.once, fired := true, firing := true));
    }
  }

  lemma {:induction false} StillLocked(s: C.State)
    requires -1 <= s.firingIndex
    ensures C.NextPass(s).locked == s.locked
    decreases |s.queue|, 0
  {
    if s.queue != [] {
      ContinueStillLocked(C.StartPass(s));
    }
  }

  lemma {:induction false} ContinueStillLocked(s: C.State)
    requires C.InPass(s)
    ensures C.Continue(s).locked == s.locked
    decreases |s.queue|, 1
  {
    if !(s.list.Some? && s.firingIndex + 1 < |s.list.value|) {
      StillLocked(C.EndPass(s));
    }
  }

  /** Adding to the done or fail list. */
  lemma AddStep(d: State, first: Option<Settlement>, which: Which, more: seq<nat>, done: seq<nat>, fail: seq<nat>)
    requires Reached(d, first, done, fail)
    ensures Reached(AddTo(d, which, more), first,
                    if which == Done then done + more else done, if which == Fail then fail + more else fail)
  {
    hide C.Inv, C.Add, C.OnceMemory, Added, Dead;
    var list := List(d, which);
    IndexInRange(list);
    var r := WithList(d, which, C.Add(list, User(more)));
    AddKeepsFiring(list, User(more));
    StackPush(d, r, which);
    if which != Progress {
      var callbacks := if which == Done then done else fail;
      if first.None? {
        C.AddOnceMemory(list, User(more), None);
        AddedMore(list, C.Add(list, User(more)), callbacks, more);
        UnfiredStaysIdle(C.Add(list, User(more)));
      } else if first.value.which == which {
        C.AddOnceMemory(list, User(more), Some(first.value.args));
        AddedMore(list, C.Add(list, User(more)), callbacks, more);
        CallsNeverShrink(list, User(more));
      } else {
        DeadIdle(list);
        AddToDead(list, User(more));
      }
    }
  }

  lemma UnfiredStaysIdle(s: C.State)
    requires C.OnceMemory(s, None)
    ensures !s.firing
  {
  }

  lemma AddToDead(s: C.State, callbacks: seq<nat>)
    requires C.Inv(s) && s.list.None?
    ensures C.Add(s, callbacks) == s
  {
  }

  lemma CallsNeverShrink(s: C.State, callbacks: seq<nat>)
    requires C.Inv(s)
    ensures |C.Add(s, callbacks).log.calls| >= |s.log.calls|
  {
    if s.list.Some? && s.memory.Some? && !s.firing {
      var p := C.Push(C.PushMemory(s), callbacks);
      MoreCalls(p.(locked := p.locked || p.options.once, fired := true, firing := true));
    }
  }

  lemma {:induction false} MoreCalls(s: C.State)
    requires -1 <= s.firingIndex
    ensures |C.NextPass(s).log.calls| >= |s.log.calls|
    decreases |s.queue|, 0
  {
    if s.queue != [] {
      ContinueMoreCalls(C.StartPass(s));
    }
  }

  lemma {:induction false} ContinueMoreCalls(s: C.State)
    requires C.InPass(s)
    ensures |C.Continue(s).log.calls| >= |s.log.calls|
    decreases |s.queue|, 1
  {
    if !(s.list.Some? && s.firingIndex + 1 < |s.list.value|) {
      MoreCalls(C.EndPass(s));
    }
  }

  lemma NotifyStep(d: State, first: Option<Settlement>, args: C.Args, done: seq<nat>, fail: seq<nat>)
    requires Reached(d, first, done, fail)
    ensures Reached(Step(d, NotifyEvent(args)), first, done, fail)
  {
    var r := d.(progress := C.FireWith(d.progress, args));
    FireKeepsFiring(d.progress, args);
    hide C.Inv, C.OnceMemory, C.FireWith, Added, Dead;
    StackPush(d, r, Progress);
  }

  lemma FireKeepsFiring(s: C.State, args: C.Args)
    requires C.Inv(s)
    ensures C.Inv(C.FireWith(s, args))
    ensures s.firing ==> C.FireWith(s, args).firing
    ensures s.locked ==> C.FireWith(s, args) == s
  {
    C.FireKeeps(s, args);
  }

  lemma ReturnStep(d: State, first: Option<Settlement>, done: seq<nat>, fail: seq<nat>)
    requires Reached(d, first, done, fail)
    ensures Reached(Step(d, ReturnEvent), first, done, fail)
  {
    hide C.Inv, C.OnceMemory, Added, Dead;
    if d.stack != [] {
      var top := d.stack[|d.stack| - 1];
      assert top in d.stack && List(d, top).firing;
      if first.Some? {
        DeadIdle(List(d, Other(first.value.which)));
      } else {
        UnsettledIdle(d.done, done);
        UnsettledIdle(d.fail, fail);
      }
      if top == Progress {
        ReturnKeepsLock(d.progress);
      } else {
        ReturnCallsNext(List(d, top), first.value.args);
        AddedSame(List(d, top), ReturnOf(List(d, top)), if top == Done then done else fail);
      }
      hide ReturnOf;
      StackPop(d, ReturnTop(d), top);
    }
  }

  lemma ReturnKeepsLock(s: C.State)
    requires C.Inv(s)
    ensures ReturnOf(s).locked == s.locked
  {
    if s.firing {
      ContinueStillLocked(s);
    }
  }

  // ---------------------------------------------------------------- runs

  ghost function Settled(first: Option<Settlement>, e: Event): Option<Settlement> {
    if first.Some? then first
    else if e.ResolveEvent? then Some(Settlement(Done, e.args))
    else if e.RejectEvent? then Some(Settlement(Fail, e.args))
    else None
  }

  function DoneAdded(e: Event): seq<nat> {
    if e.DoneEvent? then e.callbacks else []
  }

  function FailAdded(e: Event): seq<nat> {
    if e.FailEvent? then e.callbacks else []
  }

  lemma StepReaches(d: State, e: Event, first: Option<Settlement>, done: seq<nat>, fail: seq<nat>)
    requires Reached(d, first, done, fail)
    ensures Reached(Step(d, e), Settled(first, e), done + DoneAdded(e), fail + FailAdded(e))
  {
    ReachedFacts(d, first, done, fail);
    StepIs(d, e);
    AdditionsOf(e, done, fail);
    hide Reached, Settle, AddTo, Notify, ReturnTop, ListsRight, Step, DoneAdded, FailAdded;
    match e
    case ResolveEvent(args) => SettleStep(d, first, Done, args, done, fail);
    case RejectEvent(args) => SettleStep(d, first, Fail, args, done, fail);
    case NotifyEvent(args) => NotifyStep(d, first, args, done, fail);
    case DoneEvent(callbacks) => AddStep(d, first, Done, callbacks, done, fail);
    case FailEvent(callbacks) => AddStep(d, first, Fail, callbacks, done, fail);
    case ProgressEvent(callbacks) => AddStep(d, first, Progress, callbacks, done, fail);
    case ReturnEvent => ReturnStep(d, first, done, fail);
  }

  lemma StepIs(d: State, e: Event)
    requires ListsRight(d)
    ensures e.ResolveEvent? ==> Step(d, e) == Settle(d, Done, e.args)
    ensures e.RejectEvent? ==> Step(d, e) == Settle(d, Fail, e.args)
    ensures e.NotifyEvent? ==> Step(d, e) == Notify(d, e.args)
    ensures e.DoneEvent? ==> Step(d, e) == AddTo(d, Done, e.callbacks)
    ensures e.FailEvent? ==> Step(d, e) == AddTo(d, Fail, e.callbacks)
    ensures e.ProgressEvent? ==> Step(d, e) == AddTo(d, Progress, e.callbacks)
  {
    hide ListsRight, Settle, Notify, AddTo, ReturnTop;
  }

  lemma AdditionsOf(e: Event, done: seq<nat>, fail: seq<nat>)
    ensures done + DoneAdded(e) == if e.DoneEvent? then done + e.callbacks else done
    ensures fail + FailAdded(e) == if e.FailEvent? then fail + e.callbacks else fail
  {
    assert done + [] == done && fail + [] == fail;
  }

  lemma SettleStep(d: State, first: Option<Settlement>, which: Which, args: C.Args, done: seq<nat>, fail: seq<nat>)
    requires Reached(d, first, done, fail) && which != Progress
    ensures Reached(Settle(d, which, args), if first.Some? then first else Some(Settlement(which, args)), done, fail)
  {
    if first.None? {
      FirstSettle(d, which, args, done, fail);
    } else {
      LaterSettlementsIgnored(d, first.value, done, fail, args);
    }
  }

  lemma NewIsUnsettled()
    ensures Reached(New(), None, [], [])
  {
    var s := C.Initial(C.Options(true, true, false));
    C.InitialInv(C.Options(true, true, false));
    C.InitialInv(C.Options(false, true, false));
    C.AddOnceMemory(s, INTERNALS, None);
    C.AddKeeps(s, INTERNALS);
    assert C.CallbacksOf(s.log.added) == [] && [] + INTERNALS == INTERNALS + User([]);
    assert Added(New().done, []);
    UnsettledIdle(New().done, []);
    hide C.Inv, C.OnceMemory, C.Add, Added;
  }

  ghost function Run(d: State, events: seq<Event>): State
    requires ListsRight(d)
    decreases |events|
  {
    if events == [] then d else Run(Step(d, events[0]), events[1..])
  }

  ghost function FirstSettlement(events: seq<Event>): Option<Settlement> {
    if events == [] then None
    else if Settled(None, events[0]).Some? then Settled(None, events[0])
    else FirstSettlement(events[1..])
  }

  function DoneAdditions(events: seq<Event>): seq<nat> {
    if events == [] then [] else DoneAdded(events[0]) + DoneAdditions(events[1..])
  }

  function FailAdditions(events: seq<Event>): seq<nat> {
    if events == [] then [] else FailAdded(events[0]) + FailAdditions(events[1..])
  }

  lemma SettledThen(first: Option<Settlement>, events: seq<Event>)
    requires events != []
    ensures var next := Settled(first, events[0]);
      (if next.Some? then next else FirstSettlement(events[1..])) ==
      (if first.Some? then first else FirstSettlement(events))
  {
  }

  lemma {:induction false} RunReaches(d: State, events: seq<Event>, first: Option<Settlement>,
                                       done: seq<nat>, fail: seq<nat>)
    requires Reached(d, first, done, fail)
    ensures Reached(Run(d, events), if first.Some? then first else FirstSettlement(events),
                    done + DoneAdditions(events), fail + FailAdditions(events))
    decreases |events|
  {
    hide Reached, ListsRight, Step, Settled, DoneAdded, FailAdded;
    ReachedFacts(d, first, done, fail);
    if events == [] {
      assert done + [] == done && fail + [] == fail;
    } else {
      var e := events[0];
      StepReaches(d, e, first, done, fail);
      var rest := events[1..];
      RunReaches(Step(d, e), rest, Settled(first, e), done + DoneAdded(e), fail + FailAdded(e));
      assert done + DoneAdded(e) + DoneAdditions(rest) == done + DoneAdditions(events);
      assert fail + FailAdded(e) + FailAdditions(rest) == fail + FailAdditions(events);
      SettledThen(first, events);
    }
  }

  /** The calls that a list owes: the internal ones and then every addition, in order. */
  ghost predicate CallsEvery(list: C.State, callbacks: seq<nat>, args: C.Args)
    requires -1 <= list.firingIndex
  {
    && C.CallbacksOf(C.EntriesOf(list.log.calls)) + C.CallbacksOf(C.Pending(list)) == INTERNALS + User(callbacks)
    && (forall i :: 0 <= i < |list.log.calls| ==> list.log.calls[i].args == args)
  }

  /**
   Whatever the callbacks do: a deferred is pending until the first resolve or reject, which fixes its
   state; from then on the callbacks of that outcome are called once each, in the order in which they
   were added and with the values of that first settlement, and those of the other outcome never.
   */
  lemma SettlesOnce(events: seq<Event>)
    ensures ListsRight(New())
    ensures FirstSettlement(events).None? ==>
      var d := Run(New(), events);
      d.phase == Pending && d.done.log.calls == [] && d.fail.log.calls == []
    ensures FirstSettlement(events).Some? ==>
      var d, s := Run(New(), events), FirstSettlement(events).value;
      && s.which != Progress
      && d.phase == (if s.which == Done then Resolved else Rejected)
      && -1 <= List(d, s.which).firingIndex
      && CallsEvery(List(d, s.which), if s.which == Done then DoneAdditions(events) else FailAdditions(events), s.args)
      && List(d, Other(s.which)).log.calls == []
      && (d.stack == [] ==> C.Pending(List(d, s.which)) == [])
  {
    hide C.Inv, C.OnceMemory, Added, StackRight, Run, New, FirstSettlement, DoneAdditions, FailAdditions;
    NewIsUnsettled();
    RunReaches(New(), events, None, [], []);
    var d := Run(New(), events);
    assert [] + DoneAdditions(events) == DoneAdditions(events) && [] + FailAdditions(events) == FailAdditions(events);
    var first := FirstSettlement(events);
    if first.Some? {
      var list := List(d, first.value.which);
      C.OwedCalls(list, first.value.args);
      OwedAdditions(list, if first.value.which == Done then DoneAdditions(events) else FailAdditions(events));
      IdleWithoutStack(d, first.value.which);
      SilentDead(List(d, Other(first.value.which)));
    } else {
      UnsettledIdle(d.done, DoneAdditions(events));
      UnsettledIdle(d.fail, FailAdditions(events));
    }
  }

  lemma OwedAdditions(list: C.State, callbacks: seq<nat>)
    requires Added(list, callbacks)
    ensures C.CallbacksOf(list.log.added) == INTERNALS + User(callbacks)
  {
  }

  lemma IdleWithoutStack(d: State, which: Which)
    requires StackRight(d)
    ensures d.stack == [] ==> !List(d, which).firing
  {
  }

  lemma SilentDead(s: C.State)
    requires Dead(s)
    ensures s.log.calls == []
  {
  }
}
