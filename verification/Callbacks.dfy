/**
 jQuery.Callbacks: a list of callbacks that may be added to, removed from and fired again while it
 is firing. The loop of fire() is cut at each callback it invokes, so between two steps the callback
 that runs may issue any commands; `Return` is the step that takes the loop on.
 */
module Callbacks {
  import opened Sequences

  /** What one fire passes to the callbacks. */
  datatype Args = Args(context: seq<nat>, values: seq<nat>)

  /** One addition of a callback; the tag numbers the additions to a list. */
  datatype Entry = Entry(callback: nat, tag: nat)

  datatype Call = Call(entry: Entry, args: Args)

  /** A finished pass over the list: its arguments, the first tag it covers, its calls, and the list it left. */
  datatype Pass = Pass(args: Args, from: nat, made: seq<Entry>, left: seq<Entry>)

  datatype Options = Options(once: bool, memory: bool, unique: bool)

  /** The history of a list, and of the pass it is in. */
  datatype Log = Log(
    added: seq<Entry>,
    calls: seq<Call>,
    pushed: seq<Args>,
    started: seq<Args>,
    from: nat,
    made: seq<Entry>,
    finished: seq<Pass>)

  /** The variables of a list; its list is None once it is spent or disabled. */
  datatype State = State(
    options: Options,
    list: Option<seq<Entry>>,
    queue: seq<Args>,
    memory: Option<Args>,
    fired: bool,
    firing: bool,
    locked: bool,
    firingIndex: int,
    log: Log)

  function Initial(options: Options): State {
    State(options, Some([]), [], None, false, false, false, -1, Log([], [], [], [], 0, [], []))
  }

  // ---------------------------------------------------------------- the loop of fire()

  /** Inside a pass: a list that is still there is being called with the memorized arguments. */
  predicate InPass(s: State) {
    -1 <= s.firingIndex && s.log.started != [] && (s.list.Some? ==> s.memory.Some?)
  }

  /** Invokes the next callback of the pass, or else starts the next queued pass or finishes. */
  function Continue(s: State): State
    requires InPass(s)
    decreases |s.queue|, 1
  {
    if s.list.Some? && s.firingIndex + 1 < |s.list.value| then Invoke(s) else NextPass(EndPass(s))
  }

  function Invoke(s: State): State
    requires InPass(s) && s.list.Some? && s.firingIndex + 1 < |s.list.value|
  {
    var entry := s.list.value[s.firingIndex + 1];
    s.(firingIndex := s.firingIndex + 1,
       log := s.log.(calls := s.log.calls + [Call(entry, s.memory.value)], made := s.log.made + [entry]))
  }

  function EndPass(s: State): State
    requires InPass(s)
  {
    var left := if s.list.Some? then s.list.value else [];
    var pass := Pass(s.log.started[|s.log.started| - 1], s.log.from, s.log.made, left);
    s.(firingIndex := -1, log := s.log.(from := 0, made := [], finished := s.log.finished + [pass]))
  }

  function NextPass(s: State): State
    requires -1 <= s.firingIndex
    decreases |s.queue|, 0
  {
    if s.queue == [] then Finish(s) else Continue(StartPass(s))
  }

  function StartPass(s: State): State
    requires s.queue != []
  {
    s.(queue := s.queue[1..], memory := Some(s.queue[0]), log := s.log.(started := s.log.started + [s.queue[0]]))
  }

  function Finish(s: State): State {
    var memory := if s.options.memory then s.memory else None;
    var list := if !s.locked then s.list else if memory.Some? then Some([]) else None;
    s.(memory := memory, firing := false, list := list)
  }

  function Begin(s: State): State
    requires -1 <= s.firingIndex
  {
    NextPass(s.(locked := s.locked || s.options.once, fired := true, firing := true))
  }

  // ---------------------------------------------------------------- the commands

  function Push(s: State, callbacks: seq<nat>): (r: State)
    requires s.list.Some?
    ensures r.list.Some? && r.(list := s.list, log := s.log) == s
    ensures r.log.(added := s.log.added) == s.log
    decreases |callbacks|
  {
    if callbacks == [] then s
    else if s.options.unique && Has(s.list.value, callbacks[0]) then Push(s, callbacks[1..])
    else Push(PushOne(s, callbacks[0]), callbacks[1..])
  }

  function PushOne(s: State, callback: nat): State
    requires s.list.Some?
  {
    var entry := Entry(callback, |s.log.added|);
    s.(list := Some(s.list.value + [entry]), log := s.log.(added := s.log.added + [entry]))
  }

  predicate Has(list: seq<Entry>, callback: nat) {
    exists i :: 0 <= i < |list| && list[i].callback == callback
  }

  function PushMemory(s: State): State
    requires s.list.Some? && s.memory.Some?
  {
    s.(firingIndex := |s.list.value| - 1, queue := s.queue + [s.memory.value],
       log := s.log.(pushed := s.log.pushed + [s.memory.value], from := |s.log.added|))
  }

  function Add(s: State, callbacks: seq<nat>): State
    requires -1 <= s.firingIndex
  {
    if s.list.None? then s
    else if s.memory.Some? && !s.firing then Begin(Push(PushMemory(s), callbacks))
    else Push(s, callbacks)
  }

  function Without(list: seq<Entry>, callback: nat): seq<Entry> {
    if list == [] then []
    else if list[0].callback == callback then Without(list[1..], callback)
    else [list[0]] + Without(list[1..], callback)
  }

  /** Removing every occurrence keeps firingIndex on the last kept one that it covered. */
  function RemoveOne(s: State, callback: nat): State
    requires -1 <= s.firingIndex && (s.list.Some? ==> s.firingIndex < |s.list.value|)
  {
    if s.list.None? then s
    else
      var (past, rest) := (s.list.value[..s.firingIndex + 1], s.list.value[s.firingIndex + 1..]);
      s.(list := Some(Without(past, callback) + Without(rest, callback)),
         firingIndex := |Without(past, callback)| - 1)
  }

  function Remove(s: State, callbacks: seq<nat>): State
    requires -1 <= s.firingIndex && (s.list.Some? ==> s.firingIndex < |s.list.value|)
    decreases |callbacks|
  {
    if callbacks == [] then s else Remove(RemoveOne(s, callbacks[0]), callbacks[1..])
  }

  function FireWith(s: State, args: Args): State
    requires -1 <= s.firingIndex
  {
    if s.locked then s
    else
      var s' := s.(queue := s.queue + [args], log := s.log.(pushed := s.log.pushed + [args]));
      if s.firing then s' else Begin(s')
  }

  function Lock(s: State): State {
    var s' := s.(locked := true, queue := []);
    if s.memory.None? && !s.firing then s'.(list := None) else s'
  }

  function Disable(s: State): State {
    s.(locked := true, queue := [], list := None, memory := None)
  }

  /** The callback that is running returns. */
  function Return(s: State): State
    requires s.firing ==> InPass(s)
  {
    if s.firing then Continue(s) else s
  }

  datatype Event =
    | AddEvent(callbacks: seq<nat>)
    | RemoveEvent(callbacks: seq<nat>)
    | FireEvent(args: Args)
    | LockEvent
    | DisableEvent
    | ReturnEvent

  // ---------------------------------------------------------------- what every step keeps

  ghost predicate Increasing(s: seq<Entry>) {
    forall i, j :: 0 <= i < j < |s| ==> s[i].tag < s[j].tag
  }

  ghost predicate Below(s: seq<Entry>, bound: nat) {
    forall i :: 0 <= i < |s| ==> s[i].tag < bound
  }

  /** What is listed was added, as it is. */
  ghost predicate Listed(s: seq<Entry>, added: seq<Entry>) {
    forall i :: 0 <= i < |s| ==> s[i].tag < |added| && added[s[i].tag] == s[i]
  }

  /** Entries at or past the start of the pass that are still listed before the remainder have been called in it. */
  ghost predicate PassKept(listed: seq<Entry>, from: nat, made: seq<Entry>) {
    forall i :: 0 <= i < |listed| && listed[i].tag >= from ==> listed[i] in made
  }

  /** A finished pass called no entry twice, kept the list's order, and missed nothing that stayed listed. */
  ghost predicate PassRight(p: Pass) {
    Increasing(p.made) && PassKept(p.left, p.from, p.made)
  }

  /**
   The part of the list after firingIndex is what the pass still has to call: it starts no earlier than
   the pass, comes after everything the pass has called, and the pass has missed nothing before it.
   */
  ghost predicate RemainderRight(list: seq<Entry>, k: nat, from: nat, made: seq<Entry>)
    requires k <= |list|
  {
    && PassKept(list[..k], from, made)
    && (forall i, j :: 0 <= i < |made| && k <= j < |list| ==> made[i].tag < list[j].tag)
    && (forall j :: k <= j < |list| ==> list[j].tag >= from)
  }

  ghost predicate ListRight(s: State) {
    && -1 <= s.firingIndex
    && (s.list.Some? ==> s.firingIndex < |s.list.value|)
    && (s.list.Some? ==> Increasing(s.list.value) && Below(s.list.value, |s.log.added|))
    && (s.list.Some? ==> Listed(s.list.value, s.log.added))
    && (s.list.None? ==> s.locked && s.queue == [])
    && s.log.from <= |s.log.added|
    && (forall i :: 0 <= i < |s.log.added| ==> s.log.added[i].tag == i)
    && Increasing(s.log.made) && Below(s.log.made, |s.log.added|)
    && (s.list.Some? ==> RemainderRight(s.list.value, s.firingIndex + 1, s.log.from, s.log.made))
    && (forall p :: p in s.log.finished ==> PassRight(p))
  }

  ghost predicate AtRest(s: State) {
    s.queue == [] && s.firingIndex == -1 && s.log.from == 0 && s.log.made == []
  }

  /** What every step keeps. */
  ghost predicate Inv(s: State) {
    && ListRight(s)
    && (!s.firing ==> AtRest(s))
    && (s.firing ==> InPass(s))
    && (s.firing && s.list.Some? ==> s.memory == Some(s.log.started[|s.log.started| - 1]))
  }

  lemma InvokeKeeps(s: State)
    requires Inv(s) && s.firing && s.list.Some? && s.firingIndex + 1 < |s.list.value|
    ensures Inv(Invoke(s))
  {
    var list, k, made := s.list.value, s.firingIndex + 1, s.log.made;
    var made' := made + [list[k]];
    assert list[..k + 1] == list[..k] + [list[k]];
    assert forall e :: e in made ==> e in made';
    assert made'[|made|] == list[k];
  }

  lemma EndPassKeeps(s: State)
    requires Inv(s) && s.firing && (s.list.Some? ==> s.firingIndex + 1 == |s.list.value|)
    ensures ListRight(EndPass(s)) && EndPass(s).firingIndex == -1 && EndPass(s).log.made == []
  {
    hide Listed;
    if s.list.Some? {
      assert s.list.value[..s.firingIndex + 1] == s.list.value;
    }
    assert PassRight(Pass(s.log.started[|s.log.started| - 1], s.log.from, s.log.made,
                          if s.list.Some? then s.list.value else []));
  }

  lemma {:induction false} ContinueKeeps(s: State)
    requires Inv(s) && s.firing
    ensures Inv(Continue(s))
    decreases |s.queue|, 1
  {
    if s.list.Some? && s.firingIndex + 1 < |s.list.value| {
      InvokeKeeps(s);
    } else {
      EndPassKeeps(s);
      NextPassKeeps(EndPass(s));
    }
  }

  lemma {:induction false} NextPassKeeps(s: State)
    requires ListRight(s) && s.firing && s.log.made == []
    requires s.queue == [] ==> AtRest(s)
    ensures Inv(NextPass(s))
    decreases |s.queue|, 0
  {
    if s.queue != [] {
      ContinueKeeps(StartPass(s));
    }
  }

  lemma {:induction false} PushKeeps(s: State, callbacks: seq<nat>)
    requires ListRight(s) && s.list.Some?
    ensures ListRight(Push(s, callbacks))
    decreases |callbacks|
  {
    if callbacks != [] {
      var one := PushOne(s, callbacks[0]);
      var k := s.firingIndex + 1;
      assert one.list.value[..k] == s.list.value[..k];
      assert ListRight(one);
      if s.options.unique && Has(s.list.value, callbacks[0]) {
        PushKeeps(s, callbacks[1..]);
      } else {
        PushKeeps(one, callbacks[1..]);
      }
    }
  }

  lemma PushMemoryKeeps(s: State)
    requires Inv(s) && !s.firing && s.list.Some? && s.memory.Some?
    ensures ListRight(PushMemory(s)) && PushMemory(s).log.made == []
  {
  }

  lemma AddKeeps(s: State, callbacks: seq<nat>)
    requires Inv(s)
    ensures Inv(Add(s, callbacks))
  {
    if s.list.Some? && s.memory.Some? && !s.firing {
      PushMemoryKeeps(s);
      PushKeeps(PushMemory(s), callbacks);
      var p := Push(PushMemory(s), callbacks);
      NextPassKeeps(p.(locked := p.locked || p.options.once, fired := true, firing := true));
    } else if s.list.Some? {
      PushKeeps(s, callbacks);
    }
  }

  lemma FireKeeps(s: State, args: Args)
    requires Inv(s)
    ensures Inv(FireWith(s, args))
  {
    if !s.locked && !s.firing {
      var p := s.(queue := s.queue + [args], log := s.log.(pushed := s.log.pushed + [args]));
      NextPassKeeps(p.(locked := p.locked || p.options.once, fired := true, firing := true));
    }
  }

  // ---------------------------------------------------------------- removing

  lemma {:induction false} WithoutMembers(list: seq<Entry>, callback: nat)
    ensures forall e :: e in Without(list, callback) <==> e in list && e.callback != callback
    ensures |Without(list, callback)| <= |list|
  {
    if list != [] {
      WithoutMembers(list[1..], callback);
    }
  }

  lemma {:induction false} WithoutIncreasing(list: seq<Entry>, callback: nat)
    requires Increasing(list)
    ensures Increasing(Without(list, callback))
  {
    if list != [] {
      WithoutIncreasing(list[1..], callback);
      WithoutMembers(list[1..], callback);
    }
  }

  lemma {:induction false} WithoutAppend(a: seq<Entry>, b: seq<Entry>, callback: nat)
    ensures Without(a + b, callback) == Without(a, callback) + Without(b, callback)
  {
    if a == [] {
      assert a + b == b;
    } else {
      assert (a + b)[1..] == a[1..] + b;
      WithoutAppend(a[1..], b, callback);
    }
  }

  /**
   Removing a callback, in or out of a pass: the list loses exactly its occurrences, and the pass's
   remainder is the old remainder without them.
   */
  lemma RemoveOneMeaning(s: State, callback: nat)
    requires Inv(s) && s.list.Some?
    ensures var r := RemoveOne(s, callback);
      && r.list == Some(Without(s.list.value, callback))
      && r.firingIndex + 1 == |Without(s.list.value[..s.firingIndex + 1], callback)| <= |r.list.value|
      && r.list.value[r.firingIndex + 1..] == Without(s.list.value[s.firingIndex + 1..], callback)
      && r.list.value[..r.firingIndex + 1] == Without(s.list.value[..s.firingIndex + 1], callback)
  {
    var k := s.firingIndex + 1;
    assert s.list.value == s.list.value[..k] + s.list.value[k..];
    WithoutAppend(s.list.value[..k], s.list.value[k..], callback);
  }

  lemma RemoveOneKeeps(s: State, callback: nat)
    requires Inv(s)
    ensures Inv(RemoveOne(s, callback))
  {
    if s.list.Some? {
      RemoveOneList(s, callback);
      assert s.firingIndex == -1 ==> Without(s.list.value[..s.firingIndex + 1], callback) == [];
      hide ListRight;
      assert Inv(RemoveOne(s, callback));
    }
  }

  lemma RemoveOneList(s: State, callback: nat)
    requires ListRight(s) && s.list.Some?
    ensures ListRight(RemoveOne(s, callback)) && RemoveOne(s, callback).list.Some?
  {
    hide RemainderRight, Increasing, Below, Listed, PassRight, Without;
    var list, k := s.list.value, s.firingIndex + 1;
    var past, rest := Without(list[..k], callback), Without(list[k..], callback);
    assert list == list[..k] + list[k..] && |list[..k]| == k;
    WithoutAppend(list[..k], list[k..], callback);
    WithoutIncreasing(list, callback);
    BelowWithout(list, |s.log.added|, callback);
    ListedWithout(list, s.log.added, callback);
    RemainderLoses(list[..k], list[k..], s.log.from, s.log.made, callback);
    var r := RemoveOne(s, callback);
    assert r.list == Some(past + rest) && r.firingIndex + 1 == |past|;
  }

  lemma BelowWithout(list: seq<Entry>, bound: nat, callback: nat)
    requires Below(list, bound)
    ensures Below(Without(list, callback), bound)
  {
    WithoutMembers(list, callback);
    assert forall i :: 0 <= i < |Without(list, callback)| ==> Without(list, callback)[i] in list;
  }

  lemma ListedWithout(list: seq<Entry>, added: seq<Entry>, callback: nat)
    requires Listed(list, added)
    ensures Listed(Without(list, callback), added)
  {
    WithoutMembers(list, callback);
    assert forall i :: 0 <= i < |Without(list, callback)| ==> Without(list, callback)[i] in list;
  }

  lemma RemainderLoses(past: seq<Entry>, rest: seq<Entry>, from: nat, made: seq<Entry>, callback: nat)
    requires RemainderRight(past + rest, |past|, from, made)
    ensures RemainderRight(Without(past, callback) + Without(rest, callback), |Without(past, callback)|, from, made)
  {
    var past', rest' := Without(past, callback), Without(rest, callback);
    WithoutMembers(past, callback);
    WithoutMembers(rest, callback);
    assert (past + rest)[..|past|] == past && (past' + rest')[..|past'|] == past';
    forall i | 0 <= i < |past'| && past'[i].tag >= from ensures past'[i] in made {
      assert past'[i] in past;
    }
    forall j | 0 <= j < |rest'|
      ensures rest'[j].tag >= from && forall i :: 0 <= i < |made| ==> made[i].tag < rest'[j].tag
    {
      assert rest'[j] in rest;
      var l :| 0 <= l < |rest| && rest[l] == rest'[j];
      assert (past + rest)[|past| + l] == rest'[j];
    }
  }

  lemma {:induction false} RemoveKeeps(s: State, callbacks: seq<nat>)
    requires Inv(s)
    ensures Inv(Remove(s, callbacks))
    decreases |callbacks|
  {
    if callbacks != [] {
      RemoveOneKeeps(s, callbacks[0]);
      RemoveKeeps(RemoveOne(s, callbacks[0]), callbacks[1..]);
    }
  }

  // ---------------------------------------------------------------- runs

  ghost function Step(s: State, e: Event): State
    requires Inv(s)
  {
    match e
    case AddEvent(callbacks) => Add(s, callbacks)
    case RemoveEvent(callbacks) => Remove(s, callbacks)
    case FireEvent(args) => FireWith(s, args)
    case LockEvent => Lock(s)
    case DisableEvent => Disable(s)
    case ReturnEvent => Return(s)
  }

  lemma StepKeeps(s: State, e: Event)
    requires Inv(s)
    ensures Inv(Step(s, e))
  {
    match e
    case AddEvent(callbacks) => AddKeeps(s, callbacks);
    case RemoveEvent(callbacks) => RemoveKeeps(s, callbacks);
    case FireEvent(args) => FireKeeps(s, args);
    case LockEvent =>
    case DisableEvent =>
    case ReturnEvent => if s.firing { ContinueKeeps(s); }
  }

  ghost function Run(s: State, events: seq<Event>): (r: State)
    requires Inv(s)
    ensures Inv(r)
    decreases |events|
  {
    if events == [] then s
    else
      StepKeeps(s, events[0]);
      Run(Step(s, events[0]), events[1..])
  }

  lemma InitialInv(options: Options)
    ensures Inv(Initial(options))
  {
  }

  // ---------------------------------------------------------------- removed for good

  ghost predicate Gone(s: State, tag: nat) {
    tag < |s.log.added| && (s.list.Some? ==> forall i :: 0 <= i < |s.list.value| ==> s.list.value[i].tag != tag)
  }

  /** From s to r nothing with this tag was called. */
  ghost predicate Silent(s: State, r: State, tag: nat) {
    s.log.calls <= r.log.calls && forall i :: |s.log.calls| <= i < |r.log.calls| ==> r.log.calls[i].entry.tag != tag
  }

  lemma {:induction false} ContinueSilent(s: State, tag: nat)
    requires InPass(s) && Gone(s, tag)
    ensures Gone(Continue(s), tag) && Silent(s, Continue(s), tag)
    decreases |s.queue|, 1
  {
    if !(s.list.Some? && s.firingIndex + 1 < |s.list.value|) {
      NextPassSilent(EndPass(s), tag);
    }
  }

  lemma {:induction false} NextPassSilent(s: State, tag: nat)
    requires -1 <= s.firingIndex && Gone(s, tag)
    ensures Gone(NextPass(s), tag) && Silent(s, NextPass(s), tag)
    decreases |s.queue|, 0
  {
    if s.queue != [] {
      ContinueSilent(StartPass(s), tag);
    }
  }

  lemma {:induction false} PushSilent(s: State, callbacks: seq<nat>, tag: nat)
    requires s.list.Some? && Gone(s, tag)
    ensures Gone(Push(s, callbacks), tag)
    decreases |callbacks|
  {
    if callbacks != [] {
      if s.options.unique && Has(s.list.value, callbacks[0]) {
        PushSilent(s, callbacks[1..], tag);
      } else {
        PushSilent(PushOne(s, callbacks[0]), callbacks[1..], tag);
      }
    }
  }

  lemma RemoveOneSilent(s: State, callback: nat, tag: nat)
    requires Inv(s) && Gone(s, tag)
    ensures Gone(RemoveOne(s, callback), tag) && RemoveOne(s, callback).log == s.log
  {
    hide Inv, Without;
    if s.list.Some? {
      RemoveOneMeaning(s, callback);
      WithoutMembers(s.list.value, callback);
      forall e | e in Without(s.list.value, callback) ensures e.tag != tag {
        assert e in s.list.value;
      }
    }
  }

  lemma {:induction false} RemoveSilent(s: State, callbacks: seq<nat>, tag: nat)
    requires Inv(s) && Gone(s, tag)
    ensures Gone(Remove(s, callbacks), tag) && Remove(s, callbacks).log == s.log
    decreases |callbacks|
  {
    hide RemoveOne, Gone;
    if callbacks != [] {
      RemoveOneKeeps(s, callbacks[0]);
      RemoveOneSilent(s, callbacks[0], tag);
      RemoveSilent(RemoveOne(s, callbacks[0]), callbacks[1..], tag);
    }
  }

  lemma StepSilent(s: State, e: Event, tag: nat)
    requires Inv(s) && Gone(s, tag)
    ensures Gone(Step(s, e), tag) && Silent(s, Step(s, e), tag)
  {
    match e
    case AddEvent(callbacks) =>
      if s.list.Some? && s.memory.Some? && !s.firing {
        PushSilent(PushMemory(s), callbacks, tag);
        var p := Push(PushMemory(s), callbacks);
        NextPassSilent(p.(locked := p.locked || p.options.once, fired := true, firing := true), tag);
      } else if s.list.Some? {
        PushSilent(s, callbacks, tag);
      }
    case RemoveEvent(callbacks) => RemoveSilent(s, callbacks, tag);
    case FireEvent(args) =>
      if !s.locked && !s.firing {
        var p := s.(queue := s.queue + [args], log := s.log.(pushed := s.log.pushed + [args]));
        NextPassSilent(p.(locked := p.locked || p.options.once, fired := true, firing := true), tag);
      }
    case LockEvent =>
    case DisableEvent =>
    case ReturnEvent => if s.firing { ContinueSilent(s, tag); }
  }

  /** An occurrence that is no longer in the list is never called again, whatever happens next. */
  lemma {:induction false} RemovedStaysSilent(s: State, events: seq<Event>, tag: nat)
    requires Inv(s) && Gone(s, tag)
    ensures Silent(s, Run(s, events), tag)
    decreases |events|
  {
    if events != [] {
      StepSilent(s, events[0], tag);
      StepKeeps(s, events[0]);
      RemovedStaysSilent(Step(s, events[0]), events[1..], tag);
    }
  }

  /** Removing a callback takes every addition of it off the list. */
  lemma RemoveOneIsGone(s: State, callback: nat, tag: nat)
    requires Inv(s) && tag < |s.log.added| && s.log.added[tag].callback == callback
    ensures Gone(RemoveOne(s, callback), tag) && RemoveOne(s, callback).log == s.log
  {
    hide Without, AtRest, InPass;
    if s.list.Some? {
      RemoveOneMeaning(s, callback);
      WithoutMembers(s.list.value, callback);
      forall e | e in Without(s.list.value, callback) ensures e.tag != tag {
        assert e in s.list.value && e.callback != callback;
      }
    }
  }

  lemma {:induction false} RemoveIsGone(s: State, callbacks: seq<nat>, tag: nat)
    requires Inv(s) && tag < |s.log.added| && s.log.added[tag].callback in callbacks
    ensures Gone(Remove(s, callbacks), tag)
    decreases |callbacks|
  {
    hide RemoveOne, Gone;
    var r := RemoveOne(s, callbacks[0]);
    RemoveOneKeeps(s, callbacks[0]);
    if s.log.added[tag].callback == callbacks[0] {
      RemoveOneIsGone(s, callbacks[0], tag);
      RemoveSilent(r, callbacks[1..], tag);
    } else {
      RemoveOneLog(s, callbacks[0]);
      RemoveIsGone(r, callbacks[1..], tag);
    }
  }

  lemma RemoveOneLog(s: State, callback: nat)
    requires Inv(s)
    ensures RemoveOne(s, callback).log == s.log
  {
  }

  /**
   Once its callback is removed, in or out of a pass, an addition made so far is never called again, whatever
   happens next, even if the same callback is added anew.
   */
  lemma RemovalIsFinal(s: State, callbacks: seq<nat>, events: seq<Event>, tag: nat)
    requires Inv(s) && tag < |s.log.added| && s.log.added[tag].callback in callbacks
    ensures Inv(Step(s, RemoveEvent(callbacks)))
    ensures var r := Step(s, RemoveEvent(callbacks)); Gone(r, tag) && Silent(r, Run(r, events), tag)
  {
    hide Remove, Gone, Silent, Inv;
    StepKeeps(s, RemoveEvent(callbacks));
    RemoveIsGone(s, callbacks, tag);
    RemovedStaysSilent(Step(s, RemoveEvent(callbacks)), events, tag);
  }

  // ---------------------------------------------------------------- first in, first out

  /** No lock and no disable, which drop what is queued. */
  ghost predicate NothingDropped(events: seq<Event>) {
    forall i :: 0 <= i < |events| ==> events[i] != LockEvent && events[i] != DisableEvent
  }

  /** Passes start in the order in which their arguments were queued, and finish in that order. */
  ghost predicate InOrder(s: State) {
    && s.log.pushed == s.log.started + s.queue
    && |s.log.started| == |s.log.finished| + (if s.firing then 1 else 0)
    && forall i :: 0 <= i < |s.log.finished| ==> s.log.finished[i].args == s.log.started[i]
  }

  lemma {:induction false} ContinueInOrder(s: State)
    requires InPass(s) && s.firing && InOrder(s)
    ensures InOrder(Continue(s))
    decreases |s.queue|, 1
  {
    if !(s.list.Some? && s.firingIndex + 1 < |s.list.value|) {
      NextPassInOrder(EndPass(s));
    }
  }

  lemma {:induction false} NextPassInOrder(s: State)
    requires -1 <= s.firingIndex && s.firing && InOrder(s.(firing := false))
    ensures InOrder(NextPass(s))
    decreases |s.queue|, 0
  {
    if s.queue != [] {
      assert s.log.started + s.queue == s.log.started + [s.queue[0]] + s.queue[1..];
      ContinueInOrder(StartPass(s));
    }
  }

  lemma StepInOrder(s: State, e: Event)
    requires Inv(s) && InOrder(s) && e != LockEvent && e != DisableEvent
    ensures InOrder(Step(s, e))
  {
    match e
    case AddEvent(callbacks) =>
      if s.list.Some? && s.memory.Some? && !s.firing {
        var p := Push(PushMemory(s), callbacks);
        NextPassInOrder(p.(locked := p.locked || p.options.once, fired := true, firing := true));
      }
    case RemoveEvent(callbacks) => RemoveTouchesList(s, callbacks);
    case FireEvent(args) =>
      if !s.locked && !s.firing {
        var p := s.(queue := s.queue + [args], log := s.log.(pushed := s.log.pushed + [args]));
        NextPassInOrder(p.(locked := p.locked || p.options.once, fired := true, firing := true));
      }
    case LockEvent =>
    case DisableEvent =>
    case ReturnEvent => if s.firing { ContinueInOrder(s); }
  }

  lemma {:induction false} RemoveTouchesList(s: State, callbacks: seq<nat>)
    requires -1 <= s.firingIndex && (s.list.Some? ==> s.firingIndex < |s.list.value|)
    ensures var r := Remove(s, callbacks);
      r.(list := s.list, firingIndex := s.firingIndex) == s && (r.list.Some? <==> s.list.Some?)
    decreases |callbacks|
  {
    if callbacks != [] {
      RemoveTouchesList(RemoveOne(s, callbacks[0]), callbacks[1..]);
    }
  }

  ghost function FiredArgs(events: seq<Event>): seq<Args> {
    if events == [] then []
    else (if events[0].FireEvent? then [events[0].args] else []) + FiredArgs(events[1..])
  }

  lemma {:induction false} RunInOrder(s: State, events: seq<Event>)
    requires Inv(s) && InOrder(s) && NothingDropped(events)
    ensures InOrder(Run(s, events))
    decreases |events|
  {
    if events != [] {
      StepInOrder(s, events[0]);
      StepKeeps(s, events[0]);
      RunInOrder(Step(s, events[0]), events[1..]);
    }
  }

  /** A list without options: nothing locks it, nothing is remembered. */
  ghost predicate Plain(s: State) {
    !s.options.once && !s.options.memory && !s.locked && (!s.firing ==> s.memory.None?)
  }

  lemma {:induction false} ContinuePlain(s: State)
    requires InPass(s) && Plain(s) && s.firing
    ensures Plain(Continue(s)) && Continue(s).log.pushed == s.log.pushed
    decreases |s.queue|, 1
  {
    if !(s.list.Some? && s.firingIndex + 1 < |s.list.value|) {
      NextPassPlain(EndPass(s));
    }
  }

  lemma {:induction false} NextPassPlain(s: State)
    requires -1 <= s.firingIndex && s.firing && Plain(s)
    ensures Plain(NextPass(s)) && NextPass(s).log.pushed == s.log.pushed
    decreases |s.queue|, 0
  {
    if s.queue != [] {
      ContinuePlain(StartPass(s));
    }
  }

  lemma PlainStep(s: State, e: Event)
    requires Inv(s) && Plain(s) && e != LockEvent && e != DisableEvent
    ensures Plain(Step(s, e))
    ensures Step(s, e).log.pushed == s.log.pushed + if e.FireEvent? then [e.args] else []
  {
    match e
    case AddEvent(callbacks) =>
    case RemoveEvent(callbacks) => RemoveTouchesList(s, callbacks);
    case FireEvent(args) =>
      if !s.firing {
        var p := s.(queue := s.queue + [args], log := s.log.(pushed := s.log.pushed + [args]));
        NextPassPlain(p.(locked := p.locked || p.options.once, fired := true, firing := true));
      }
    case LockEvent =>
    case DisableEvent =>
    case ReturnEvent => if s.firing { ContinuePlain(s); }
  }

  lemma {:induction false} PlainRun(s: State, events: seq<Event>)
    requires Inv(s) && Plain(s) && NothingDropped(events)
    ensures Run(s, events).log.pushed == s.log.pushed + FiredArgs(events)
    decreases |events|
  {
    hide Inv, Step, Plain;
    if events != [] {
      var fired := if events[0].FireEvent? then [events[0].args] else [];
      PlainStep(s, events[0]);
      StepKeeps(s, events[0]);
      PlainRun(Step(s, events[0]), events[1..]);
      assert s.log.pushed + fired + FiredArgs(events[1..]) == s.log.pushed + (fired + FiredArgs(events[1..]));
    } else {
      assert s.log.pushed + [] == s.log.pushed;
    }
  }

  /**
   On a repeatable list, fires made while the list is firing run later, in order: the passes started
   so far and the queue behind them are exactly the arguments fired so far.
   */
  lemma NestedFiresRunInOrder(unique: bool, events: seq<Event>)
    requires NothingDropped(events)
    ensures Inv(Initial(Options(false, false, unique)))
    ensures var s := Run(Initial(Options(false, false, unique)), events);
      && s.log.started + s.queue == FiredArgs(events)
      && |s.log.started| == |s.log.finished| + (if s.firing then 1 else 0)
      && (forall i :: 0 <= i < |s.log.finished| ==> s.log.finished[i].args == s.log.started[i])
      && (!s.firing ==> s.log.started == FiredArgs(events))
  {
    var first := Initial(Options(false, false, unique));
    InitialInv(Options(false, false, unique));
    assert InOrder(first) && Plain(first);
    hide Run, Step, Inv, InOrder, Initial, FiredArgs;
    RunInOrder(first, events);
    PlainRun(first, events);
    assert [] + FiredArgs(events) == FiredArgs(events);
    AtRestInOrder(Run(first, events));
  }

  lemma AtRestInOrder(s: State)
    requires Inv(s) && InOrder(s)
    ensures s.log.started + s.queue == s.log.pushed
    ensures |s.log.started| == |s.log.finished| + (if s.firing then 1 else 0)
    ensures forall i :: 0 <= i < |s.log.finished| ==> s.log.finished[i].args == s.log.started[i]
    ensures !s.firing ==> s.log.started == s.log.pushed
  {
    hide ListRight, InPass;
    assert s.log.started + [] == s.log.started;
  }

  // ---------------------------------------------------------------- once memory

  function CallbacksOf(entries: seq<Entry>): seq<nat> {
    seq(|entries|, i requires 0 <= i < |entries| => entries[i].callback)
  }

  function EntriesOf(calls: seq<Call>): seq<Entry> {
    seq(|calls|, i requires 0 <= i < |calls| => calls[i].entry)
  }

  /** The entries still to be called. */
  function Pending(s: State): seq<Entry>
    requires -1 <= s.firingIndex
  {
    if s.firing && s.list.Some? && s.firingIndex < |s.list.value| then s.list.value[s.firingIndex + 1..] else []
  }

  /** A "once memory" list before its first fire, and from then on with the arguments of that fire. */
  ghost predicate OnceMemory(s: State, first: Option<Args>) {
    && s.options == Options(true, true, false)
    && s.list.Some?
    && match first
       case None =>
         && !s.fired && !s.firing && !s.locked && s.memory == None
         && s.list == Some(s.log.added) && s.log.calls == []
       case Some(args) =>
         && s.fired && s.locked && s.memory == Some(args) && s.queue == []
         && (!s.firing ==> s.list == Some([]))
         && (s.firing ==> -1 <= s.firingIndex < |s.list.value|)
         && (forall i :: 0 <= i < |s.log.calls| ==> s.log.calls[i].args == args)
         && -1 <= s.firingIndex && EntriesOf(s.log.calls) + Pending(s) == s.log.added
  }

  lemma ContinueOnceMemory(s: State, args: Args)
    requires InPass(s) && s.firing && OnceMemory(s, Some(args))
    ensures OnceMemory(Continue(s), Some(args)) && Continue(s).log.added == s.log.added
  {
    if s.firingIndex + 1 < |s.list.value| {
      var r := Invoke(s);
      assert Continue(s) == r;
      assert EntriesOf(r.log.calls) == EntriesOf(s.log.calls) + [s.list.value[s.firingIndex + 1]];
      assert Pending(s) == [s.list.value[s.firingIndex + 1]] + Pending(r);
    } else {
      assert Continue(s) == Finish(EndPass(s));
    }
  }

  lemma {:induction false} PushAll(s: State, callbacks: seq<nat>)
    requires s.list.Some? && !s.options.unique
    ensures exists more: seq<Entry> ::
      && CallbacksOf(more) == callbacks
      && Push(s, callbacks).list == Some(s.list.value + more)
      && Push(s, callbacks).log.added == s.log.added + more
    decreases |callbacks|
  {
    if callbacks == [] {
      assert s.list.value + [] == s.list.value && s.log.added + [] == s.log.added;
      assert CallbacksOf([]) == [];
    } else {
      var one, entry := PushOne(s, callbacks[0]), Entry(callbacks[0], |s.log.added|);
      PushAll(one, callbacks[1..]);
      var more :| CallbacksOf(more) == callbacks[1..] &&
        Push(one, callbacks[1..]).list == Some(one.list.value + more) &&
        Push(one, callbacks[1..]).log.added == one.log.added + more;
      assert CallbacksOf([entry] + more) == callbacks;
      assert one.list.value + more == s.list.value + ([entry] + more);
      assert one.log.added + more == s.log.added + ([entry] + more);
    }
  }

  lemma AddOnceMemory(s: State, callbacks: seq<nat>, first: Option<Args>)
    requires Inv(s) && OnceMemory(s, first)
    ensures OnceMemory(Add(s, callbacks), first)
    ensures CallbacksOf(Add(s, callbacks).log.added) == CallbacksOf(s.log.added) + callbacks
  {
    hide Inv, Begin;
    if s.memory.Some? && !s.firing {
      AddToFired(s, callbacks, first.value);
    } else {
      PushAll(s, callbacks);
      if first.Some? {
        PendingGrows(s, Push(s, callbacks));
      }
    }
  }

  lemma PendingGrows(s: State, p: State)
    requires s.firing && s.list.Some? && p.list.Some? && s.list.value <= p.list.value
    requires -1 <= s.firingIndex < |s.list.value| && p.firingIndex == s.firingIndex && p.firing
    ensures Pending(p) == Pending(s) + p.list.value[|s.list.value|..]
  {
  }

  /** An addition to a list that has fired and is at rest starts a pass over what is added. */
  lemma AddToFired(s: State, callbacks: seq<nat>, args: Args)
    requires Inv(s) && OnceMemory(s, Some(args)) && !s.firing
    ensures OnceMemory(Add(s, callbacks), Some(args))
    ensures CallbacksOf(Add(s, callbacks).log.added) == CallbacksOf(s.log.added) + callbacks
  {
    hide Inv, Continue, NextPass, Push, CallbacksOf, Begin, OnceMemory;
    OnceMemoryParts(s, args);
    var m := PushMemory(s);
    PushAll(m, callbacks);
    var p := Push(m, callbacks);
    var more: seq<Entry> :| CallbacksOf(more) == callbacks && p.list == Some(m.list.value + more) &&
      p.log.added == m.log.added + more;
    CallbacksAppend(s.log.added, more);
    var r := StartPass(p.(locked := true, fired := true, firing := true));
    StartsOnAdded(s, p, more, args);
    BeginFired(p);
    ContinueOnceMemory(r, args);
  }

  lemma OnceMemoryParts(s: State, args: Args)
    requires OnceMemory(s, Some(args)) && !s.firing
    ensures s.options == Options(true, true, false) && s.memory == Some(args) && s.list == Some([]) && s.queue == []
  {
  }

  /** The pass over what has been added begins with all of it pending. */
  lemma StartsOnAdded(s: State, p: State, more: seq<Entry>, args: Args)
    requires OnceMemory(s, Some(args)) && !s.firing && s.list.Some?
    requires var m := PushMemory(s);
      && p == m.(list := p.list, log := m.log.(added := p.log.added))
      && p.list == Some(m.list.value + more) && p.log.added == m.log.added + more
    ensures p.queue != []
    ensures var r := StartPass(p.(locked := true, fired := true, firing := true));
      InPass(r) && OnceMemory(r, Some(args)) && r.log.added == s.log.added + more
  {
    var m := PushMemory(s);
    var r := StartPass(p.(locked := true, fired := true, firing := true));
    assert m.list.value + more == more;
    NothingPending(s, args);
    assert Pending(r) == more;
  }

  lemma NothingPending(s: State, args: Args)
    requires OnceMemory(s, Some(args)) && !s.firing
    ensures EntriesOf(s.log.calls) == s.log.added
  {
  }

  lemma CallbacksAppend(a: seq<Entry>, b: seq<Entry>)
    ensures CallbacksOf(a + b) == CallbacksOf(a) + CallbacksOf(b)
  {
  }

  lemma BeginFired(p: State)
    requires p.queue != [] && p.options.once && -1 <= p.firingIndex
    ensures Begin(p) == Continue(StartPass(p.(locked := true, fired := true, firing := true)))
  {
  }

  lemma FireOnceMemory(s: State, args: Args, first: Option<Args>)
    requires Inv(s) && OnceMemory(s, first)
    ensures OnceMemory(FireWith(s, args), if first.Some? then first else Some(args))
    ensures FireWith(s, args).log.added == s.log.added
  {
    if first.None? {
      var p := s.(queue := s.queue + [args], log := s.log.(pushed := s.log.pushed + [args]));
      var q := p.(locked := true, fired := true, firing := true);
      var r := StartPass(q);
      assert FireWith(s, args) == NextPass(q) == Continue(r);
      assert Pending(r) == r.list.value;
      ContinueOnceMemory(r, args);
    }
  }

  /** Only additions, fires and returns. */
  ghost predicate AddsAndFires(events: seq<Event>) {
    forall i :: 0 <= i < |events| ==> events[i].AddEvent? || events[i].FireEvent? || events[i].ReturnEvent?
  }

  ghost function Additions(events: seq<Event>): seq<nat> {
    if events == [] then []
    else (if events[0].AddEvent? then events[0].callbacks else []) + Additions(events[1..])
  }

  ghost function FirstFire(events: seq<Event>): Option<Args> {
    if events == [] then None
    else if events[0].FireEvent? then Some(events[0].args)
    else FirstFire(events[1..])
  }

  lemma OnceMemoryStep(s: State, e: Event, first: Option<Args>)
    requires Inv(s) && OnceMemory(s, first) && (e.AddEvent? || e.FireEvent? || e.ReturnEvent?)
    ensures OnceMemory(Step(s, e), if first.None? && e.FireEvent? then Some(e.args) else first)
    ensures CallbacksOf(Step(s, e).log.added) ==
            CallbacksOf(s.log.added) + if e.AddEvent? then e.callbacks else []
  {
    match e
    case AddEvent(callbacks) => AddOnceMemory(s, callbacks, first);
    case FireEvent(args) => FireOnceMemory(s, args, first);
    case ReturnEvent => if s.firing { ContinueOnceMemory(s, first.value); }
  }

  lemma {:induction false} OnceMemoryRun(s: State, events: seq<Event>, first: Option<Args>)
    requires Inv(s) && OnceMemory(s, first) && AddsAndFires(events)
    ensures OnceMemory(Run(s, events), if first.Some? then first else FirstFire(events))
    ensures CallbacksOf(Run(s, events).log.added) == CallbacksOf(s.log.added) + Additions(events)
    decreases |events|
  {
    hide Inv, OnceMemory, Step, CallbacksOf;
    if events != [] {
      var e := events[0];
      OnceMemoryStep(s, e, first);
      StepKeeps(s, e);
      OnceMemoryRun(Step(s, e), events[1..], if first.None? && e.FireEvent? then Some(e.args) else first);
      var added := if e.AddEvent? then e.callbacks else [];
      assert CallbacksOf(s.log.added) + added + Additions(events[1..]) ==
             CallbacksOf(s.log.added) + (added + Additions(events[1..]));
    } else {
      assert CallbacksOf(s.log.added) + [] == CallbacksOf(s.log.added);
    }
  }

  /**
   On a "once memory" list every addition made before, during or after the first fire is called exactly
   once, in the order of addition and with the arguments of that fire: the calls made and the entries
   still pending are the additions, and nothing is pending when the list is not firing.
   */
  lemma EveryAdditionCalledOnce(events: seq<Event>)
    requires AddsAndFires(events)
    ensures Inv(Initial(Options(true, true, false)))
    ensures var s := Run(Initial(Options(true, true, false)), events);
      && (FirstFire(events).None? ==> s.log.calls == [])
      && (FirstFire(events).Some? ==>
            && CallbacksOf(EntriesOf(s.log.calls)) + CallbacksOf(Pending(s)) == Additions(events)
            && (!s.firing ==> CallbacksOf(EntriesOf(s.log.calls)) == Additions(events))
            && forall i :: 0 <= i < |s.log.calls| ==> s.log.calls[i].args == FirstFire(events).value)
  {
    hide Inv, Run, FirstFire, Additions;
    var s0 := Initial(Options(true, true, false));
    InitialInv(s0.options);
    OnceMemoryRun(s0, events, None);
    assert [] + Additions(events) == Additions(events);
    if FirstFire(events).Some? {
      OwedCalls(Run(s0, events), FirstFire(events).value);
    }
  }

  /** The calls made and the entries pending are the additions. */
  lemma OwedCalls(s: State, args: Args)
    requires OnceMemory(s, Some(args))
    ensures -1 <= s.firingIndex
    ensures CallbacksOf(EntriesOf(s.log.calls)) + CallbacksOf(Pending(s)) == CallbacksOf(s.log.added)
    ensures !s.firing ==> Pending(s) == [] && CallbacksOf(EntriesOf(s.log.calls)) == CallbacksOf(s.log.added)
    ensures forall i :: 0 <= i < |s.log.calls| ==> s.log.calls[i].args == args
  {
    assert CallbacksOf(EntriesOf(s.log.calls) + Pending(s)) ==
           CallbacksOf(EntriesOf(s.log.calls)) + CallbacksOf(Pending(s));
    assert !s.firing ==> EntriesOf(s.log.calls) + Pending(s) == EntriesOf(s.log.calls);
  }
}
