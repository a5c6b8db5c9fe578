/** The callback list as the object that jQuery.Callbacks returns, method by method. */
module CallbackList {
  import opened Sequences
  import opened Callbacks

  /** Index of the first occurrence at or after `from`, or -1. */
  method InArray(callback: nat, list: seq<Entry>, from: nat) returns (index: int)
    requires from <= |list|
    ensures index == -1 || from <= index < |list|
    ensures index == -1 ==> forall i :: from <= i < |list| ==> list[i].callback != callback
    ensures index != -1 ==> list[index].callback == callback
    ensures index != -1 ==> forall i :: from <= i < index ==> list[i].callback != callback
  {
    index := from;
    while index < |list|
      invariant from <= index <= |list|
      invariant forall i :: from <= i < index ==> list[i].callback != callback
    {
      if list[index].callback == callback {
        return;
      }
      index := index + 1;
    }
    index := -1;
  }

  lemma {:induction false} WithoutNothing(list: seq<Entry>, callback: nat)
    requires forall i :: 0 <= i < |list| ==> list[i].callback != callback
    ensures Without(list, callback) == list
  {
    if list != [] {
      WithoutNothing(list[1..], callback);
    }
  }

  /** Scanning on over kept entries, and over one removed entry when there is one. */
  lemma WithoutScanned(list: seq<Entry>, callback: nat, p: nat, q: nat)
    requires p <= q <= |list| && forall i :: p <= i < q ==> list[i].callback != callback
    ensures Without(list[..q], callback) == Without(list[..p], callback) + list[p..q]
    ensures q < |list| && list[q].callback == callback ==>
      Without(list[..q + 1], callback) == Without(list[..q], callback)
  {
    assert list[..q] == list[..p] + list[p..q];
    WithoutAppend(list[..p], list[p..q], callback);
    WithoutNothing(list[p..q], callback);
    if q < |list| && list[q].callback == callback {
      assert list[..q + 1] == list[..q] + [list[q]];
      WithoutAppend(list[..q], [list[q]], callback);
      assert Without([list[q]], callback) == [];
    }
  }

  /**
   The first p entries of `all` have been scanned: `list` is what is left of them followed by the rest,
   and firingIndex covers what is left of the first k.
   */
  ghost predicate Scanned(all: seq<Entry>, k: nat, callback: nat, p: nat, list: seq<Entry>,
                          start: nat, firingIndex: int)
    requires p <= |all| && k <= |all|
  {
    && start == |Without(all[..p], callback)|
    && list == Without(all[..p], callback) + all[p..]
    && firingIndex + 1 == if p <= k then start + k - p else |Without(all[..k], callback)|
  }

  lemma StartScan(all: seq<Entry>, k: nat, callback: nat)
    requires k <= |all|
    ensures Scanned(all, k, callback, 0, all, 0, k - 1)
  {
    assert all[..0] == [] && all[0..] == all;
  }

  lemma ScanOn(all: seq<Entry>, k: nat, callback: nat, p: nat, list: seq<Entry>, start: nat, firingIndex: int,
               index: nat)
    requires p <= |all| && k <= |all| && Scanned(all, k, callback, p, list, start, firingIndex)
    requires start <= index < |list| && list[index].callback == callback
    requires forall i :: start <= i < index ==> list[i].callback != callback
    ensures p + index - start + 1 <= |all|
    ensures Scanned(all, k, callback, p + index - start + 1, list[..index] + list[index + 1..], index,
                    if index <= firingIndex then firingIndex - 1 else firingIndex)
  {
    var q := p + index - start;
    var kept := Without(all[..p], callback);
    forall i | p <= i <= q ensures all[i] == list[start + i - p] {
      assert list[start + i - p] == (kept + all[p..])[|kept| + i - p];
    }
    WithoutScanned(all, callback, p, q);
    if p <= k <= q {
      WithoutScanned(all, callback, p, k);
    } else if k < p {
      assert all[..p] == all[..k] + all[k..p];
      WithoutAppend(all[..k], all[k..p], callback);
    }
    assert list[..index] == Without(all[..p], callback) + all[p..q];
    assert list[index + 1..] == all[q + 1..];
  }

  lemma EndScan(all: seq<Entry>, k: nat, callback: nat, p: nat, list: seq<Entry>, start: nat, firingIndex: int)
    requires p <= |all| && k <= |all| && Scanned(all, k, callback, p, list, start, firingIndex)
    requires start <= |list| && forall i :: start <= i < |list| ==> list[i].callback != callback
    ensures list == Without(all[..k], callback) + Without(all[k..], callback)
    ensures firingIndex == |Without(all[..k], callback)| - 1
  {
    assert forall i :: p <= i < |all| ==> all[i] == list[start + i - p];
    WithoutScanned(all, callback, p, |all|);
    if p <= k {
      WithoutScanned(all, callback, p, k);
    }
    assert all[..|all|] == all && all == all[..k] + all[k..];
    WithoutAppend(all[..k], all[k..], callback);
  }

  ghost predicate Bounded(s: State) {
    -1 <= s.firingIndex && (s.list.Some? ==> s.firingIndex < |s.list.value|)
  }

  lemma InvBounds(s: State)
    requires Inv(s)
    ensures Bounded(s)
  {
  }

  /** Splices out every occurrence, moving firingIndex back for each one at or before it. */
  method SpliceAll(list: seq<Entry>, firingIndex: int, callback: nat) returns (rest: seq<Entry>, at: int)
    requires -1 <= firingIndex < |list|
    ensures rest == Without(list[..firingIndex + 1], callback) + Without(list[firingIndex + 1..], callback)
    ensures at == |Without(list[..firingIndex + 1], callback)| - 1
  {
    hide Without, Scanned;
    rest, at := list, firingIndex;
    ghost var p: nat := 0;
    var start: nat := 0;
    var index := InArray(callback, rest, 0);
    StartScan(list, firingIndex + 1, callback);
    while index > -1
      invariant start <= |rest| && p <= |list|
      invariant Scanned(list, firingIndex + 1, callback, p, rest, start, at)
      invariant index == -1 || start <= index < |rest|
      invariant index == -1 ==> forall i :: start <= i < |rest| ==> rest[i].callback != callback
      invariant index != -1 ==> rest[index].callback == callback
      invariant index != -1 ==> forall i :: start <= i < index ==> rest[i].callback != callback
      decreases |list| - p, index
    {
      ScanOn(list, firingIndex + 1, callback, p, rest, start, at, index);
      p := p + index - start + 1;
      rest := rest[..index] + rest[index + 1..];
      if index <= at {
        at := at - 1;
      }
      start := index;
      index := InArray(callback, rest, start);
    }
    EndScan(list, firingIndex + 1, callback, p, rest, start, at);
  }

  lemma RemoveOneIs(s: State, callback: nat, rest: seq<Entry>, at: int)
    requires Bounded(s) && s.list.Some?
    requires var k := s.firingIndex + 1;
      && rest == Without(s.list.value[..k], callback) + Without(s.list.value[k..], callback)
      && at == |Without(s.list.value[..k], callback)| - 1
    ensures RemoveOne(s, callback) == s.(list := Some(rest), firingIndex := at)
  {
  }

  lemma RemoveOneFromNone(s: State, callback: nat)
    requires Bounded(s) && s.list.None?
    ensures RemoveOne(s, callback) == s
  {
  }

  class CallbackList {
    const options: Options
    var list: Option<seq<Entry>>
    var queue: seq<Args>
    var memory: Option<Args>
    var fired: bool
    var firing: bool
    var locked: bool
    var firingIndex: int
    /** The history, which the object itself does not keep. */
    var log: Log

    constructor (options: Options)
      ensures Now() == Initial(options) && Inv(Now())
    {
      this.options := options;
      list, queue, memory, fired, firing, locked, firingIndex := Some([]), [], None, false, false, false, -1;
      log := Log([], [], [], [], 0, [], []);
    }

    ghost function Now(): State
      reads this
    {
      State(options, list, queue, memory, fired, firing, locked, firingIndex, log)
    }

    /** The loop of fire(), from the point where a callback has returned to the next one it invokes. */
    method Resume()
      requires InPass(Now())
      modifies this
      ensures Now() == Continue(old(Now()))
    {
      while true
        invariant InPass(Now()) && Continue(Now()) == Continue(old(Now()))
        decreases |queue|
      {
        if list.Some? && firingIndex + 1 < |list.value| {
          firingIndex := firingIndex + 1;
          var entry := list.value[firingIndex];
          log := log.(calls := log.calls + [Call(entry, memory.value)], made := log.made + [entry]);
          return;
        }
        var left := if list.Some? then list.value else [];
        var pass := Pass(log.started[|log.started| - 1], log.from, log.made, left);
        firingIndex := -1;
        log := log.(from := 0, made := [], finished := log.finished + [pass]);
        if queue == [] {
          FinishFiring();
          return;
        }
        TakeNext();
      }
    }

    method TakeNext()
      requires queue != []
      modifies this
      ensures Now() == StartPass(old(Now()))
    {
      memory := Some(queue[0]);
      log := log.(started := log.started + [queue[0]]);
      queue := queue[1..];
    }

    method FinishFiring()
      modifies this
      ensures Now() == Finish(old(Now()))
    {
      if !options.memory {
        memory := None;
      }
      firing := false;
      if locked {
        list := if memory.Some? then Some([]) else None;
      }
    }

    method BeginFiring()
      requires -1 <= firingIndex
      modifies this
      ensures Now() == Begin(old(Now()))
    {
      locked := locked || options.once;
      fired, firing := true, true;
      if queue == [] {
        FinishFiring();
      } else {
        TakeNext();
        Resume();
      }
    }

    method AddAll(callbacks: seq<nat>)
      requires Inv(Now())
      modifies this
      ensures Now() == Add(old(Now()), callbacks) && Inv(Now())
    {
      AddKeeps(Now(), callbacks);
      assert -1 <= firingIndex;
      hide Inv, Push, Begin;
      if list.None? {
        return;
      }
      var again := memory.Some? && !firing;
      if again {
        firingIndex := |list.value| - 1;
        queue := queue + [memory.value];
        log := log.(pushed := log.pushed + [memory.value], from := |log.added|);
      }
      PushEach(callbacks);
      if again {
        BeginFiring();
      }
    }

    method PushEach(callbacks: seq<nat>)
      requires list.Some?
      modifies this`list, this`log
      ensures Now() == Push(old(Now()), callbacks)
    {
      var i := 0;
      while i < |callbacks|
        invariant 0 <= i <= |callbacks| && list.Some?
        invariant Push(Now(), callbacks[i..]) == Push(old(Now()), callbacks)
      {
        assert callbacks[i..][1..] == callbacks[i + 1..];
        if !options.unique || !Has(list.value, callbacks[i]) {
          var entry := Entry(callbacks[i], |log.added|);
          list, log := Some(list.value + [entry]), log.(added := log.added + [entry]);
        }
        i := i + 1;
      }
    }

    /** Takes one callback out of the list, wherever the list is in a pass. */
    method RemoveOccurrences(callback: nat)
      requires Inv(Now())
      modifies this
      ensures Now() == RemoveOne(old(Now()), callback) && Inv(Now())
    {
      ghost var before := Now();
      RemoveOneKeeps(before, callback);
      InvBounds(before);
      hide Inv, Without, RemoveOne;
      if list.Some? {
        var rest, at := SpliceAll(list.value, firingIndex, callback);
        RemoveOneIs(before, callback, rest, at);
        list, firingIndex := Some(rest), at;
      } else {
        RemoveOneFromNone(before, callback);
      }
    }

    method RemoveAll(callbacks: seq<nat>)
      requires Inv(Now())
      modifies this
      ensures Now() == Remove(old(Now()), callbacks) && Inv(Now())
    {
      InvBounds(Now());
      hide Inv, RemoveOne;
      var i := 0;
      assert callbacks[0..] == callbacks;
      while i < |callbacks|
        invariant 0 <= i <= |callbacks| && Inv(Now()) && Bounded(Now())
        invariant Remove(Now(), callbacks[i..]) == Remove(old(Now()), callbacks)
      {
        assert callbacks[i..][1..] == callbacks[i + 1..];
        RemoveOccurrences(callbacks[i]);
        InvBounds(Now());
        i := i + 1;
      }
    }

    method Fire(args: Args)
      requires Inv(Now())
      modifies this
      ensures Now() == FireWith(old(Now()), args) && Inv(Now())
    {
      FireKeeps(Now(), args);
      if !locked {
        queue, log := queue + [args], log.(pushed := log.pushed + [args]);
        if !firing {
          BeginFiring();
        }
      }
    }

    method LockList()
      requires Inv(Now())
      modifies this
      ensures Now() == Lock(old(Now())) && Inv(Now())
    {
      locked, queue := true, [];
      if memory.None? && !firing {
        list := None;
      }
    }

    method DisableList()
      requires Inv(Now())
      modifies this
      ensures Now() == Disable(old(Now())) && Inv(Now())
    {
      locked, queue, list, memory := true, [], None, None;
    }
  }
}
