/** The deferred object itself: three callback list objects, the state, and the callbacks that are running. */
module DeferredObject {
  import C = Callbacks
  import opened CallbackList
  import opened Deferred

  lemma ReadyToResume(s: C.State)
    requires C.Inv(s)
    ensures s.firing ==> C.InPass(s)
  {
  }

  class DeferredObject {
    const progress: CallbackList
    const done: CallbackList
    const fail: CallbackList
    var phase: Phase
    /** The lists with a callback running, the innermost last. */
    var stack: seq<Which>

    ghost function Now(): State
      reads this, progress, done, fail
    {
      State(progress.Now(), done.Now(), fail.Now(), phase, stack)
    }

    ghost predicate Valid()
      reads this, progress, done, fail
    {
      progress != done && progress != fail && done != fail && ListsRight(Now())
    }

    constructor ()
      ensures Valid() && Now() == New() && fresh(progress) && fresh(done) && fresh(fail)
    {
      hide C.Inv, C.Add;
      var p := new CallbackList(C.Options(false, true, false));
      var d := new CallbackList(C.Options(true, true, false));
      var f := new CallbackList(C.Options(true, true, false));
      d.AddAll(INTERNALS);
      f.AddAll(INTERNALS);
      progress, done, fail, phase, stack := p, d, f, Pending, [];
    }

    function ListOf(which: Which): (list: CallbackList)
    {
      match which
      case Progress => progress
      case Done => done
      case Fail => fail
    }

    /** An internal callback of a list: it sets the state, disables the other list, or locks progress. */
    method Perform(which: Which, callback: nat)
      requires Valid() && which != Progress
      modifies this`phase, progress, done, fail
      ensures Valid() && Now() == Effect(old(Now()), which, callback)
      ensures ListOf(which).Now() == old(ListOf(which).Now())
    {
      hide C.Inv, C.Disable, C.Lock;
      EffectKeeps(Now(), which, callback);
      var other := ListOf(Other(which));
      if callback == SET_STATE {
        phase := if which == Done then Resolved else Rejected;
      } else if callback == DISABLE_OTHER {
        other.DisableList();
      } else if callback == LOCK_PROGRESS {
        progress.LockList();
      }
    }

    /** The internal callback that the list has just called does its work and returns. */
    method InternalCallback(which: Which)
      requires Valid() && which != Progress
      modifies this`phase, progress, done, fail
      ensures Valid() && Now() == RunInternal(old(Now()), which)
    {
      hide C.Inv, C.Continue, Effect, ListsRight;
      var list := ListOf(which);
      ghost var next := RunInternal(Now(), which);
      ListInv(Now(), which);
      ReadyToResume(list.Now());
      if |list.log.calls| == 0 {
        return;
      }
      Perform(which, list.log.calls[|list.log.calls| - 1].entry.callback);
      ghost var effect := Now();
      if list.firing {
        list.Resume();
      }
      assert Now() == WithList(effect, which, list.Now());
    }

    method Settle(which: Which, args: C.Args)
      requires Valid() && which != Progress
      modifies this, progress, done, fail
      ensures Valid() && Now() == Deferred.Settle(old(Now()), which, args)
    {
      hide C.Inv, C.FireWith, RunInternal;
      var list := ListOf(which);
      IndexInRange(list.Now());
      if list.locked {
        return;
      }
      var before := list.firing;
      list.Fire(args);
      ghost var d := Now();
      var n := |INTERNALS|;
      while n > 0
        invariant Valid() && stack == old(stack) && 0 <= n
        invariant RunInternals(Now(), which, n) == RunInternals(d, which, |INTERNALS|)
      {
        InternalCallback(which);
        n := n - 1;
      }
      if !before && list.firing {
        stack := stack + [which];
      }
    }

    method AddTo(which: Which, callbacks: seq<nat>)
      requires Valid()
      modifies this`stack, progress, done, fail
      ensures Valid() && Now() == Deferred.AddTo(old(Now()), which, callbacks)
    {
      hide C.Inv, C.Add;
      var list := ListOf(which);
      IndexInRange(list.Now());
      var before := list.firing;
      list.AddAll(User(callbacks));
      if !before && list.firing {
        stack := stack + [which];
      }
    }

    method Notify(args: C.Args)
      requires Valid()
      modifies this`stack, progress
      ensures Valid() && Now() == Deferred.Notify(old(Now()), args)
    {
      hide C.Inv, C.FireWith;
      IndexInRange(progress.Now());
      var before := progress.firing;
      progress.Fire(args);
      if !before && progress.firing {
        stack := stack + [Progress];
      }
    }

    method ReturnTop()
      requires Valid()
      modifies this`stack, progress, done, fail
      ensures Valid() && Now() == Deferred.ReturnTop(old(Now()))
    {
      hide C.Inv, C.Continue, ListsRight;
      ghost var next := Deferred.ReturnTop(Now());
      if |stack| > 0 {
        var top := stack[|stack| - 1];
        var list := ListOf(top);
        ghost var before := Now();
        ListInv(before, top);
        ReadyToResume(list.Now());
        if list.firing {
          list.Resume();
        }
        assert list.Now() == ReturnOf(List(before, top));
        assert Now() == WithList(before, top, ReturnOf(List(before, top)));
        if !list.firing {
          stack := stack[..|stack| - 1];
        }
      }
      assert Now() == next;
    }
  }
}
