/**
 The two cooperating objects of the uploader, method by method. Besides the new state each method promises what
 follows for its caller from an orderly state: when the state stays orderly, which files start, and what the queue
 and the counter have become.
 */
module UploadObjects {
  import opened Sequences
  import U = Uploads

  class UploadHandlerXhr {
    const max: nat
    var files: seq<bool>
    var queue: seq<nat>
    /** The ids that have a request object. */
    var xhrs: set<nat>
    /** Those of them whose response is still to come. */
    var inFlight: set<nat>
    /** The ids in the order in which they got a slot. */
    var started: seq<nat>

    ghost function Now(): U.Handler
      reads this
    {
      U.Handler(max, files, queue, xhrs, inFlight, started)
    }

    constructor (max: nat)
      ensures Now() == U.Handler(max, [], [], {}, {}, [])
    {
      this.max, files, queue, xhrs, inFlight, started := max, [], [], {}, {}, [];
    }

    method AddFile() returns (id: nat)
      modifies this`files
      ensures id == |old(files)| && Now() == old(Now()).(files := old(files) + [true])
    {
      id := |files|;
      files := files + [true];
    }

    method Send(id: nat, first: bool)
      modifies this`xhrs, this`inFlight, this`started
      ensures Now() == U.Send(old(Now()), id, first)
    {
      xhrs, inFlight := xhrs + {id}, inFlight + {id};
      if first {
        started := started + [id];
      }
    }

    /** A new file goes to the end of the queue and starts at once if a slot is free. */
    method Upload(id: nat)
      modifies this
      ensures Now() == U.Upload(old(Now()), id)
      ensures old(U.SlotsRight(Now()) && Distinct(queue)) && id !in old(queue) ==>
        U.SlotsRight(Now()) && Distinct(queue) && U.Joined(old(Now()), id, Now())
    {
      ghost var before := Now();
      queue := queue + [id];
      if |queue| <= max {
        Send(id, true);
      }
      if U.SlotsRight(before) && Distinct(before.queue) && id !in before.queue {
        U.UploadKeepsSlots(before, id);
      }
    }

    method Retry(id: nat)
      modifies this
      ensures Now() == U.Retry(old(Now()), id)
    {
      var i := IndexInQueue(id);
      if i >= 0 {
        Send(id, false);
      } else {
        Upload(id);
      }
    }

    method IndexInQueue(id: nat) returns (i: int)
      ensures i == U.IndexIn(queue, id)
    {
      i := U.IndexIn(queue, id);
    }

    /** A queued file leaves; the requests of the others are those of the slots again. */
    method Dequeue(id: nat)
      requires max >= 1
      modifies this
      ensures Now() == U.Dequeue(old(Now()), id)
      ensures old(Distinct(queue) && id in queue) ==> Distinct(queue) && U.Left(old(Now()), id, Now())
      ensures old(Distinct(queue) && id in queue && U.SlotsBut(Now(), id)) ==> U.SlotsRight(Now())
    {
      ghost var before := Now();
      var i := IndexInQueue(id);
      queue := U.SpliceOne(queue, i);
      if |queue| >= max && i < max {
        var nextId := queue[max - 1];
        Send(nextId, true);
      }
      if Distinct(before.queue) && id in before.queue {
        U.LeavesQueue(before, id);
      }
    }
  }

  class FineUploaderBasic {
    const handler: UploadHandlerXhr
    const options: U.Options
    var filesInProgress: int
    var stored: seq<nat>
    var autoRetries: map<nat, nat>
    var prevented: set<nat>
    var timers: set<nat>
    /** The files that are done, cancelled or turned down. */
    var finished: set<nat>

    ghost function Now(): U.Uploader
      reads this, handler
    {
      U.Uploader(handler.Now(), options, filesInProgress, stored, autoRetries, prevented, timers, finished)
    }

    constructor (max: nat, options: U.Options)
      ensures Now() == U.New(max, options) && fresh(handler)
    {
      handler := new UploadHandlerXhr(max);
      this.options := options;
      filesInProgress, stored, autoRetries, prevented, timers, finished := 0, [], map[], {}, {}, {};
    }

    /** The stored files join the line in their order. */
    method UploadStoredFiles()
      modifies this, handler
      ensures Now() == U.StoredUpload(old(Now()))
      ensures old(U.Inv(Now())) ==> U.Inv(Now()) && stored == []
      ensures U.Line(handler.Now()) == U.Line(old(handler.Now())) + old(stored)
      ensures old(handler.started) <= handler.started
    {
      ghost var before := Now();
      if U.Inv(before) {
        U.StoredUploadKeeps(before);
      }
      U.StoredJoinLine(before);
      U.NoneStored(before);
      while |stored| > 0
        invariant U.StoredUpload(Now()) == U.StoredUpload(old(Now()))
        decreases |stored|
      {
        filesInProgress := filesInProgress + 1;
        var id := stored[0];
        stored := stored[1..];
        handler.Upload(id);
      }
    }

    method UploadFile(accepted: bool)
      modifies this, handler
      ensures Now() == U.Submit(old(Now()), accepted)
      ensures old(U.Inv(Now())) ==> U.Inv(Now())
      ensures U.Line(handler.Now()) == U.Line(old(handler.Now())) + U.Arrivals(old(Now()), U.SubmitEvent(accepted))
    {
      ghost var before := Now();
      if U.Inv(before) {
        U.SubmitKeeps(before, accepted);
      }
      U.SubmitServed(before, accepted);
      var id := handler.AddFile();
      if !accepted {
        finished := finished + {id};
      } else if options.autoUpload {
        filesInProgress := filesInProgress + 1;
        handler.Upload(id);
      } else {
        stored := stored + [id];
      }
    }

    /**
     Cancelling keeps an orderly state orderly exactly for a queued file, for a stored one while the queue is empty,
     and for a file that is not there. A queued file leaves its place to those behind it.
     */
    method Cancel(id: nat)
      requires handler.max >= 1
      modifies this, handler
      ensures Now() == U.Cancel(old(Now()), id)
      ensures old(U.Inv(Now())) ==>
        (U.Inv(Now()) <==>
         old(!U.Present(Now(), id) || id in handler.queue || (id in stored && handler.queue == [])))
      ensures old(U.Inv(Now()) && id in handler.queue) ==>
        && U.Left(old(handler.Now()), id, handler.Now())
        && filesInProgress == old(filesInProgress) - 1 && id in finished && !U.Present(Now(), id)
    {
      ghost var before := Now();
      hide U.Inv, U.Left;
      if U.Inv(before) {
        U.CancelKeepsExactly(before, id);
      }
      if U.Inv(before) && id in handler.queue {
        U.CancelMeaning(before, id);
      }
      if id >= |handler.files| || !handler.files[id] {
        return;
      }
      timers := timers - {id};
      if options.autoUpload || id !in stored {
        filesInProgress := filesInProgress - 1;
      } else {
        stored := U.SpliceOne(stored, IndexOf(stored, id));
      }
      handler.files := handler.files[id := false];
      handler.xhrs, handler.inFlight := handler.xhrs - {id}, handler.inFlight - {id};
      handler.Dequeue(id);
      finished := finished + {id};
    }

    /**
     A response to a request in flight keeps an orderly state orderly. After a success, or a failure that is not
     repeated, the file is finished and the one that has waited longest gets its slot; otherwise it keeps the slot
     and waits for its timer.
     */
    method Response(id: nat, success: bool, prevent: bool)
      requires handler.max >= 1
      modifies this, handler
      ensures Now() == U.Respond(old(Now()), id, success, prevent)
      ensures old(U.Inv(Now()) && id in handler.inFlight) ==>
        && U.Inv(Now())
        && if U.Ends(old(Now()), id, success, prevent)
           then U.Left(old(handler.Now()), id, handler.Now()) && id in finished &&
                filesInProgress == old(filesInProgress) - 1
           else handler.queue == old(handler.queue) && handler.started == old(handler.started) && id in timers &&
                filesInProgress == old(filesInProgress)
    {
      hide U.Inv, U.Left;
      ghost var before := Now();
      if U.Inv(before) && id in handler.inFlight {
        U.ResponseMeaning(before, id, success, prevent);
      }
      handler.inFlight := handler.inFlight - {id};
      if !success {
        prevented := if prevent then prevented + {id} else prevented - {id};
        var retry := ShouldAutoRetry(id);
        if retry {
          timers := timers + {id};
          return;
        }
      }
      filesInProgress := filesInProgress - 1;
      handler.xhrs := handler.xhrs - {id};
      handler.Dequeue(id);
      finished := finished + {id};
    }

    method ShouldAutoRetry(id: nat) returns (retry: bool)
      modifies this`autoRetries
      ensures autoRetries == if id !in prevented && options.enableAuto
                             then old(autoRetries)[id := U.Attempts(old(Now()), id)] else old(autoRetries)
      ensures retry == U.ShouldRetry(Now(), id)
    {
      retry := false;
      if id !in prevented && options.enableAuto {
        if id !in autoRetries {
          autoRetries := autoRetries[id := 0];
        }
        retry := autoRetries[id] < options.maxAutoAttempts;
      }
    }

    /** An automatic retry is counted, and the file that had waited for it has its request again. */
    method AutoRetry(id: nat)
      modifies this, handler
      ensures Now() == U.TimerFires(old(Now()), id)
      ensures U.Attempts(Now(), id) == U.Attempts(old(Now()), id) + 1
      ensures old(U.Inv(Now()) && id in timers) ==>
        && U.Inv(Now()) && id in handler.inFlight
        && handler.queue == old(handler.queue) && handler.started == old(handler.started)
    {
      ghost var before := Now();
      if U.Inv(before) && id in timers {
        U.TimerKeeps(before, id);
        U.TimedIsQueued(before, id);
      }
      timers := timers - {id};
      autoRetries := autoRetries[id := (if id in autoRetries then autoRetries[id] else 0) + 1];
      handler.Retry(id);
    }

    /**
     A manual retry keeps an orderly state orderly exactly for a file that is neither queued nor stored; that file
     goes to the end of the queue again, and starts at once if a slot is free.
     */
    method ManualRetry(id: nat, agreed: bool) returns (retried: bool)
      modifies this, handler
      ensures Now() == U.ManualRetry(old(Now()), id, agreed)
      ensures retried <==> id !in old(prevented) && U.Present(old(Now()), id) && agreed
      ensures old(U.Inv(Now())) ==>
        (U.Inv(Now()) <==> !retried || (id !in old(handler.queue) && id !in old(stored)))
      ensures retried && id !in old(handler.queue) ==>
        && U.Joined(old(handler.Now()), id, handler.Now())
        && filesInProgress == old(filesInProgress) + 1 && id !in finished
    {
      ghost var before := Now();
      if U.Inv(before) {
        U.ManualRetryKeepsExactly(before, id, agreed);
      }
      if id in prevented || id >= |handler.files| || !handler.files[id] || !agreed {
        return false;
      }
      filesInProgress := filesInProgress + 1;
      finished := finished - {id};
      handler.Retry(id);
      retried := true;
    }
  }
}
