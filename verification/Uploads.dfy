/**
 The upload queue of FineUploader: the handler owns the queue and the requests, the uploader the
 counters, the stored files and the retries. Requests, responses and timers belong to the browser;
 their arrivals are events.
 */
module Uploads {
  import opened Sequences

  /** files[id] says whether the file is still there; cancelling a file clears it. */
  datatype Handler = Handler(
    max: nat,
    files: seq<bool>,
    queue: seq<nat>,
    xhrs: set<nat>,
    inFlight: set<nat>,
    started: seq<nat>)

  datatype Options = Options(autoUpload: bool, enableAuto: bool, maxAutoAttempts: nat)

  datatype Uploader = Uploader(
    handler: Handler,
    options: Options,
    filesInProgress: int,
    stored: seq<nat>,
    autoRetries: map<nat, nat>,
    prevented: set<nat>,
    timers: set<nat>,
    finished: set<nat>)

  function New(max: nat, options: Options): Uploader {
    Uploader(Handler(max, [], [], {}, {}, []), options, 0, [], map[], {}, {}, {})
  }

  // ---------------------------------------------------------------- the handler

  /** Sends the request; `first` tells a start from the repetition of one. */
  function Send(h: Handler, id: nat, first: bool): Handler {
    h.(xhrs := h.xhrs + {id}, inFlight := h.inFlight + {id}, started := if first then h.started + [id] else h.started)
  }

  function Upload(h: Handler, id: nat): Handler {
    var h' := h.(queue := h.queue + [id]);
    if |h'.queue| <= h.max then Send(h', id, true) else h'
  }

  function Retry(h: Handler, id: nat): Handler {
    if id in h.queue then Send(h, id, false) else Upload(h, id)
  }

  function IndexIn(queue: seq<nat>, id: nat): int {
    if id in queue then IndexOf(queue, id) else -1
  }

  /** Array.splice(i, 1), which for -1 takes the last element. */
  function SpliceOne(s: seq<nat>, i: int): seq<nat>
    requires -1 <= i < |s|
  {
    if i >= 0 then s[..i] + s[i + 1..] else if s == [] then [] else s[..|s| - 1]
  }

  function Dequeue(h: Handler, id: nat): Handler {
    var i := IndexIn(h.queue, id);
    var h' := h.(queue := SpliceOne(h.queue, i));
    if |h'.queue| >= h.max > 0 && i < h.max then Send(h', h'.queue[h.max - 1], true) else h'
  }

  // ---------------------------------------------------------------- the uploader

  function StoredUpload(u: Uploader): Uploader
    decreases |u.stored|
  {
    if u.stored == [] then u
    else StoredUpload(u.(filesInProgress := u.filesInProgress + 1,
                         handler := Upload(u.handler, u.stored[0]), stored := u.stored[1..]))
  }

  /** A file is chosen; `accepted` is the answer of the onSubmit callback. */
  function Submit(u: Uploader, accepted: bool): Uploader {
    var id := |u.handler.files|;
    var h := u.handler.(files := u.handler.files + [true]);
    if !accepted then u.(handler := h, finished := u.finished + {id})
    else if u.options.autoUpload then u.(handler := Upload(h, id), filesInProgress := u.filesInProgress + 1)
    else u.(handler := h, stored := u.stored + [id])
  }

  predicate Present(u: Uploader, id: nat) {
    id < |u.handler.files| && u.handler.files[id]
  }

  /** Cancelling a file that is not there throws before it changes anything. */
  function Cancel(u: Uploader, id: nat): Uploader {
    if !Present(u, id) then u
    else
      var u' := OnCancel(u, id);
      var h := u'.handler.(files := u.handler.files[id := false],
                           xhrs := u.handler.xhrs - {id}, inFlight := u.handler.inFlight - {id});
      u'.(handler := Dequeue(h, id), finished := u.finished + {id})
  }

  function OnCancel(u: Uploader, id: nat): Uploader {
    var u' := u.(timers := u.timers - {id});
    if u.options.autoUpload || id !in u.stored then u'.(filesInProgress := u.filesInProgress - 1)
    else u'.(stored := SpliceOne(u.stored, IndexOf(u.stored, id)))
  }

  function Attempts(u: Uploader, id: nat): nat {
    if id in u.autoRetries then u.autoRetries[id] else 0
  }

  /** Whether a failed upload is to be repeated; the counter of the file is made on the way. */
  predicate ShouldRetry(u: Uploader, id: nat) {
    id !in u.prevented && u.options.enableAuto && Attempts(u, id) < u.options.maxAutoAttempts
  }

  /** The response to a request in flight: a success, or a failure that may forbid retries. */
  function Respond(u: Uploader, id: nat, success: bool, prevent: bool): Uploader {
    var flown := u.(handler := u.handler.(inFlight := u.handler.inFlight - {id}));
    if success then Complete(flown, id)
    else
      var asked := flown.(prevented := if prevent then u.prevented + {id} else u.prevented - {id});
      var counted := if id !in asked.prevented && asked.options.enableAuto
                     then asked.(autoRetries := asked.autoRetries[id := Attempts(asked, id)]) else asked;
      if ShouldRetry(counted, id) then counted.(timers := counted.timers + {id}) else Complete(counted, id)
  }

  function Complete(u: Uploader, id: nat): Uploader {
    u.(filesInProgress := u.filesInProgress - 1,
       handler := Dequeue(u.handler.(xhrs := u.handler.xhrs - {id}), id),
       finished := u.finished + {id})
  }

  /** The delay of an automatic retry is over. */
  function TimerFires(u: Uploader, id: nat): Uploader {
    u.(timers := u.timers - {id},
       autoRetries := u.autoRetries[id := Attempts(u, id) + 1],
       handler := Retry(u.handler, id))
  }

  /** `agreed` is the answer of the onManualRetry callback; a cancelled file throws. */
  function ManualRetry(u: Uploader, id: nat, agreed: bool): Uploader {
    if id in u.prevented || !Present(u, id) || !agreed then u
    else u.(filesInProgress := u.filesInProgress + 1, handler := Retry(u.handler, id), finished := u.finished - {id})
  }

  function ClearStored(u: Uploader): Uploader {
    u.(stored := [], finished := u.finished + set id | id in u.stored)
  }

  datatype Event =
    | SubmitEvent(accepted: bool)
    | UploadStoredEvent
    | ClearStoredEvent
    | CancelEvent(id: nat)
    | ManualRetryEvent(id: nat, agreed: bool)
    | ResponseEvent(id: nat, success: bool, prevent: bool)
    | TimerEvent(id: nat)

  function Step(u: Uploader, e: Event): Uploader {
    match e
    case SubmitEvent(accepted) => Submit(u, accepted)
    case UploadStoredEvent => StoredUpload(u)
    case ClearStoredEvent => ClearStored(u)
    case CancelEvent(id) => Cancel(u, id)
    case ManualRetryEvent(id, agreed) => ManualRetry(u, id, agreed)
    case ResponseEvent(id, success, prevent) => Respond(u, id, success, prevent)
    case TimerEvent(id) => TimerFires(u, id)
  }

  // ---------------------------------------------------------------- what every step keeps

  function Min(a: nat, b: nat): nat {
    if a <= b then a else b
  }

  /** How many entries of the queue hold a slot. */
  function Slots(h: Handler): nat {
    Min(h.max, |h.queue|)
  }

  function Waiting(h: Handler): seq<nat> {
    h.queue[Slots(h)..]
  }

  /** The ids with a request are exactly the first entries of the queue, as many as there are slots. */
  ghost predicate SlotsRight(h: Handler) {
    forall id :: id in h.xhrs <==> id in h.queue[..Slots(h)]
  }

  /** The same but for id, which has lost its request. */
  ghost predicate SlotsBut(h: Handler, id: nat) {
    forall x :: x in h.xhrs <==> x in h.queue[..Slots(h)] && x != id
  }

  /** Every file is queued, stored or finished, and only one of them. */
  ghost predicate Accounted(u: Uploader) {
    && Distinct(u.handler.queue) && Distinct(u.stored)
    && (forall id :: id in u.handler.queue ==> id !in u.stored && id !in u.finished && Present(u, id))
    && (forall id :: id in u.stored ==> id !in u.finished && Present(u, id))
    && (forall id: nat :: id < |u.handler.files| <==> id in u.handler.queue || id in u.stored || id in u.finished)
  }

  /** A file with a slot has a request in flight or waits for its automatic retry. */
  ghost predicate RetriesRight(u: Uploader) {
    && (forall id :: id in u.handler.xhrs <==> id in u.handler.inFlight || id in u.timers)
    && u.handler.inFlight !! u.timers
    && (forall id :: id in u.timers ==> Attempts(u, id) < u.options.maxAutoAttempts)
    && (forall id :: id in u.autoRetries ==> u.autoRetries[id] <= u.options.maxAutoAttempts)
  }

  ghost predicate Inv(u: Uploader) {
    && u.handler.max >= 1
    && SlotsRight(u.handler)
    && Accounted(u)
    && u.filesInProgress == |u.handler.queue|
    && RetriesRight(u)
    && (u.options.autoUpload ==> u.stored == [])
  }

  // ---------------------------------------------------------------- the queue

  /** A list without its element at index i. */
  lemma TakenOut(s: seq<nat>, i: nat)
    requires Distinct(s) && i < |s|
    ensures var q := s[..i] + s[i + 1..];
      Distinct(q) && forall x :: x in q <==> x in s && x != s[i]
  {
    var q := s[..i] + s[i + 1..];
    assert forall k :: 0 <= k < |q| ==> q[k] == if k < i then s[k] else s[k + 1];
    forall x | x in s && x != s[i] ensures x in q {
      var k :| 0 <= k < |s| && s[k] == x;
      assert q[if k < i then k else k - 1] == x;
    }
  }

  /** The id that moves into a slot when id leaves the queue, if there is one. */
  function Promoted(h: Handler, id: nat): Option<nat>
    requires id in h.queue
  {
    if |h.queue| > h.max && IndexOf(h.queue, id) < h.max then Some(h.queue[h.max]) else None
  }

  /**
   Taking a queued id out: the ids behind it move up in order; the one that moves into a slot is sent,
   and it is the one that has waited longest.
   */
  lemma DequeueMeaning(h: Handler, id: nat)
    requires h.max >= 1 && Distinct(h.queue) && id in h.queue
    ensures var r, i := Dequeue(h, id), IndexOf(h.queue, id);
      && r.queue == h.queue[..i] + h.queue[i + 1..] && Distinct(r.queue)
      && (forall x :: x in r.queue <==> x in h.queue && x != id)
      && r == (match Promoted(h, id)
               case Some(y) => Send(h.(queue := r.queue), y, true)
               case None => h.(queue := r.queue))
  {
    TakenOut(h.queue, IndexOf(h.queue, id));
  }

  /** Which ids have slots after id has left. */
  lemma SlotsAfter(h: Handler, id: nat)
    requires h.max >= 1 && Distinct(h.queue) && id in h.queue
    ensures var r := Dequeue(h, id);
      forall x :: x in r.queue[..Slots(r)] <==>
        (x in h.queue[..Slots(h)] && x != id) || Promoted(h, id) == Some(x)
  {
    var r, i, n := Dequeue(h, id), IndexOf(h.queue, id), Slots(h);
    DequeueMeaning(h, id);
    var head := h.queue[..n];
    if i < n {
      TakenOut(head, i);
      if |h.queue| > h.max {
        assert r.queue[..Slots(r)] == (head[..i] + head[i + 1..]) + [h.queue[n]];
      } else {
        assert r.queue[..Slots(r)] == head[..i] + head[i + 1..];
      }
    } else {
      assert r.queue[..Slots(r)] == head;
      assert id !in head;
    }
  }

  lemma DequeueKeepsSlots(h: Handler, id: nat)
    requires h.max >= 1 && Distinct(h.queue) && id in h.queue
    requires SlotsBut(h, id)
    ensures SlotsRight(Dequeue(h, id))
  {
    DequeueMeaning(h, id);
    SlotsAfter(h, id);
  }

  /** The file that gets a slot when id leaves the queue. */
  ghost function Next(h: Handler, id: nat): seq<nat> {
    if id in h.queue[..Slots(h)] && |h.queue| > h.max then [h.queue[h.max]] else []
  }

  /** id is out of the queue; the others keep their order, and only the next file starts. */
  ghost predicate Left(h: Handler, id: nat, r: Handler) {
    && id !in r.queue && r.queue == Dropped(h.queue, id)
    && r.started == h.started + Next(h, id)
  }

  /** id is at the end of the queue, and has started if a slot was free. */
  ghost predicate Joined(h: Handler, id: nat, r: Handler) {
    r.queue == h.queue + [id] && r.started == h.started + if |h.queue| < h.max then [id] else []
  }

  /** The list without the first occurrence of id. */
  function Dropped(s: seq<nat>, id: nat): seq<nat> {
    if id in s then s[..IndexOf(s, id)] + s[IndexOf(s, id) + 1..] else s
  }

  lemma LeavesQueue(h: Handler, id: nat)
    requires h.max >= 1 && Distinct(h.queue) && id in h.queue
    ensures Distinct(Dequeue(h, id).queue) && Left(h, id, Dequeue(h, id))
    ensures SlotsBut(h, id) ==> SlotsRight(Dequeue(h, id))
  {
    DequeueMeaning(h, id);
    if SlotsBut(h, id) {
      DequeueKeepsSlots(h, id);
    }
    var i := IndexOf(h.queue, id);
    if i < Slots(h) {
      assert h.queue[..Slots(h)][i] == id;
    }
  }

  lemma UploadKeepsSlots(h: Handler, id: nat)
    requires SlotsRight(h) && id !in h.queue && Distinct(h.queue)
    ensures SlotsRight(Upload(h, id)) && Distinct(Upload(h, id).queue)
    ensures Upload(h, id).queue == h.queue + [id]
  {
    var r := Upload(h, id);
    if |h.queue| < h.max {
      assert r.queue[..Slots(r)] == h.queue[..Slots(h)] + [id];
    } else {
      assert r.queue[..Slots(r)] == h.queue[..Slots(h)];
    }
  }

  // ---------------------------------------------------------------- steps

  /** A new or finished file goes to the end of the queue. */
  lemma EnqueueKeeps(u: Uploader, id: nat)
    requires Inv(u) && Present(u, id) && id in u.finished
    ensures Inv(u.(filesInProgress := u.filesInProgress + 1, handler := Upload(u.handler, id),
                   finished := u.finished - {id}))
  {
    UploadKeepsSlots(u.handler, id);
    assert id !in u.handler.queue[..Slots(u.handler)];
  }

  lemma SubmitKeeps(u: Uploader, accepted: bool)
    requires Inv(u)
    ensures Inv(Submit(u, accepted))
  {
    var id := |u.handler.files|;
    assert id !in u.handler.queue && id !in u.stored && id !in u.finished;
    var rejected := Submit(u, false);
    assert Inv(rejected);
    if accepted && u.options.autoUpload {
      EnqueueKeeps(rejected, id);
      assert rejected.finished - {id} == u.finished;
    }
  }

  lemma {:induction false} StoredUploadKeeps(u: Uploader)
    requires Inv(u)
    ensures Inv(StoredUpload(u))
    decreases |u.stored|
  {
    if u.stored != [] {
      var id := u.stored[0];
      assert u.stored == [id] + u.stored[1..];
      var unstored := u.(stored := u.stored[1..], finished := u.finished + {id});
      assert Inv(unstored);
      EnqueueKeeps(unstored, id);
      assert unstored.finished - {id} == u.finished;
      StoredUploadKeeps(u.(filesInProgress := u.filesInProgress + 1,
                           handler := Upload(u.handler, u.stored[0]), stored := u.stored[1..]));
    }
  }

  lemma {:induction false} NoneStored(u: Uploader)
    ensures StoredUpload(u).stored == []
    decreases |u.stored|
  {
    if u.stored != [] {
      NoneStored(u.(filesInProgress := u.filesInProgress + 1,
                    handler := Upload(u.handler, u.stored[0]), stored := u.stored[1..]));
    }
  }

  /** A queued file leaves the queue for good, whether done or cancelled. */
  lemma LeaveKeeps(u: Uploader, id: nat, files: seq<bool>)
    requires Inv(u) && id in u.handler.queue && |files| == |u.handler.files|
    requires forall x :: 0 <= x < |files| && x != id ==> files[x] == u.handler.files[x]
    ensures Inv(u.(filesInProgress := u.filesInProgress - 1, timers := u.timers - {id}, finished := u.finished + {id},
                   handler := Dequeue(u.handler.(files := files, xhrs := u.handler.xhrs - {id},
                                                 inFlight := u.handler.inFlight - {id}), id)))
  {
    var h := u.handler.(files := files, xhrs := u.handler.xhrs - {id}, inFlight := u.handler.inFlight - {id});
    DequeueMeaning(h, id);
    DequeueKeepsSlots(h, id);
    LeaveRetries(u, h, id);
    hide SlotsRight, RetriesRight, Promoted, Dequeue;
    DequeueElsewhere(h, id);
  }

  /** Leaving the queue changes nothing but the queue and the requests. */
  lemma DequeueElsewhere(h: Handler, id: nat)
    requires h.max >= 1 && Distinct(h.queue) && id in h.queue
    ensures Dequeue(h, id).max == h.max && Dequeue(h, id).files == h.files
    ensures |Dequeue(h, id).queue| == |h.queue| - 1
  {
  }

  lemma LeaveRetries(u: Uploader, h: Handler, id: nat)
    requires Inv(u) && id in u.handler.queue
    requires h == u.handler.(files := h.files, xhrs := u.handler.xhrs - {id}, inFlight := u.handler.inFlight - {id})
    ensures RetriesRight(u.(filesInProgress := u.filesInProgress - 1, timers := u.timers - {id},
                            finished := u.finished + {id}, handler := Dequeue(h, id)))
  {
    AccountedQueue(u);
    hide Accounted;
    DequeueMeaning(h, id);
    if Promoted(h, id).Some? {
      var y := Promoted(h, id).value;
      assert y !in h.queue[..Slots(h)];
    }
  }

  lemma AccountedQueue(u: Uploader)
    requires Accounted(u)
    ensures Distinct(u.handler.queue)
  {
  }

  lemma CompleteKeeps(u: Uploader, flown: Uploader, id: nat)
    requires Inv(u) && id in u.handler.inFlight
    requires flown == u.(handler := u.handler.(inFlight := u.handler.inFlight - {id}), prevented := flown.prevented,
                         autoRetries := flown.autoRetries)
    requires forall x :: x in flown.autoRetries ==> flown.autoRetries[x] <= u.options.maxAutoAttempts
    requires forall x :: x != id ==> Attempts(flown, x) == Attempts(u, x)
    ensures Inv(Complete(flown, id))
  {
    assert id in u.handler.xhrs && id in u.handler.queue[..Slots(u.handler)];
    var v := u.(prevented := flown.prevented, autoRetries := flown.autoRetries);
    assert Inv(v);
    LeaveKeeps(v, id, u.handler.files);
    assert v.timers - {id} == v.timers;
  }

  lemma RespondKeeps(u: Uploader, id: nat, success: bool, prevent: bool)
    requires Inv(u) && id in u.handler.inFlight
    ensures Inv(Respond(u, id, success, prevent))
  {
    var flown := u.(handler := u.handler.(inFlight := u.handler.inFlight - {id}));
    if success {
      CompleteKeeps(u, flown, id);
    } else {
      var asked := flown.(prevented := if prevent then u.prevented + {id} else u.prevented - {id});
      var counted := if id !in asked.prevented && asked.options.enableAuto
                     then asked.(autoRetries := asked.autoRetries[id := Attempts(asked, id)]) else asked;
      if !ShouldRetry(counted, id) {
        CompleteKeeps(u, counted, id);
      }
    }
  }

  lemma TimerKeeps(u: Uploader, id: nat)
    requires Inv(u) && id in u.timers
    ensures Inv(TimerFires(u, id))
  {
    assert id in u.handler.xhrs && id in u.handler.queue[..Slots(u.handler)];
  }

  /** A request in flight is that of a queued file with a slot. */
  lemma InFlightIsQueued(u: Uploader, id: nat)
    requires Inv(u) && id in u.handler.inFlight
    ensures id in u.handler.queue && id in u.handler.queue[..Slots(u.handler)]
  {
    assert id in u.handler.xhrs;
  }

  lemma TimedIsQueued(u: Uploader, id: nat)
    requires Inv(u) && id in u.timers
    ensures id in u.handler.queue && id in u.handler.queue[..Slots(u.handler)]
  {
    assert id in u.handler.xhrs;
  }

  /**
   Cancelling keeps everything in order exactly for a queued file, or a stored one while the queue is
   empty (or a file already gone, which throws): in every other case the last queued upload is dropped
   or the counter goes wrong, because the index -1 of a file that is not queued is spliced.
   */
  lemma CancelKeepsExactly(u: Uploader, id: nat)
    requires Inv(u)
    ensures Inv(Cancel(u, id)) <==>
      !Present(u, id) || id in u.handler.queue || (id in u.stored && u.handler.queue == [])
  {
    if Present(u, id) {
      if id in u.handler.queue {
        LeaveKeeps(u, id, u.handler.files[id := false]);
      } else if id in u.stored {
        if u.handler.queue == [] {
          TakenOut(u.stored, IndexOf(u.stored, id));
        }
      } else if u.handler.queue != [] {
        LastIsLost(u, id);
      }
    }
  }

  lemma LastIsLost(u: Uploader, id: nat)
    requires Inv(u) && Present(u, id) && id !in u.handler.queue && u.handler.queue != []
    ensures var last, r := u.handler.queue[|u.handler.queue| - 1], Cancel(u, id);
      last !in r.handler.queue && last !in r.stored && last !in r.finished && last < |r.handler.files|
  {
    var q := u.handler.queue;
    var last := q[|q| - 1];
    assert last in q && last !in q[..|q| - 1];
    if id in u.stored {
      TakenOut(u.stored, IndexOf(u.stored, id));
    }
  }

  /** What a queued file leaves when it is cancelled. */
  lemma CancelMeaning(u: Uploader, id: nat)
    requires Inv(u) && id in u.handler.queue
    ensures var r := Cancel(u, id);
      && Left(u.handler, id, r.handler) && !Present(r, id)
      && r.filesInProgress == u.filesInProgress - 1 && id in r.finished
  {
    hide Left;
    var h := u.handler.(files := u.handler.files[id := false],
                        xhrs := u.handler.xhrs - {id}, inFlight := u.handler.inFlight - {id});
    LeavesQueue(h, id);
    LeftAlike(h, u.handler, id, Dequeue(h, id));
  }

  /** Only the queue and the order of starts matter. */
  lemma LeftAlike(h: Handler, h': Handler, id: nat, r: Handler)
    requires h'.queue == h.queue && h'.started == h.started && h'.max == h.max && Left(h, id, r)
    ensures Left(h', id, r)
  {
  }

  /** Whether a failed upload is left alone, or the response was a success. */
  predicate Ends(u: Uploader, id: nat, success: bool, prevent: bool) {
    success || prevent || !u.options.enableAuto || Attempts(u, id) >= u.options.maxAutoAttempts
  }

  /** A response ends the upload, or the file keeps its slot and waits for its timer. */
  lemma ResponseMeaning(u: Uploader, id: nat, success: bool, prevent: bool)
    requires Inv(u) && id in u.handler.inFlight
    ensures var r := Respond(u, id, success, prevent);
      && Inv(r)
      && if Ends(u, id, success, prevent)
         then Left(u.handler, id, r.handler) && id in r.finished && r.filesInProgress == u.filesInProgress - 1
         else r.handler.queue == u.handler.queue && r.handler.started == u.handler.started && id in r.timers &&
              r.filesInProgress == u.filesInProgress
  {
    hide Left, Dequeue;
    RespondKeeps(u, id, success, prevent);
    InFlightIsQueued(u, id);
    var h := u.handler.(inFlight := u.handler.inFlight - {id}, xhrs := u.handler.xhrs - {id});
    InvParts(u);
    hide Inv;
    LeavesQueue(h, id);
    LeftAlike(h, u.handler, id, Dequeue(h, id));
  }

  lemma InvParts(u: Uploader)
    requires Inv(u)
    ensures u.handler.max >= 1 && Distinct(u.handler.queue)
  {
  }

  /** A manual retry keeps everything in order exactly for a file that is neither queued nor stored. */
  lemma ManualRetryKeepsExactly(u: Uploader, id: nat, agreed: bool)
    requires Inv(u)
    ensures Inv(ManualRetry(u, id, agreed)) <==>
      id in u.prevented || !Present(u, id) || !agreed || (id !in u.handler.queue && id !in u.stored)
  {
    if id !in u.prevented && Present(u, id) && agreed {
      if id in u.stored {
        var q := Upload(u.handler, id).queue;
        assert id !in u.handler.queue && q[|q| - 1] == id;
      } else if id !in u.handler.queue {
        EnqueueKeeps(u, id);
      }
    }
  }

  // ---------------------------------------------------------------- runs

  /** Responses come to requests in flight, timers to timers that are set, and callers stay within the contract. */
  ghost predicate Lawful(u: Uploader, e: Event) {
    match e
    case ResponseEvent(id, _, _) => id in u.handler.inFlight
    case TimerEvent(id) => id in u.timers
    case CancelEvent(id) => !Present(u, id) || id in u.handler.queue || (id in u.stored && u.handler.queue == [])
    case ManualRetryEvent(id, agreed) =>
      id in u.prevented || !Present(u, id) || !agreed || (id !in u.handler.queue && id !in u.stored)
    case _ => true
  }

  ghost predicate LawfulRun(u: Uploader, events: seq<Event>)
    decreases |events|
  {
    events == [] || (Lawful(u, events[0]) && LawfulRun(Step(u, events[0]), events[1..]))
  }

  function Run(u: Uploader, events: seq<Event>): Uploader
    decreases |events|
  {
    if events == [] then u else Run(Step(u, events[0]), events[1..])
  }

  lemma StepKeeps(u: Uploader, e: Event)
    requires Inv(u) && Lawful(u, e)
    ensures Inv(Step(u, e))
  {
    hide Inv;
    match e
    case SubmitEvent(accepted) => SubmitKeeps(u, accepted);
    case UploadStoredEvent => StoredUploadKeeps(u);
    case ClearStoredEvent => ClearKeeps(u);
    case CancelEvent(id) => CancelKeepsExactly(u, id);
    case ManualRetryEvent(id, agreed) => ManualRetryKeepsExactly(u, id, agreed);
    case ResponseEvent(id, success, prevent) => RespondKeeps(u, id, success, prevent);
    case TimerEvent(id) => TimerKeeps(u, id);
  }

  lemma ClearKeeps(u: Uploader)
    requires Inv(u)
    ensures Inv(ClearStored(u))
  {
  }

  lemma {:induction false} RunKeeps(u: Uploader, events: seq<Event>)
    requires Inv(u) && LawfulRun(u, events)
    ensures Inv(Run(u, events))
    decreases |events|
  {
    if events != [] {
      StepKeeps(u, events[0]);
      RunKeeps(Step(u, events[0]), events[1..]);
    }
  }

  /** How many automatic retries of the file a history has. */
  function Retried(events: seq<Event>, id: nat): nat {
    if events == [] then 0 else (if events[0] == TimerEvent(id) then 1 else 0) + Retried(events[1..], id)
  }

  lemma StoredUploadAttempts(u: Uploader, id: nat)
    ensures Attempts(StoredUpload(u), id) == Attempts(u, id)
    decreases |u.stored|
  {
    if u.stored != [] {
      StoredUploadAttempts(u.(filesInProgress := u.filesInProgress + 1,
                              handler := Upload(u.handler, u.stored[0]), stored := u.stored[1..]), id);
    }
  }

  lemma StepCounts(u: Uploader, e: Event, id: nat)
    ensures Attempts(Step(u, e), id) == Attempts(u, id) + Retried([e], id)
  {
    assert [e][1..] == [];
    hide Upload, Dequeue, Retry;
    StoredUploadAttempts(u, id);
  }

  /** The counter of a file says how often it has been retried automatically. */
  lemma {:induction false} RunCounts(u: Uploader, events: seq<Event>, id: nat)
    ensures Attempts(Run(u, events), id) == Attempts(u, id) + Retried(events, id)
    decreases |events|
  {
    hide Step, Attempts;
    if events != [] {
      StepCounts(u, events[0], id);
      assert [events[0]][1..] == [];
      RunCounts(Step(u, events[0]), events[1..], id);
    }
  }

  /**
   In every state that a lawful run reaches: the files with a request are the first min(max, length) of
   the queue, so the limit is never exceeded and no slot is idle while a file waits; the counter is the
   queue's length; every file is queued, stored or finished; and in the whole history no file has been retried
   automatically more often than allowed, nor is one about to be.
   */
  lemma UploadsStayInOrder(max: nat, options: Options, events: seq<Event>)
    requires max >= 1 && LawfulRun(New(max, options), events)
    ensures var u := Run(New(max, options), events);
      && (forall id :: id in u.handler.xhrs <==> id in u.handler.queue[..Min(max, |u.handler.queue|)])
      && u.filesInProgress == |u.handler.queue|
      && Accounted(u)
      && (forall id :: Retried(events, id) <= options.maxAutoAttempts)
      && (forall id :: id in u.timers ==> Retried(events, id) < options.maxAutoAttempts)
  {
    RunKeeps(New(max, options), events);
    ConfigurationStays(New(max, options), events);
    forall id: nat ensures Attempts(Run(New(max, options), events), id) == Retried(events, id) {
      RunCounts(New(max, options), events, id);
    }
  }

  /** The files that are stored after a history: those accepted since the last upload or clearing, but the cancelled. */
  function StoredBy(options: Options, kept: seq<nat>, files: nat, events: seq<Event>): seq<nat>
    decreases |events|
  {
    if events == [] then kept
    else
      match events[0]
      case SubmitEvent(accepted) =>
        StoredBy(options, if accepted && !options.autoUpload then kept + [files] else kept, files + 1, events[1..])
      case CancelEvent(id) => StoredBy(options, Dropped(kept, id), files, events[1..])
      case UploadStoredEvent => StoredBy(options, [], files, events[1..])
      case ClearStoredEvent => StoredBy(options, [], files, events[1..])
      case _ => StoredBy(options, kept, files, events[1..])
  }

  ghost predicate Increasing(s: seq<nat>) {
    forall i, j :: 0 <= i < j < |s| ==> s[i] < s[j]
  }

  lemma {:induction false} ConfigurationStays(u: Uploader, events: seq<Event>)
    ensures var r := Run(u, events); r.handler.max == u.handler.max && r.options == u.options
    decreases |events|
  {
    if events != [] {
      match events[0] {
        case UploadStoredEvent => StoredUploadConfiguration(u);
        case _ =>
      }
      ConfigurationStays(Step(u, events[0]), events[1..]);
    }
  }

  lemma {:induction false} StoredUploadConfiguration(u: Uploader)
    ensures var r := StoredUpload(u); r.handler.max == u.handler.max && r.options == u.options
    decreases |u.stored|
  {
    if u.stored != [] {
      StoredUploadConfiguration(u.(filesInProgress := u.filesInProgress + 1,
                                   handler := Upload(u.handler, u.stored[0]), stored := u.stored[1..]));
    }
  }

  lemma StoredUploadFiles(u: Uploader)
    ensures StoredUpload(u).handler.files == u.handler.files
    decreases |u.stored|
  {
    if u.stored != [] {
      StoredUploadFiles(u.(filesInProgress := u.filesInProgress + 1,
                           handler := Upload(u.handler, u.stored[0]), stored := u.stored[1..]));
    }
  }

  lemma NoneIncreasing()
    ensures Increasing([])
  {
  }

  lemma DroppedIncreasing(s: seq<nat>, id: nat)
    requires Increasing(s)
    ensures Increasing(Dropped(s, id))
  {
    hide IndexOf;
    if id in s {
      WithoutIncreasing(s, IndexOf(s, id));
    }
  }

  lemma WithoutIncreasing(s: seq<nat>, i: nat)
    requires Increasing(s) && i < |s|
    ensures Increasing(s[..i] + s[i + 1..])
  {
    var q := s[..i] + s[i + 1..];
    forall j, k | 0 <= j < k < |q| ensures q[j] < q[k] {
      assert q[j] == s[if j < i then j else j + 1] && q[k] == s[if k < i then k else k + 1];
    }
  }

  lemma AppendIncreasing(s: seq<nat>, id: nat)
    requires Increasing(s) && forall x :: x in s ==> x < id
    ensures Increasing(s + [id])
  {
    assert forall i :: 0 <= i < |s| ==> s[i] in s;
  }

  lemma FileCount(u: Uploader, e: Event)
    ensures |Step(u, e).handler.files| == |u.handler.files| + if e.SubmitEvent? then 1 else 0
  {
    StoredUploadFiles(u);
  }

  lemma StepStores(u: Uploader, e: Event)
    requires Inv(u) && Lawful(u, e) && Increasing(u.stored)
    ensures var r := Step(u, e);
      && r.stored == StoredBy(u.options, u.stored, |u.handler.files|, [e]) && Increasing(r.stored)
      && |r.handler.files| == |u.handler.files| + if e.SubmitEvent? then 1 else 0
  {
    hide Upload, Dequeue, Retry, SlotsRight, RetriesRight, Increasing, Dropped, Distinct;
    assert [e][1..] == [];
    NoneIncreasing();
    FileCount(u, e);
    match e
    case SubmitEvent(_) => AppendIncreasing(u.stored, |u.handler.files|);
    case CancelEvent(id) => CancelStores(u, id);
    case UploadStoredEvent => NoneStored(u);
    case _ =>
  }

  lemma CancelStores(u: Uploader, id: nat)
    requires Accounted(u) && (u.options.autoUpload ==> u.stored == []) && Increasing(u.stored)
    ensures var r := Cancel(u, id);
      r.stored == Dropped(u.stored, id) && Increasing(r.stored)
  {
    hide Dequeue, Increasing, IndexOf, Distinct;
    DroppedIncreasing(u.stored, id);
  }

  lemma {:induction false} RunStores(u: Uploader, events: seq<Event>)
    requires Inv(u) && LawfulRun(u, events) && Increasing(u.stored)
    ensures Run(u, events).stored == StoredBy(u.options, u.stored, |u.handler.files|, events)
    ensures Increasing(Run(u, events).stored)
    decreases |events|
  {
    hide Step, Inv, Increasing, Lawful;
    if events != [] {
      var r := Step(u, events[0]);
      StepStores(u, events[0]);
      StepKeeps(u, events[0]);
      assert [events[0]][1..] == [];
      assert Run(u, [events[0]]) == r by { assert Run(r, []) == r; }
      ConfigurationStays(u, [events[0]]);
      RunStores(r, events[1..]);
    }
  }

  /**
   After any lawful history the stored files are those accepted since the last upload or clearing, without the
   cancelled ones, in the order in which they were submitted; uploading them puts them into the line in that order.
   */
  lemma StoredInOrder(max: nat, options: Options, events: seq<Event>)
    requires max >= 1 && LawfulRun(New(max, options), events)
    ensures var u := Run(New(max, options), events);
      var kept := StoredBy(options, [], 0, events);
      && u.stored == kept && Increasing(kept)
      && Line(StoredUpload(u).handler) == Line(u.handler) + kept
  {
    RunStores(New(max, options), events);
    StoredJoinLine(Run(New(max, options), events));
  }

  /** Cancelling a stored file while others upload drops the last of them: it is in no list any more. */
  lemma CancelStoredLosesAnUpload()
    ensures var u := Run(New(3, Options(false, false, 0)),
                         [SubmitEvent(true), UploadStoredEvent, SubmitEvent(true), CancelEvent(1)]);
      u.filesInProgress == 1 && u.handler.queue == [] && 0 !in u.finished
  {
    var u0 := New(3, Options(false, false, 0));
    var u1 := Submit(u0, true);
    assert u1.stored == [0] && u1.stored[1..] == [];
    var next := u1.(filesInProgress := u1.filesInProgress + 1, handler := Upload(u1.handler, 0), stored := []);
    var u2 := StoredUpload(u1);
    assert u2 == StoredUpload(next) == next;
    assert u2.handler.queue == [0] && u2.stored == [] && u2.filesInProgress == 1;
    var u3 := Submit(u2, true);
    assert u3.stored == [1];
    var u4 := Cancel(u3, 1);
    assert u4.handler.queue == [] && u4.filesInProgress == 1;
    var events := [SubmitEvent(true), UploadStoredEvent, SubmitEvent(true), CancelEvent(1)];
    assert events[1..] == [UploadStoredEvent, SubmitEvent(true), CancelEvent(1)];
    assert events[1..][1..] == [SubmitEvent(true), CancelEvent(1)];
    assert events[1..][1..][1..] == [CancelEvent(1)];
    assert events[1..][1..][1..][1..] == [];
    assert Run(u4, []) == u4;
    assert Run(u3, [CancelEvent(1)]) == Run(u4, [CancelEvent(1)][1..]);
    assert Run(u2, [SubmitEvent(true), CancelEvent(1)]) == Run(u3, [CancelEvent(1)]);
  }

  /** A manual retry of a stored file uploads it twice. */
  lemma ManualRetryStoredUploadsTwice()
    ensures var u := Run(New(3, Options(false, false, 0)), [SubmitEvent(true), ManualRetryEvent(0, true)]);
      && !Inv(u) && u.handler.queue == [0] && u.stored == [0]
      && StoredUpload(u).handler.started == [0, 0]
  {
    var u0 := New(3, Options(false, false, 0));
    var u1 := Submit(u0, true);
    assert u1.stored == [0] && u1.handler.queue == [];
    var u2 := ManualRetry(u1, 0, true);
    assert u2.handler.queue == [0] && u2.handler.started == [0] && u2.stored == [0] && u2.stored[1..] == [];
    assert 0 in u2.handler.queue && 0 in u2.stored;
    var last := u2.(filesInProgress := u2.filesInProgress + 1, handler := Upload(u2.handler, 0), stored := []);
    assert StoredUpload(u2) == StoredUpload(last) == last;
    var events := [SubmitEvent(true), ManualRetryEvent(0, true)];
    assert events[1..] == [ManualRetryEvent(0, true)] && events[1..][1..] == [];
    assert Run(u1, events[1..]) == Run(u2, []) == u2;
  }

  // ---------------------------------------------------------------- first come, first served

  /** The files that got a slot, in that order, and behind them those that still wait. */
  function Line(h: Handler): seq<nat> {
    h.started + Waiting(h)
  }

  /** The files that join the line. */
  function Arrivals(u: Uploader, e: Event): seq<nat> {
    match e
    case SubmitEvent(accepted) => if accepted && u.options.autoUpload then [|u.handler.files|] else []
    case UploadStoredEvent => u.stored
    case ManualRetryEvent(id, agreed) => if id !in u.prevented && Present(u, id) && agreed then [id] else []
    case _ => []
  }

  lemma UploadJoinsLine(h: Handler, id: nat)
    ensures Line(Upload(h, id)) == Line(h) + [id] && h.started <= Upload(h, id).started
  {
    if |h.queue| < h.max {
      assert Waiting(h) == [] && Waiting(Upload(h, id)) == [];
    } else {
      assert Waiting(Upload(h, id)) == Waiting(h) + [id];
    }
  }

  lemma {:induction false} StoredJoinLine(u: Uploader)
    ensures Line(StoredUpload(u).handler) == Line(u.handler) + u.stored
    ensures u.handler.started <= StoredUpload(u).handler.started
    decreases |u.stored|
  {
    if u.stored == [] {
      assert Line(u.handler) + [] == Line(u.handler);
    } else {
      var u' := u.(filesInProgress := u.filesInProgress + 1,
                   handler := Upload(u.handler, u.stored[0]), stored := u.stored[1..]);
      UploadJoinsLine(u.handler, u.stored[0]);
      StoredJoinLine(u');
      assert u.stored == [u.stored[0]] + u.stored[1..];
    }
  }

  /** A file that leaves a slot lets the head of the line in; one that leaves the line changes nothing else in it. */
  lemma LeaveLine(h: Handler, id: nat)
    requires h.max >= 1 && Distinct(h.queue) && id in h.queue
    ensures var r := Dequeue(h, id);
      Line(r) == h.started + Dropped(Waiting(h), id) && h.started <= r.started
  {
    hide Dequeue, Upload, IndexOf, Waiting;
    DequeueMeaning(h, id);
    var r, i, n := Dequeue(h, id), IndexOf(h.queue, id), Slots(h);
    if i < n {
      NotWaiting(h, i);
      LeaveSlot(h, i, r);
      var next := if |h.queue| > h.max then [h.queue[h.max]] else [];
      assert Line(r) == (h.started + next) + Waiting(r) == h.started + (next + Waiting(r));
    } else {
      LeaveWaiting(h, i, r);
    }
  }

  lemma NotWaiting(h: Handler, i: nat)
    requires Distinct(h.queue) && i < Slots(h)
    ensures h.queue[i] !in Waiting(h)
  {
  }

  lemma LeaveSlot(h: Handler, i: nat, r: Handler)
    requires h.max >= 1 && i < Slots(h) && r.max == h.max && r.queue == h.queue[..i] + h.queue[i + 1..]
    ensures Waiting(h) == (if |h.queue| > h.max then [h.queue[h.max]] else []) + Waiting(r)
  {
    if |h.queue| > h.max {
      assert Waiting(h) == [h.queue[h.max]] + h.queue[h.max + 1..];
      assert Waiting(r) == h.queue[h.max + 1..];
    }
  }

  lemma LeaveWaiting(h: Handler, i: nat, r: Handler)
    requires h.max >= 1 && Distinct(h.queue) && Slots(h) <= i < |h.queue| && r.max == h.max
    requires r.queue == h.queue[..i] + h.queue[i + 1..]
    ensures Waiting(r) == Dropped(Waiting(h), h.queue[i])
  {
    hide IndexOf;
    var w, k := Waiting(h), i - Slots(h);
    assert w[k] == h.queue[i];
    IndexUnique(w, k);
    assert (h.queue[..i] + h.queue[i + 1..])[Slots(h)..] == w[..k] + w[k + 1..];
  }

  lemma IndexUnique(s: seq<nat>, i: nat)
    requires Distinct(s) && i < |s|
    ensures IndexOf(s, s[i]) == i
  {
  }

  /**
   Waiting files are served in the order in which they came: a step starts only files at the head of
   the line, adds arrivals at its end, and takes out of it only a cancelled file.
   */
  lemma FirstComeFirstServed(u: Uploader, e: Event)
    requires Inv(u) && Lawful(u, e)
    ensures var r := Step(u, e);
      && u.handler.started <= r.handler.started
      && Line(r.handler) == u.handler.started
                            + (if e.CancelEvent? && Present(u, e.id) then Dropped(Waiting(u.handler), e.id)
                               else Waiting(u.handler))
                            + Arrivals(u, e)
  {
    hide Line, Waiting, Dropped, Upload, Respond, Cancel, Inv;
    LineParts(u.handler);
    match e
    case SubmitEvent(accepted) => SubmitServed(u, accepted);
    case UploadStoredEvent => StoredJoinLine(u);
    case ClearStoredEvent => ClearServed(u);
    case CancelEvent(id) => CancelServed(u, id);
    case ManualRetryEvent(id, agreed) => RetryServed(u, id, agreed);
    case ResponseEvent(id, success, prevent) => ResponseServed(u, id, success, prevent);
    case TimerEvent(id) => TimerServed(u, id);
  }

  /** The files that join the line during a run. */
  function AllArrivals(u: Uploader, events: seq<Event>): seq<nat>
    decreases |events|
  {
    if events == [] then [] else Arrivals(u, events[0]) + AllArrivals(Step(u, events[0]), events[1..])
  }

  /** The file that an event takes out of the line before it has started. */
  function GivesUp(u: Uploader, e: Event): seq<nat> {
    if e.CancelEvent? && Present(u, e.id) && e.id in Waiting(u.handler) then [e.id] else []
  }

  function AllGivenUp(u: Uploader, events: seq<Event>): seq<nat>
    decreases |events|
  {
    if events == [] then [] else GivesUp(u, events[0]) + AllGivenUp(Step(u, events[0]), events[1..])
  }

  /** a is what remains of b when some of it is taken out. */
  ghost predicate Remains(a: seq<nat>, b: seq<nat>) {
    a == [] || (b != [] && ((a[0] == b[0] && Remains(a[1..], b[1..])) || Remains(a, b[1..])))
  }

  lemma {:induction false} RemainsSelf(a: seq<nat>)
    ensures Remains(a, a)
  {
    if a != [] { RemainsSelf(a[1..]); }
  }

  lemma {:induction false} RemainsTwice(a: seq<nat>, b: seq<nat>, c: seq<nat>)
    requires Remains(a, b) && Remains(b, c)
    ensures Remains(a, c)
    decreases |c|
  {
    if a != [] {
      if b[0] == c[0] && Remains(b[1..], c[1..]) {
        if a[0] == b[0] && Remains(a[1..], b[1..]) {
          RemainsTwice(a[1..], b[1..], c[1..]);
        } else {
          RemainsTwice(a, b[1..], c[1..]);
        }
      } else {
        RemainsTwice(a, b, c[1..]);
      }
    }
  }

  lemma {:induction false} RemainsAround(front: seq<nat>, a: seq<nat>, b: seq<nat>, more: seq<nat>)
    requires Remains(a, b)
    ensures Remains(front + a + more, front + b + more)
    decreases |front| + |b|
  {
    if front != [] {
      RemainsAround(front[1..], a, b, more);
      assert (front + a + more)[1..] == front[1..] + a + more && (front + b + more)[1..] == front[1..] + b + more;
    } else if b == [] {
      RemainsSelf(more);
      assert front + a + more == more == front + b + more;
    } else {
      assert (front + b + more)[1..] == front + b[1..] + more;
      if a != [] && a[0] == b[0] && Remains(a[1..], b[1..]) {
        RemainsAround(front, a[1..], b[1..], more);
        assert (front + a + more)[1..] == front + a[1..] + more;
      } else {
        RemainsAround(front, a, b[1..], more);
      }
    }
  }

  lemma DroppedRemains(s: seq<nat>, id: nat)
    ensures Remains(Dropped(s, id), s)
  {
    if id in s {
      var i := IndexOf(s, id);
      assert s == s[..i] + [id] + s[i + 1..] && Dropped(s, id) == s[..i] + [] + s[i + 1..];
      RemainsAround(s[..i], [], [id], s[i + 1..]);
    } else {
      RemainsSelf(s);
    }
  }

  lemma DroppedCount(s: seq<nat>, id: nat)
    ensures multiset(s) == multiset(Dropped(s, id)) + multiset(if id in s then [id] else [])
  {
    if id in s {
      var i := IndexOf(s, id);
      assert s == s[..i] + [id] + s[i + 1..];
    }
  }

  lemma MultisetOfMoves(line: seq<nat>, joined: seq<nat>, later: seq<nat>, next: seq<nat>, left: seq<nat>,
                        last: seq<nat>, leftLater: seq<nat>)
    requires multiset(line + joined) == multiset(next) + multiset(left)
    requires multiset(next + later) == multiset(last) + multiset(leftLater)
    ensures multiset(line + (joined + later)) == multiset(last) + multiset(left + leftLater)
  {
    calc {
      multiset(line + (joined + later));
      { assert line + (joined + later) == (line + joined) + later; }
      multiset(next) + multiset(left) + multiset(later);
      multiset(next + later) + multiset(left);
      multiset(last) + multiset(left + leftLater);
    }
  }

  /** One event of a run: what joins, and what is given up. */
  lemma LineMoves(u: Uploader, e: Event)
    requires Inv(u) && Lawful(u, e)
    ensures Remains(Line(Step(u, e).handler), Line(u.handler) + Arrivals(u, e))
    ensures multiset(Line(u.handler) + Arrivals(u, e)) == multiset(Line(Step(u, e).handler)) + multiset(GivesUp(u, e))
  {
    hide Inv, Lawful, Step, Arrivals, Waiting, Remains, Dropped;
    FirstComeFirstServed(u, e);
    var w, joined := Waiting(u.handler), Arrivals(u, e);
    if e.CancelEvent? && Present(u, e.id) {
      DroppedRemains(w, e.id);
      DroppedCount(w, e.id);
      RemainsAround(u.handler.started, Dropped(w, e.id), w, joined);
    } else {
      RemainsSelf(Line(u.handler) + joined);
    }
  }

  lemma {:induction false} LineOfRun(u: Uploader, events: seq<Event>)
    requires Inv(u) && LawfulRun(u, events)
    ensures Remains(Line(Run(u, events).handler), Line(u.handler) + AllArrivals(u, events))
    ensures multiset(Line(u.handler) + AllArrivals(u, events)) ==
            multiset(Line(Run(u, events).handler)) + multiset(AllGivenUp(u, events))
    decreases |events|
  {
    hide Inv, Lawful, Step, Arrivals, Line, GivesUp, Remains;
    if events == [] {
      assert Line(u.handler) + [] == Line(u.handler);
      RemainsSelf(Line(u.handler));
    } else {
      var e, rest := events[0], events[1..];
      var next := Step(u, e);
      StepKeeps(u, e);
      LineMoves(u, e);
      LineOfRun(next, rest);
      MovesOnce(Line(u.handler), Arrivals(u, e), AllArrivals(next, rest), Line(next.handler),
                Line(Run(next, rest).handler));
      MultisetOfMoves(Line(u.handler), Arrivals(u, e), AllArrivals(next, rest), Line(next.handler), GivesUp(u, e),
                      Line(Run(next, rest).handler), AllGivenUp(next, rest));
    }
  }

  lemma MovesOnce(line: seq<nat>, joined: seq<nat>, later: seq<nat>, next: seq<nat>, last: seq<nat>)
    requires Remains(next, line + joined) && Remains(last, next + later)
    ensures Remains(last, line + (joined + later))
  {
    hide Remains;
    RemainsAround([], next, line + joined, later);
    assert [] + next + later == next + later && [] + (line + joined) + later == line + (joined + later);
    RemainsTwice(last, next + later, line + (joined + later));
  }

  /**
   Over a whole run files start in the order in which they came: those started, and behind them those that wait,
   are the arrivals of the run in their order, without the ones that were cancelled before they started.
   */
  lemma ServedInOrder(max: nat, options: Options, events: seq<Event>)
    requires max >= 1 && LawfulRun(New(max, options), events)
    ensures var u0 := New(max, options);
      var h := Run(u0, events).handler;
      && Remains(h.started + Waiting(h), AllArrivals(u0, events))
      && multiset(AllArrivals(u0, events)) == multiset(h.started + Waiting(h)) + multiset(AllGivenUp(u0, events))
      && (AllGivenUp(u0, events) == [] ==> h.started + Waiting(h) == AllArrivals(u0, events))
  {
    var u0 := New(max, options);
    LineOfRun(u0, events);
    hide Run, AllArrivals, AllGivenUp, LawfulRun, Remains;
    WholeLine(Line(Run(u0, events).handler), AllArrivals(u0, events), AllGivenUp(u0, events));
  }

  lemma WholeLine(line: seq<nat>, all: seq<nat>, left: seq<nat>)
    requires Remains(line, [] + all) && multiset([] + all) == multiset(line) + multiset(left)
    ensures Remains(line, all) && multiset(all) == multiset(line) + multiset(left)
    ensures left == [] ==> line == all
  {
    hide Remains;
    assert [] + all == all;
    if left == [] {
      assert |line| == |multiset(line)| == |multiset(all)| == |all|;
      AllRemains(line, all);
    }
  }

  lemma {:induction false} RemainsShorter(a: seq<nat>, b: seq<nat>)
    requires Remains(a, b)
    ensures |a| <= |b|
  {
    if a != [] {
      if a[0] == b[0] && Remains(a[1..], b[1..]) {
        RemainsShorter(a[1..], b[1..]);
      } else {
        RemainsShorter(a, b[1..]);
      }
    }
  }

  lemma {:induction false} AllRemains(a: seq<nat>, b: seq<nat>)
    requires Remains(a, b) && |a| == |b|
    ensures a == b
  {
    if a != [] {
      if a[0] == b[0] && Remains(a[1..], b[1..]) {
        AllRemains(a[1..], b[1..]);
        assert a == [a[0]] + a[1..] && b == [b[0]] + b[1..];
      } else {
        RemainsShorter(a, b[1..]);
        assert false;
      }
    }
  }

  lemma LineParts(h: Handler)
    ensures Line(h) == h.started + Waiting(h) && Line(h) + [] == Line(h)
  {
  }

  lemma SubmitServed(u: Uploader, accepted: bool)
    ensures var r := Step(u, SubmitEvent(accepted));
      u.handler.started <= r.handler.started && Line(r.handler) == Line(u.handler) + Arrivals(u, SubmitEvent(accepted))
  {
    var h := u.handler;
    if accepted && u.options.autoUpload {
      UploadJoinsLine(h.(files := h.files + [true]), |h.files|);
    }
  }

  lemma ClearServed(u: Uploader)
    ensures Step(u, ClearStoredEvent).handler == u.handler
  {
  }

  lemma RetryServed(u: Uploader, id: nat, agreed: bool)
    requires Lawful(u, ManualRetryEvent(id, agreed))
    ensures var r := Step(u, ManualRetryEvent(id, agreed));
      && u.handler.started <= r.handler.started
      && Line(r.handler) == Line(u.handler) + Arrivals(u, ManualRetryEvent(id, agreed))
  {
    UploadJoinsLine(u.handler, id);
    LineParts(u.handler);
  }

  lemma TimerServed(u: Uploader, id: nat)
    requires Inv(u) && id in u.timers
    ensures var r := Step(u, TimerEvent(id));
      u.handler.started <= r.handler.started && Line(r.handler) == Line(u.handler)
  {
    var h := u.handler;
    assert id in h.xhrs && id in h.queue[..Slots(h)];
  }

  lemma CancelServed(u: Uploader, id: nat)
    requires Inv(u) && Lawful(u, CancelEvent(id))
    ensures var r := Cancel(u, id);
      && u.handler.started <= r.handler.started
      && Line(r.handler) == u.handler.started
                            + (if Present(u, id) then Dropped(Waiting(u.handler), id) else Waiting(u.handler))
  {
    var h := u.handler;
    if Present(u, id) && id in h.queue {
      LeaveLine(h.(files := h.files[id := false], xhrs := h.xhrs - {id}, inFlight := h.inFlight - {id}), id);
    }
  }

  lemma ResponseServed(u: Uploader, id: nat, success: bool, prevent: bool)
    requires Inv(u) && id in u.handler.inFlight
    ensures var r := Respond(u, id, success, prevent);
      u.handler.started <= r.handler.started && Line(r.handler) == Line(u.handler)
  {
    var h := u.handler;
    assert id in h.xhrs && id in h.queue[..Slots(h)];
    var i :| 0 <= i < Slots(h) && h.queue[i] == id;
    NotWaiting(h, i);
    LeaveLine(h.(inFlight := h.inFlight - {id}, xhrs := h.xhrs - {id}), id);
  }
}
