/** The download side of `SpeedTest.testDownload`: one stream per test URL,
    each reading chunks from its response body and adding their lengths to
    the shared total until the body reports `done`, the abort signal is
    seen, or an error ends that stream alone. */
module Download {
  import opened Wrappers
  import opened Transfer

  datatype Event =
    | Read(stream: nat, value: Option<nat>, now: int)  // `reader.read()` gave a chunk of `value` bytes (absent: no `value`); the clock reads `now`
    | Done(stream: nat)                                // `reader.read()` reported `done`, or the response had no body
    | Failed(stream: nat)                              // a non-ok status, a rejected fetch or a read error
    | Aborted                                          // the watchdog or `stop()` aborted the controller

  /** What an event does to the shared bookkeeping: a chunk adds
      `value?.length || 0`, the end of a body or an error stops the stream. */
  function ToStep(e: Event): Step
  {
    match e
    case Read(s, v, t) => Add(s, match v case Some(n) => n case None => 0, t)
    case Done(s) => Stop(s)
    case Failed(s) => Stop(s)
    case Aborted => Abort
  }

  function Steps(events: seq<Event>): seq<Step>
  {
    Translate(ToStep, events)
  }

  /** The abort and the end of each stream are seen in the steps exactly
      when they occur among the events. */
  lemma StepsKeepEnds(events: seq<Event>, s: nat)
    ensures Abort in Steps(events) <==> Aborted in events
    ensures Stop(s) in Steps(events) <==> Done(s) in events || Failed(s) in events
  {
    TranslateHas(ToStep, events, Abort);
    TranslateHas(ToStep, events, Stop(s));
    if Stop(s) in Steps(events) {
      var e :| e in events && ToStep(e) == Stop(s);
      assert e == Done(s) || e == Failed(s);
    }
    if Done(s) in events {
      assert ToStep(Done(s)) == Stop(s);
    }
    if Failed(s) in events {
      assert ToStep(Failed(s)) == Stop(s);
    }
  }

  /** A chunk read by a live stream adds its length to the total. */
  lemma ChunkAddsLength(events: seq<Event>, s: nat, len: nat, now: int)
    requires Aborted !in events && Done(s) !in events && Failed(s) !in events
    ensures Counted(Steps(events + [Read(s, Some(len), now)])) == Counted(Steps(events)) + len
  {
    var all := events + [Read(s, Some(len), now)];
    assert all[..|all| - 1] == events;
    StepsKeepEnds(events, s);
  }

  /** A chunk without a `value` adds nothing. */
  lemma MissingValueAddsNothing(events: seq<Event>, s: nat, now: int)
    ensures Counted(Steps(events + [Read(s, None, now)])) == Counted(Steps(events))
  {
    var all := events + [Read(s, None, now)];
    assert all[..|all| - 1] == events;
  }

  /** Nothing read after the abort is counted. */
  lemma NothingAfterAbort(events: seq<Event>, later: seq<Event>)
    requires Aborted in events
    ensures Counted(Steps(events + later)) == Counted(Steps(events))
  {
    TranslateConcat(ToStep, events, later);
    StepsKeepEnds(events, 0);
    AfterAbort(Steps(events), Steps(later));
  }

  /** A failing stream ends only itself: the other streams' contributions
      are those they would have made without the failure. */
  lemma FailedStreamIsLocal(before: seq<Event>, after: seq<Event>, v: nat, w: nat)
    requires v != w
    ensures StreamBytes(Steps(before + [Failed(v)] + after), w) == StreamBytes(Steps(before + after), w)
  {
    TranslateConcat(ToStep, before + [Failed(v)], after);
    TranslateConcat(ToStep, before, [Failed(v)]);
    TranslateConcat(ToStep, before, after);
    TranslateShape(ToStep, [Failed(v)]);
    FailureIsLocal(Steps(before), Steps(after), v, w);
  }

  /** One stream that delivered bytes makes the final speed positive,
      whatever the other streams did. */
  lemma OneStreamSuffices(events: seq<Event>, w: nat, totalTimeMs: int)
    requires StreamBytes(Steps(events), w) > 0 && totalTimeMs > 0
    ensures FinalSpeed(Counted(Steps(events)), totalTimeMs).mbps > 0.0
  {
    StreamShare(Steps(events), w);
  }
}

/** The upload side of `SpeedTest.testUpload`: a pool of workers, each
    posting the same 1 MiB payload again and again while the signal is not
    aborted, adding the payload size after every successful post and
    leaving its loop on the first failure. */
module Upload {
  import opened Transfer

  /** Size of the random payload of every post: 1 MiB. */
  const ChunkSize: nat := 1024 * 1024

  datatype Event =
    | Posted(worker: nat, now: int)  // a post resolved; the clock reads `now`
    | Rejected(worker: nat)          // a post was rejected: the worker breaks out of its loop
    | Aborted                        // the watchdog or `stop()` aborted the controller

  /** Every successful post adds the payload size, not a measured count. */
  function ToStep(e: Event): Step
  {
    match e
    case Posted(w, t) => Add(w, ChunkSize, t)
    case Rejected(w) => Stop(w)
    case Aborted => Abort
  }

  function Steps(events: seq<Event>): seq<Step>
  {
    Translate(ToStep, events)
  }

  /** The abort and a worker's failure are seen in the steps exactly when
      they occur among the events. */
  lemma StepsKeepEnds(events: seq<Event>, w: nat)
    ensures Abort in Steps(events) <==> Aborted in events
    ensures Stop(w) in Steps(events) <==> Rejected(w) in events
  {
    TranslateHas(ToStep, events, Abort);
    TranslateHas(ToStep, events, Stop(w));
    if Stop(w) in Steps(events) {
      var e :| e in events && ToStep(e) == Stop(w);
      assert e == Rejected(w);
    }
    if Rejected(w) in events {
      assert ToStep(Rejected(w)) == Stop(w);
    }
  }

  /** A worker whose post was rejected has left its loop: a later post
      resolving for it adds nothing. */
  lemma RejectedWorkerAddsNothing(events: seq<Event>, w: nat, now: int)
    requires Rejected(w) in events
    ensures Counted(Steps(events + [Posted(w, now)])) == Counted(Steps(events))
  {
    var all := events + [Posted(w, now)];
    assert all[..|all| - 1] == events;
    StepsKeepEnds(events, w);
  }

  /** A successful post by a worker that is still looping adds exactly one payload. */
  lemma PostAddsPayload(events: seq<Event>, w: nat, now: int)
    requires Aborted !in events && Rejected(w) !in events
    ensures Counted(Steps(events + [Posted(w, now)])) == Counted(Steps(events)) + ChunkSize
  {
    var all := events + [Posted(w, now)];
    assert all[..|all| - 1] == events;
    StepsKeepEnds(events, w);
  }

  /** A rejected worker stops only itself: its siblings' contributions are
      those they would have made without the failure. */
  lemma RejectedWorkerIsLocal(before: seq<Event>, after: seq<Event>, v: nat, w: nat)
    requires v != w
    ensures StreamBytes(Steps(before + [Rejected(v)] + after), w) == StreamBytes(Steps(before + after), w)
  {
    TranslateConcat(ToStep, before + [Rejected(v)], after);
    TranslateConcat(ToStep, before, [Rejected(v)]);
    TranslateConcat(ToStep, before, after);
    TranslateShape(ToStep, [Rejected(v)]);
    FailureIsLocal(Steps(before), Steps(after), v, w);
  }

  /** Number of successful posts. */
  function Posts(events: seq<Event>): nat
  {
    if events == [] then 0
    else Posts(events[..|events| - 1]) + (if events[|events| - 1].Posted? then 1 else 0)
  }

  /** Each event becomes one step, and the deliveries are the successful posts. */
  lemma {:induction false} StepsShape(events: seq<Event>)
    ensures |Steps(events)| == |events|
    ensures forall i :: 0 <= i < |events| ==> Steps(events)[i] == ToStep(events[i])
    ensures Deliveries(Steps(events)) == Posts(events)
  {
    TranslateShape(ToStep, events);
    if events != [] {
      var n := |events| - 1;
      var init, last := Steps(events[..n]), ToStep(events[n]);
      StepsShape(events[..n]);
      assert Steps(events) == init + [last];
      assert (init + [last])[..n] == init;
      assert Deliveries(init + [last]) == Deliveries(init) + (if last.Add? then 1 else 0);
    }
  }

  /** The upload total is a whole number of payloads, at most one per
      successful post. */
  lemma WholePayloads(events: seq<Event>)
    ensures Counted(Steps(events)) % ChunkSize == 0
    ensures Counted(Steps(events)) <= ChunkSize * Posts(events)
  {
    StepsShape(events);
    var steps := Steps(events);
    UniformDeliveries(steps, ChunkSize);
    WholeChunks(CountedDeliveries(steps), Posts(events));
  }

  lemma {:induction false} WholeChunks(k: nat, posts: nat)
    requires k <= posts
    ensures (ChunkSize * k) % ChunkSize == 0
    ensures ChunkSize * k <= ChunkSize * posts
  {
    if k > 0 {
      WholeChunks(k - 1, posts);
      assert ChunkSize * k == ChunkSize * (k - 1) + ChunkSize;
    }
  }
}
