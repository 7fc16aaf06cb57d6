/** The bookkeeping shared by the concurrent streams of `testDownload` and
    `testUpload`: one byte total, one start time and one time of the last
    progress report, updated by whichever stream's continuation the single
    JavaScript thread runs next. The streams themselves are reduced to an
    interleaving of events (`Step`), the clock to the readings those events
    carry, and the watchdog or `stop()` to an `Abort` event. */
module Transfer {
  import opened Wrappers

  /** Progress is reported only when strictly more than this many
      milliseconds have passed since the last report. */
  const DebounceMs: int := 100

  /** Throughput in Mbps of `bytes` moved in `elapsedMs` milliseconds
      (bits per millisecond, divided by 1000), computed exactly. */
  function Rate(bytes: nat, elapsedMs: int): (mbps: real)
    requires elapsedMs != 0
    ensures mbps * (elapsedMs * 1000) as real == (bytes * 8) as real
    ensures elapsedMs > 0 ==> mbps >= 0.0
    ensures elapsedMs > 0 && bytes > 0 ==> mbps > 0.0
  {
    (bytes * 8) as real / (elapsedMs * 1000) as real
  }

  /** The JavaScript number `Math.max(0, x)` evaluates to: a finite value,
      or the Infinity / NaN that a division by a zero elapsed time gives. */
  datatype Speed = Finite(mbps: real) | Infinite | NotANumber

  /** The result of a transfer: `Math.max(0, totalBytes * 8 / (totalTime * 1000))`. */
  function FinalSpeed(totalBytes: nat, totalTimeMs: int): (s: Speed)
    ensures s.Finite? <==> totalTimeMs != 0
    ensures s.Finite? ==> s.mbps >= 0.0
    ensures totalTimeMs > 0 ==> s.mbps * (totalTimeMs * 1000) as real == (totalBytes * 8) as real
    ensures totalTimeMs < 0 ==> s == Finite(0.0)
    ensures totalTimeMs == 0 ==> (s == NotANumber <==> totalBytes == 0)
  {
    if totalTimeMs == 0 then
      if totalBytes == 0 then NotANumber else Infinite
    else
      var r := Rate(totalBytes, totalTimeMs);
      Finite(if r < 0.0 then 0.0 else r)
  }

  /** One event of a transfer, in the order the single thread runs them. */
  datatype Step =
    | Add(stream: nat, bytes: nat, now: int)  // a stream's continuation delivers `bytes`; the clock reads `now`
    | Stop(stream: nat)                        // the stream leaves its loop (end of body, or an error)
    | Abort                                    // the abort signal fires

  /** The steps a direction's events stand for, one step per event, in order. */
  function Translate<E>(toStep: E -> Step, events: seq<E>): seq<Step>
  {
    if events == [] then []
    else Translate(toStep, events[..|events| - 1]) + [toStep(events[|events| - 1])]
  }

  lemma {:induction false} TranslateConcat<E>(toStep: E -> Step, a: seq<E>, b: seq<E>)
    ensures Translate(toStep, a + b) == Translate(toStep, a) + Translate(toStep, b)
  {
    if b == [] {
      assert a + b == a;
    } else {
      var m := |b| - 1;
      assert (a + b)[..|a + b| - 1] == a + b[..m];
      TranslateConcat(toStep, a, b[..m]);
    }
  }

  /** Each event becomes the step at its own position. */
  lemma {:induction false} TranslateShape<E>(toStep: E -> Step, events: seq<E>)
    ensures |Translate(toStep, events)| == |events|
    ensures forall i :: 0 <= i < |events| ==> Translate(toStep, events)[i] == toStep(events[i])
  {
    if events != [] {
      TranslateShape(toStep, events[..|events| - 1]);
    }
  }

  /** A step occurs exactly when some event stands for it. */
  lemma TranslateHas<E>(toStep: E -> Step, events: seq<E>, x: Step)
    ensures x in Translate(toStep, events) <==> exists e :: e in events && toStep(e) == x
  {
    TranslateShape(toStep, events);
    if x in Translate(toStep, events) {
      var i :| 0 <= i < |events| && Translate(toStep, events)[i] == x;
      assert events[i] in events;
    }
    if exists e :: e in events && toStep(e) == x {
      var e :| e in events && toStep(e) == x;
      var i :| 0 <= i < |events| && events[i] == e;
      assert Translate(toStep, events)[i] == x;
    }
  }

  /** A stream still runs its loop after `before`: nothing aborted and the stream has not stopped. */
  ghost predicate Live(before: seq<Step>, stream: nat)
  {
    Abort !in before && Stop(stream) !in before
  }

  /** Bytes that event `e` adds to the total when it follows `before`. */
  ghost function Delivered(before: seq<Step>, e: Step): nat
  {
    if e.Add? && Live(before, e.stream) then e.bytes else 0
  }

  /** The shared total after all of `steps`. */
  ghost function Counted(steps: seq<Step>): nat
  {
    if steps == [] then 0
    else
      var n := |steps| - 1;
      Counted(steps[..n]) + Delivered(steps[..n], steps[n])
  }

  /** Event `j` is a delivery that reaches the shared total. */
  ghost predicate Counts(steps: seq<Step>, j: int)
    requires 0 <= j < |steps|
  {
    steps[j].Add? && Live(steps[..j], steps[j].stream)
  }

  /** `em` lists, in increasing order, counted deliveries among the first
      `n` events, each more than `DebounceMs` after `start`. */
  ghost predicate Emissions(steps: seq<Step>, n: nat, start: int, em: seq<nat>)
    requires n <= |steps|
  {
    (forall k :: 0 <= k < |em| ==>
       em[k] < n && Counts(steps, em[k]) && steps[em[k]].now - start > DebounceMs) &&
    (forall k, l :: 0 <= k < l < |em| ==> em[k] < em[l])
  }

  /** Delivery `j` comes more than `DebounceMs` after the start and after
      every report in `em` that precedes it. */
  ghost predicate Due(steps: seq<Step>, start: int, em: seq<nat>, j: nat)
    requires j < |steps| && steps[j].Add?
    requires forall k :: 0 <= k < |em| ==> em[k] < |steps| && steps[em[k]].Add?
  {
    steps[j].now - start > DebounceMs &&
    forall k :: 0 <= k < |em| && em[k] < j ==> steps[j].now - steps[em[k]].now > DebounceMs
  }

  /** Progress is reported at exactly the counted deliveries `em` among the
      first `n` events: a delivery reports if and only if it is `Due`. */
  ghost predicate Debounced(steps: seq<Step>, n: nat, start: int, em: seq<nat>)
    requires n <= |steps|
  {
    Emissions(steps, n, start, em) &&
    forall j :: 0 <= j < n && Counts(steps, j) ==> (j in em <==> Due(steps, start, em, j))
  }

  /** The value reported to `onProgress` at delivery `j`: the cumulative
      rate of the shared total, measured from the shared start time. */
  ghost function ProgressAt(steps: seq<Step>, start: int, j: nat): real
    requires j < |steps| && steps[j].Add? && steps[j].now - start > 0
  {
    Rate(Counted(steps[..j + 1]), steps[j].now - start)
  }

  /** When progress was last reported among the deliveries `em`. */
  ghost function LastReport(steps: seq<Step>, n: nat, start: int, em: seq<nat>): int
    requires n <= |steps| && Emissions(steps, n, start, em)
  {
    if em == [] then start else steps[em[|em| - 1]].now
  }

  lemma CountedSnoc(steps: seq<Step>, i: nat)
    requires i < |steps|
    ensures Counted(steps[..i + 1]) == Counted(steps[..i]) + Delivered(steps[..i], steps[i])
  {
    assert steps[..i + 1][..i] == steps[..i];
  }

  /** A counted delivery that comes more than `DebounceMs` after the last
      report is itself reported. */
  lemma DebouncedReport(steps: seq<Step>, i: nat, start: int, em: seq<nat>, last: int)
    requires i < |steps| && Debounced(steps, i, start, em) && Counts(steps, i)
    requires last == LastReport(steps, i, start, em) && start <= last
    requires forall k :: 0 <= k < |em| ==> steps[em[k]].now <= last
    requires steps[i].now - last > DebounceMs
    ensures Debounced(steps, i + 1, start, em + [i])
  {
    var em' := em + [i];
    assert Emissions(steps, i + 1, start, em');
    forall j | 0 <= j < i + 1 && Counts(steps, j)
      ensures j in em' <==> Due(steps, start, em', j)
    {
      DueIgnoresLater(steps, start, em, i, j);
    }
  }

  /** A report at or after `j` does not affect whether `j` is due. */
  lemma DueIgnoresLater(steps: seq<Step>, start: int, em: seq<nat>, i: nat, j: nat)
    requires j <= i < |steps| && steps[i].Add? && steps[j].Add?
    requires forall k :: 0 <= k < |em| ==> em[k] < |steps| && steps[em[k]].Add?
    ensures Due(steps, start, em + [i], j) <==> Due(steps, start, em, j)
  {
    var em' := em + [i];
    assert forall k :: 0 <= k < |em'| && em'[k] < j ==> k < |em| && em'[k] == em[k];
  }

  /** A counted delivery within `DebounceMs` of the last report is not reported. */
  lemma DebouncedQuiet(steps: seq<Step>, i: nat, start: int, em: seq<nat>, last: int)
    requires i < |steps| && Debounced(steps, i, start, em) && Counts(steps, i)
    requires last == LastReport(steps, i, start, em)
    requires steps[i].now - last <= DebounceMs
    ensures Debounced(steps, i + 1, start, em)
  {
    if em != [] {
      var k := |em| - 1;
      assert em[k] < i && steps[i].now - steps[em[k]].now <= DebounceMs;
    }
    assert i !in em;
  }

  /** An event that does not reach the total reports nothing. */
  lemma DebouncedIgnored(steps: seq<Step>, i: nat, start: int, em: seq<nat>)
    requires i < |steps| && Debounced(steps, i, start, em) && !Counts(steps, i)
    ensures Debounced(steps, i + 1, start, em)
  {
  }

  /** Successive progress reports are more than `DebounceMs` apart, and the
      first comes more than `DebounceMs` after the start. */
  lemma ReportsSpaced(steps: seq<Step>, start: int, em: seq<nat>)
    requires Debounced(steps, |steps|, start, em)
    ensures em != [] ==> steps[em[0]].now - start > DebounceMs
    ensures forall k :: 0 < k < |em| ==> steps[em[k]].now - steps[em[k - 1]].now > DebounceMs
  {
    forall k | 0 < k < |em|
      ensures steps[em[k]].now - steps[em[k - 1]].now > DebounceMs
    {
      assert em[k] in em;
      assert Due(steps, start, em, em[k]);
    }
  }

  /** Whether a delivery is due depends only on the reports before it. */
  lemma DueAgrees(steps: seq<Step>, n: nat, start: int, e1: seq<nat>, e2: seq<nat>, j: nat)
    requires n <= |steps| && Emissions(steps, n, start, e1) && Emissions(steps, n, start, e2)
    requires j < |steps| && steps[j].Add?
    requires forall x :: 0 <= x < j ==> (x in e1 <==> x in e2)
    ensures Due(steps, start, e1, j) <==> Due(steps, start, e2, j)
  {
    if Due(steps, start, e2, j) {
      forall k | 0 <= k < |e1| && e1[k] < j
        ensures steps[j].now - steps[e1[k]].now > DebounceMs
      {
        assert e1[k] in e1;
        var k' :| 0 <= k' < |e2| && e2[k'] == e1[k];
      }
    }
    if Due(steps, start, e1, j) {
      forall k | 0 <= k < |e2| && e2[k] < j
        ensures steps[j].now - steps[e2[k]].now > DebounceMs
      {
        assert e2[k] in e2;
        var k' :| 0 <= k' < |e1| && e1[k'] == e2[k];
      }
    }
  }

  lemma {:induction false} DebouncedAgreeBelow(steps: seq<Step>, n: nat, start: int, e1: seq<nat>, e2: seq<nat>, j: nat)
    requires n <= |steps| && Debounced(steps, n, start, e1) && Debounced(steps, n, start, e2)
    requires j <= n
    ensures forall x :: 0 <= x < j ==> (x in e1 <==> x in e2)
  {
    if j > 0 {
      var i := j - 1;
      DebouncedAgreeBelow(steps, n, start, e1, e2, i);
      if Counts(steps, i) {
        DueAgrees(steps, n, start, e1, e2, i);
      } else {
        assert i !in e1 && i !in e2;
      }
    }
  }

  lemma HasMember(e: seq<nat>)
    requires e != []
    ensures exists x :: x in e
  {
    assert e[0] in e;
  }

  lemma {:induction false} IncreasingUnique(e1: seq<nat>, e2: seq<nat>)
    requires forall k, l :: 0 <= k < l < |e1| ==> e1[k] < e1[l]
    requires forall k, l :: 0 <= k < l < |e2| ==> e2[k] < e2[l]
    requires forall x :: x in e1 <==> x in e2
    ensures e1 == e2
  {
    if e1 != [] && e2 != [] {
      assert e1[0] in e2 && e2[0] in e1;
      assert e1[0] == e2[0];
      forall x
        ensures x in e1[1..] <==> x in e2[1..]
      {
        if x in e1[1..] {
          assert x in e1 && x != e1[0];
        }
        if x in e2[1..] {
          assert x in e2 && x != e2[0];
        }
      }
      IncreasingUnique(e1[1..], e2[1..]);
      assert e1 == [e1[0]] + e1[1..] && e2 == [e2[0]] + e2[1..];
    } else {
      if e1 != [] {
        HasMember(e1);
      }
      if e2 != [] {
        HasMember(e2);
      }
    }
  }

  /** The debounce rule determines the reports: at most one list of
      reporting events satisfies `Debounced`. */
  lemma DebouncedUnique(steps: seq<Step>, n: nat, start: int, e1: seq<nat>, e2: seq<nat>)
    requires n <= |steps| && Debounced(steps, n, start, e1) && Debounced(steps, n, start, e2)
    ensures e1 == e2
  {
    DebouncedAgreeBelow(steps, n, start, e1, e2, n);
    forall x
      ensures x in e1 <==> x in e2
    {
      if x in e1 || x in e2 {
        assert x < n;
      }
    }
    IncreasingUnique(e1, e2);
  }

  // ---------------------------------------------------------------------
  // The shared total.

  /** The total never decreases: later events only add to it. */
  lemma {:induction false} CountedGrows(steps: seq<Step>, more: seq<Step>)
    ensures Counted(steps) <= Counted(steps + more)
  {
    if more != [] {
      var all := steps + more;
      var m := |more| - 1;
      assert all[..|all| - 1] == steps + more[..m];
      CountedGrows(steps, more[..m]);
    } else {
      assert steps + more == steps;
    }
  }

  /** Once the signal is aborted, nothing more is added. */
  lemma {:induction false} AfterAbort(steps: seq<Step>, more: seq<Step>)
    requires Abort in steps
    ensures Counted(steps + more) == Counted(steps)
  {
    if more == [] {
      assert steps + more == steps;
    } else {
      var m := |more| - 1;
      var all := steps + more;
      assert all[..|all| - 1] == steps + more[..m];
      assert Abort in steps + more[..m];
      AfterAbort(steps, more[..m]);
    }
  }

  /** Bytes carried by all deliveries, whether or not they reach the total. */
  ghost function Offered(steps: seq<Step>): nat
  {
    if steps == [] then 0
    else
      var n := |steps| - 1;
      Offered(steps[..n]) + (if steps[n].Add? then steps[n].bytes else 0)
  }

  /** Deliveries after an abort or after their stream stopped are dropped,
      so the total is at most what was offered. */
  lemma {:induction false} CountedAtMostOffered(steps: seq<Step>)
    ensures Counted(steps) <= Offered(steps)
  {
    if steps != [] {
      CountedAtMostOffered(steps[..|steps| - 1]);
    }
  }

  /** Without aborts or stopped streams, no update is lost: whatever the
      interleaving, the total is the sum of all deliveries. */
  lemma {:induction false} NoLostUpdates(steps: seq<Step>)
    requires Abort !in steps
    requires forall i :: 0 <= i < |steps| ==> !steps[i].Stop?
    ensures Counted(steps) == Offered(steps)
  {
    if steps != [] {
      var n := |steps| - 1;
      assert forall e :: e in steps[..n] ==> e in steps;
      NoLostUpdates(steps[..n]);
      if steps[n].Add? {
        assert Stop(steps[n].stream) !in steps[..n];
      }
    }
  }

  /** Event `e` belongs to stream `w`'s loop or is seen by every loop. */
  predicate Concerns(e: Step, w: nat)
  {
    match e
    case Add(s, _, _) => s == w
    case Stop(s) => s == w
    case Abort => true
  }

  /** The events that stream `w` observes: its own, and the aborts. */
  function Only(steps: seq<Step>, w: nat): seq<Step>
  {
    if steps == [] then []
    else
      var n := |steps| - 1;
      Only(steps[..n], w) + (if Concerns(steps[n], w) then [steps[n]] else [])
  }

  /** The part of the total contributed by stream `w`. */
  ghost function StreamBytes(steps: seq<Step>, w: nat): nat
  {
    if steps == [] then 0
    else
      var n := |steps| - 1;
      StreamBytes(steps[..n], w) + (if steps[n].Add? && steps[n].stream == w then Delivered(steps[..n], steps[n]) else 0)
  }

  lemma {:induction false} OnlyKeeps(steps: seq<Step>, w: nat, e: Step)
    requires Concerns(e, w)
    ensures e in Only(steps, w) <==> e in steps
  {
    if steps != [] {
      var n := |steps| - 1;
      assert steps == steps[..n] + [steps[n]];
      OnlyKeeps(steps[..n], w, e);
    }
  }

  /** A stream's contribution depends only on its own events and the aborts. */
  lemma {:induction false} StreamIsolation(steps: seq<Step>, w: nat)
    ensures StreamBytes(steps, w) == Counted(Only(steps, w))
  {
    if steps != [] {
      var n := |steps| - 1;
      var e := steps[n];
      StreamIsolation(steps[..n], w);
      var o := Only(steps[..n], w);
      if Concerns(e, w) {
        assert Only(steps, w) == o + [e];
        assert (o + [e])[..|o|] == o;
        OnlyKeeps(steps[..n], w, Abort);
        OnlyKeeps(steps[..n], w, Stop(w));
        assert Counted(o + [e]) == Counted(o) + Delivered(o, e);
        if e.Add? {
          assert Delivered(o, e) == Delivered(steps[..n], e);
        }
      } else {
        assert Only(steps, w) == o;
      }
    }
  }

  lemma {:induction false} OnlyConcat(a: seq<Step>, b: seq<Step>, w: nat)
    ensures Only(a + b, w) == Only(a, w) + Only(b, w)
  {
    if b != [] {
      var m := |b| - 1;
      assert (a + b)[..|a + b| - 1] == a + b[..m];
      assert (a + b)[|a + b| - 1] == b[m];
      OnlyConcat(a, b[..m], w);
    } else {
      assert a + b == a;
    }
  }

  /** A stream that stops (at the end of its body, or on an error) takes
      nothing away from any other stream. */
  lemma FailureIsLocal(before: seq<Step>, after: seq<Step>, v: nat, w: nat)
    requires v != w
    ensures StreamBytes(before + [Stop(v)] + after, w) == StreamBytes(before + after, w)
  {
    OnlyConcat(before + [Stop(v)], after, w);
    OnlyConcat(before, [Stop(v)], w);
    OnlyConcat(before, after, w);
    assert Only([Stop(v)], w) == [] by {
      assert [Stop(v)][..0] == [];
    }
    assert Only(before + [Stop(v)], w) == Only(before, w) + [];
    assert Only(before, w) + [] == Only(before, w);
    StreamIsolation(before + [Stop(v)] + after, w);
    StreamIsolation(before + after, w);
  }

  /** Every stream's contribution is part of the total. */
  lemma {:induction false} StreamShare(steps: seq<Step>, w: nat)
    ensures StreamBytes(steps, w) <= Counted(steps)
  {
    if steps != [] {
      StreamShare(steps[..|steps| - 1], w);
    }
  }

  /** Number of deliveries, and of deliveries that reach the total. */
  ghost function Deliveries(steps: seq<Step>): nat
  {
    if steps == [] then 0
    else
      var n := |steps| - 1;
      Deliveries(steps[..n]) + (if steps[n].Add? then 1 else 0)
  }

  ghost function CountedDeliveries(steps: seq<Step>): nat
  {
    if steps == [] then 0
    else
      var n := |steps| - 1;
      CountedDeliveries(steps[..n]) + (if Counts(steps, n) then 1 else 0)
  }

  /** When every delivery carries the same size, the total is a whole number
      of deliveries, at most as many as were made. */
  lemma {:induction false} UniformDeliveries(steps: seq<Step>, size: nat)
    requires forall i :: 0 <= i < |steps| && steps[i].Add? ==> steps[i].bytes == size
    ensures Counted(steps) == size * CountedDeliveries(steps)
    ensures CountedDeliveries(steps) <= Deliveries(steps)
  {
    if steps != [] {
      var n := |steps| - 1;
      UniformDeliveries(steps[..n], size);
      if Counts(steps, n) {
        assert Counted(steps) == size * CountedDeliveries(steps[..n]) + size;
      }
    }
  }

  /** The shared variables after the first `i` events agree with the
      specification: `total` is what was counted, the reports so far are
      the debounced ones with their cumulative rates, and `last` is when
      progress was last reported. */
  ghost predicate Consistent(steps: seq<Step>, i: nat, start: int, total: nat, last: int,
                             progress: seq<real>, em: seq<nat>)
  {
    && i <= |steps|
    && start <= last
    && total == Counted(steps[..i])
    && Debounced(steps, i, start, em)
    && |progress| == |em|
    && (forall k :: 0 <= k < |progress| ==> progress[k] == ProgressAt(steps, start, em[k]))
    && last == LastReport(steps, i, start, em)
    && (forall k :: 0 <= k < |em| ==> steps[em[k]].now <= last)
  }

  /** A counted delivery more than `DebounceMs` after the last report adds
      its bytes and reports the new cumulative rate. */
  lemma ConsistentReport(steps: seq<Step>, i: nat, start: int, total: nat, last: int,
                         progress: seq<real>, em: seq<nat>)
    requires i < |steps| && Consistent(steps, i, start, total, last, progress, em) && Counts(steps, i)
    requires steps[i].now - last > DebounceMs
    ensures Consistent(steps, i + 1, start, total + steps[i].bytes, steps[i].now,
                       progress + [Rate(total + steps[i].bytes, steps[i].now - start)], em + [i])
  {
    CountedSnoc(steps, i);
    DebouncedReport(steps, i, start, em, last);
  }

  /** A counted delivery within `DebounceMs` of the last report only adds
      its bytes. */
  lemma ConsistentQuiet(steps: seq<Step>, i: nat, start: int, total: nat, last: int,
                        progress: seq<real>, em: seq<nat>)
    requires i < |steps| && Consistent(steps, i, start, total, last, progress, em) && Counts(steps, i)
    requires steps[i].now - last <= DebounceMs
    ensures Consistent(steps, i + 1, start, total + steps[i].bytes, last, progress, em)
  {
    CountedSnoc(steps, i);
    DebouncedQuiet(steps, i, start, em, last);
  }

  /** An event that is not counted changes nothing. */
  lemma ConsistentSkip(steps: seq<Step>, i: nat, start: int, total: nat, last: int,
                       progress: seq<real>, em: seq<nat>)
    requires i < |steps| && Consistent(steps, i, start, total, last, progress, em) && !Counts(steps, i)
    ensures Consistent(steps, i + 1, start, total, last, progress, em)
  {
    CountedSnoc(steps, i);
    DebouncedIgnored(steps, i, start, em);
  }

  /** The browser's `AbortController`: a one-shot signal. */
  class AbortController {
    var aborted: bool

    constructor()
      ensures !aborted
    {
      aborted := false;
    }

    method Abort()
      modifies this
      ensures aborted
    {
      aborted := true;
    }
  }

  /** The variables `totalBytes`, `startTime` and `lastUpdate` that the
      stream closures of one transfer share. */
  class Accumulator {
    var totalBytes: nat
    const startTime: int
    var lastUpdate: int

    ghost predicate Valid()
      reads this
    {
      startTime <= lastUpdate
    }

    constructor(startTime: int)
      ensures Valid()
      ensures this.startTime == startTime && totalBytes == 0 && lastUpdate == startTime
    {
      this.startTime := startTime;
      totalBytes := 0;
      lastUpdate := startTime;
    }

    /** One loop body: add the bytes, then report progress if more than
        `DebounceMs` have passed since the last report. */
    method Record(bytes: nat, now: int) returns (progress: Option<real>)
      requires Valid()
      modifies this
      ensures Valid()
      ensures totalBytes == old(totalBytes) + bytes
      ensures progress.Some? <==> now - old(lastUpdate) > DebounceMs
      ensures progress.Some? ==>
        lastUpdate == now && now - startTime > DebounceMs &&
        progress.value == Rate(totalBytes, now - startTime)
      ensures progress.None? ==> lastUpdate == old(lastUpdate)
    {
      totalBytes := totalBytes + bytes;
      if now - lastUpdate > DebounceMs {
        progress := Some(Rate(totalBytes, now - startTime));
        lastUpdate := now;
      } else {
        progress := None;
      }
    }

    /** The state of the shared variables, the abort signal and the
        per-stream loops after the first `i` events. */
    ghost predicate RunState(steps: seq<Step>, i: nat, signal: AbortController, finished: set<nat>,
                             progress: seq<real>, emittedAt: seq<nat>)
      reads this, signal
    {
      && i <= |steps|
      && Valid()
      && (signal.aborted <==> Abort in steps[..i])
      && (forall w :: w in finished <==> Stop(w) in steps[..i])
      && Consistent(steps, i, startTime, totalBytes, lastUpdate, progress, emittedAt)
    }

    /** A delivery of a live stream goes through `Record`. */
    method Deliver(steps: seq<Step>, i: nat, signal: AbortController, finished: set<nat>,
                   progress: seq<real>, ghost emittedAt: seq<nat>)
      returns (progress': seq<real>, ghost emittedAt': seq<nat>)
      requires i < |steps| && RunState(steps, i, signal, finished, progress, emittedAt) && Counts(steps, i)
      modifies this
      ensures RunState(steps, i + 1, signal, finished, progress', emittedAt')
    {
      assert steps[..i + 1] == steps[..i] + [steps[i]];
      ghost var total, last := totalBytes, lastUpdate;
      var p := Record(steps[i].bytes, steps[i].now);
      if p.Some? {
        ConsistentReport(steps, i, startTime, total, last, progress, emittedAt);
        progress', emittedAt' := progress + [p.value], emittedAt + [i];
      } else {
        ConsistentQuiet(steps, i, startTime, total, last, progress, emittedAt);
        progress', emittedAt' := progress, emittedAt;
      }
    }

    /** An event that reaches no live loop changes nothing but the set of
        finished streams. */
    lemma Passes(steps: seq<Step>, i: nat, signal: AbortController, finished: set<nat>,
                 progress: seq<real>, emittedAt: seq<nat>)
      requires i < |steps| && RunState(steps, i, signal, finished, progress, emittedAt)
      requires !Counts(steps, i) && !steps[i].Abort?
      ensures RunState(steps, i + 1, signal, if steps[i].Stop? then finished + {steps[i].stream} else finished,
                       progress, emittedAt)
    {
      assert steps[..i + 1] == steps[..i] + [steps[i]];
      ConsistentSkip(steps, i, startTime, totalBytes, lastUpdate, progress, emittedAt);
    }

    /** The continuation of event `i`: a delivery of a live stream goes
        through `Record`, a stream that stops leaves its loop, an abort
        fires the signal. */
    method Advance(steps: seq<Step>, i: nat, signal: AbortController, finished: set<nat>,
                   progress: seq<real>, ghost emittedAt: seq<nat>)
      returns (finished': set<nat>, progress': seq<real>, ghost emittedAt': seq<nat>)
      requires i < |steps| && RunState(steps, i, signal, finished, progress, emittedAt)
      modifies this, signal
      ensures RunState(steps, i + 1, signal, finished', progress', emittedAt')
    {
      finished', progress', emittedAt' := finished, progress, emittedAt;
      match steps[i] {
        case Add(w, bytes, now) =>
          if !signal.aborted && w !in finished {
            progress', emittedAt' := Deliver(steps, i, signal, finished, progress, emittedAt);
          } else {
            Passes(steps, i, signal, finished, progress, emittedAt);
          }
        case Stop(w) =>
          Passes(steps, i, signal, finished, progress, emittedAt);
          finished' := finished + {w};
        case Abort =>
          assert steps[..i + 1] == steps[..i] + [steps[i]];
          ConsistentSkip(steps, i, startTime, totalBytes, lastUpdate, progress, emittedAt);
          signal.Abort();
      }
    }

    /** All streams of one transfer, run to the end of `steps`. Returns the
        values passed to `onProgress` and, as a ghost, the events that
        triggered them. */
    method Run(steps: seq<Step>, signal: AbortController) returns (progress: seq<real>, ghost emittedAt: seq<nat>)
      requires Valid() && totalBytes == 0 && lastUpdate == startTime && !signal.aborted
      modifies this, signal
      ensures Valid()
      ensures totalBytes == Counted(steps)
      ensures signal.aborted <==> Abort in steps
      ensures Debounced(steps, |steps|, startTime, emittedAt)
      ensures |progress| == |emittedAt|
      ensures forall k :: 0 <= k < |progress| ==> progress[k] == ProgressAt(steps, startTime, emittedAt[k])
    {
      var i := 0;
      var finished: set<nat> := {};
      progress, emittedAt := [], [];
      while i < |steps|
        invariant RunState(steps, i, signal, finished, progress, emittedAt)
      {
        finished, progress, emittedAt := Advance(steps, i, signal, finished, progress, emittedAt);
        i := i + 1;
      }
      assert steps[..|steps|] == steps;
    }
  }
}
