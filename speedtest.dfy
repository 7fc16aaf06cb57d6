/** The `SpeedTest` class: the controller that aborts the measurement in
    progress, the `isRunning` flag, and the three measurements. Network
    outcomes and clock readings are parameters: the attempts of the latency
    probe, the events of a transfer, and the clock at its start and end. */
module Client {
  import opened Wrappers
  import opened Transfer
  import Latency
  import Download
  import Upload

  class SpeedTest {
    var isRunning: bool
    var abortController: AbortController?

    constructor()
      ensures !isRunning && abortController == null
    {
      isRunning := false;
      abortController := null;
    }

    /** `stop()`: aborts the current controller if there is one (a second
        call finds it aborted already and leaves it so) and clears
        `isRunning`; safe to call before any measurement. */
    method Stop()
      modifies this, abortController
      ensures abortController == old(abortController)
      ensures abortController != null ==> abortController.aborted
      ensures !isRunning
    {
      if abortController != null {
        abortController.Abort();
      }
      isRunning := false;
    }

    /** `testLatency()`: `attempts[i]` is the measured duration of the i-th
        request, or `None` when it failed. */
    method TestLatency(attempts: seq<Option<nat>>) returns (ms: nat)
      requires |attempts| == Latency.Attempts
      ensures ms == Latency.LatencyOf(attempts)
    {
      var measurements: seq<nat> := [];
      for i := 0 to Latency.Attempts
        invariant measurements == Latency.Survivors(attempts[..i])
      {
        assert attempts[..i + 1][..i] == attempts[..i];
        match attempts[i] {
          case Some(d) => measurements := measurements + [d];
          case None =>
        }
      }
      assert attempts[..Latency.Attempts] == attempts;
      if |measurements| == 0 {
        return 0;
      }
      var a := new nat[|measurements|](k requires 0 <= k < |measurements| => measurements[k]);
      assert a[..] == measurements;
      Latency.SortInPlace(a);
      Latency.SortAscendingCorrect(measurements);
      Latency.AscendingUnique(a[..], Latency.SortAscending(measurements));
      ms := a[a.Length / 2];
    }

    /** `testDownload()`: `events` is the interleaving of the three streams'
        continuations, `startTime` and `endTime` the clock at the start and
        after all streams settled. Returns the final speed, the values passed
        to `onProgress` and, as a ghost, the events that triggered them. */
    method TestDownload(events: seq<Download.Event>, startTime: int, endTime: int)
      returns (speed: Speed, progress: seq<real>, ghost emittedAt: seq<nat>)
      modifies this
      ensures abortController != null && fresh(abortController)
      ensures abortController.aborted <==> Download.Aborted in events
      ensures isRunning == old(isRunning)
      ensures speed == FinalSpeed(Counted(Download.Steps(events)), endTime - startTime)
      ensures Debounced(Download.Steps(events), |Download.Steps(events)|, startTime, emittedAt)
      ensures |progress| == |emittedAt|
      ensures forall k :: 0 <= k < |progress| ==>
        progress[k] == ProgressAt(Download.Steps(events), startTime, emittedAt[k])
    {
      abortController := new AbortController();
      var signal := abortController;
      var totals := new Accumulator(startTime);
      progress, emittedAt := totals.Run(Download.Steps(events), signal);
      Download.StepsKeepEnds(events, 0);
      speed := FinalSpeed(totals.totalBytes, endTime - startTime);
    }

    /** `testUpload()`: `events` is the interleaving of the three workers'
        continuations, `startTime` and `endTime` the clock at the start and
        after all workers settled. */
    method TestUpload(events: seq<Upload.Event>, startTime: int, endTime: int)
      returns (speed: Speed, progress: seq<real>, ghost emittedAt: seq<nat>)
      modifies this
      ensures abortController != null && fresh(abortController)
      ensures abortController.aborted <==> Upload.Aborted in events
      ensures isRunning == old(isRunning)
      ensures speed == FinalSpeed(Counted(Upload.Steps(events)), endTime - startTime)
      ensures Debounced(Upload.Steps(events), |Upload.Steps(events)|, startTime, emittedAt)
      ensures |progress| == |emittedAt|
      ensures forall k :: 0 <= k < |progress| ==>
        progress[k] == ProgressAt(Upload.Steps(events), startTime, emittedAt[k])
    {
      abortController := new AbortController();
      var signal := abortController;
      var totals := new Accumulator(startTime);
      progress, emittedAt := totals.Run(Upload.Steps(events), signal);
      Upload.StepsKeepEnds(events, 0);
      speed := FinalSpeed(totals.totalBytes, endTime - startTime);
    }
  }
}
