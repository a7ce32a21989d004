/**
 * The heartbeat counters.  The job loop adds to a snapshot in memory; a concurrent
 * flusher takes the snapshot, zeroing its counters, and later adds them to the stored row.
 */
module Heartbeat {
  import opened Wrappers

  type WorkerId = nat
  type JobId = string

  datatype Snapshot = Snapshot(
    status: string,
    lastJobId: Option<JobId>,
    lastJobTopic: Option<string>,
    lastError: Option<string>,
    processed: int,
    failed: int)

  datatype Row = Row(
    status: string,
    heartbeatAt: int,
    lastJobId: Option<JobId>,
    lastJobTopic: Option<string>,
    lastError: Option<string>,
    processed: int,
    failed: int)

  type Rows = map<WorkerId, Row>

  const FRESH := Snapshot("idle", None, None, None, 0, 0)

  // ---------------------------------------------------------------- what each call does

  function Idle(s: Snapshot): Snapshot {
    s.(status := "idle")
  }

  function Processing(s: Snapshot, id: JobId, topic: string): Snapshot {
    s.(status := "processing", lastJobId := Some(id), lastJobTopic := Some(topic))
  }

  function QueueError(s: Snapshot, error: string): Snapshot {
    s.(status := "queue_error", lastError := Some(error))
  }

  function Success(s: Snapshot, id: JobId, topic: string): Snapshot {
    s.(status := "idle", lastJobId := Some(id), lastJobTopic := Some(topic), processed := s.processed + 1)
  }

  function Failure(s: Snapshot, id: JobId, topic: string, error: string): Snapshot {
    s.(status := "idle", lastJobId := Some(id), lastJobTopic := Some(topic), lastError := Some(error), failed := s.failed + 1)
  }

  function Taken(s: Snapshot): Snapshot {
    s.(processed := 0, failed := 0)
  }

  function Or<T>(new': Option<T>, held: Option<T>): Option<T> {
    if new'.Some? then new' else held
  }

  function Greatest(a: int, b: int): int {
    if a < b then b else a
  }

  /** A job is reported only with its id and its topic. */
  function LastJob(s: Snapshot): Option<(JobId, string)> {
    if s.lastJobId.Some? && s.lastJobTopic.Some? then Some((s.lastJobId.value, s.lastJobTopic.value)) else None
  }

  /** The upsert of one worker's row. */
  function Recorded(rows: Rows, worker: WorkerId, s: Snapshot, now: int): Rows {
    var job := LastJob(s);
    var id := if job.Some? then Some(job.value.0) else None;
    var topic := if job.Some? then Some(job.value.1) else None;
    if worker !in rows then
      rows[worker := Row(s.status, now, id, topic, s.lastError, Greatest(s.processed, 0), Greatest(s.failed, 0))]
    else
      var row := rows[worker];
      rows[worker := Row(
        s.status, now, Or(id, row.lastJobId), Or(topic, row.lastJobTopic),
        if s.lastError.None? && (s.status == "idle" || s.status == "processing") then row.lastError else s.lastError,
        row.processed + Greatest(s.processed, 0), row.failed + Greatest(s.failed, 0))]
  }

  class WorkerHeartbeat {
    var status: string
    var lastJobId: Option<JobId>
    var lastJobTopic: Option<string>
    var lastError: Option<string>
    var processedDelta: int
    var failedDelta: int

    function Current(): Snapshot
      reads this
    {
      Snapshot(status, lastJobId, lastJobTopic, lastError, processedDelta, failedDelta)
    }

    constructor ()
      ensures Current() == FRESH
    {
      status, lastJobId, lastJobTopic, lastError, processedDelta, failedDelta := "idle", None, None, None, 0, 0;
    }

    method SetIdle()
      modifies this
      ensures Current() == Idle(old(Current()))
    {
      status := "idle";
    }

    method SetProcessing(id: JobId, topic: string)
      modifies this
      ensures Current() == Processing(old(Current()), id, topic)
    {
      status := "processing";
      lastJobId := Some(id);
      lastJobTopic := Some(topic);
    }

    method SetQueueError(error: string)
      modifies this
      ensures Current() == QueueError(old(Current()), error)
    {
      status := "queue_error";
      lastError := Some(error);
    }

    method RecordSuccess(id: JobId, topic: string)
      modifies this
      ensures Current() == Success(old(Current()), id, topic)
    {
      status := "idle";
      lastJobId := Some(id);
      lastJobTopic := Some(topic);
      processedDelta := processedDelta + 1;
    }

    method RecordFailure(id: JobId, topic: string, error: string)
      modifies this
      ensures Current() == Failure(old(Current()), id, topic, error)
    {
      status := "idle";
      lastJobId := Some(id);
      lastJobTopic := Some(topic);
      lastError := Some(error);
      failedDelta := failedDelta + 1;
    }

    /** The first half of a flush, under the lock. */
    method Take() returns (snapshot: Snapshot)
      modifies this
      ensures snapshot == old(Current()) && Current() == Taken(old(Current()))
    {
      snapshot := Snapshot(status, lastJobId, lastJobTopic, lastError, processedDelta, failedDelta);
      processedDelta := 0;
      failedDelta := 0;
    }
  }

  // ---------------------------------------------------------------- any interleaving

  datatype Counts = Counts(processed: int, failed: int)

  /** `flushing` is the snapshot between the halves of a flush, `lost` what failed writes dropped. */
  datatype Worker = Worker(memory: Snapshot, flushing: Option<Snapshot>, lost: Counts)

  datatype System = System(workers: seq<Worker>, rows: Rows)

  datatype Event =
    | Start
    | SetIdle(worker: WorkerId)
    | SetProcessing(worker: WorkerId, id: JobId, topic: string)
    | SetQueueError(worker: WorkerId, error: string)
    | Succeed(worker: WorkerId, id: JobId, topic: string)
    | Fail(worker: WorkerId, id: JobId, topic: string, error: string)
    | Take(worker: WorkerId)
    | Write(worker: WorkerId, written: bool, now: int)

  predicate Enabled(s: System, e: Event) {
    e.Start? || (e.worker < |s.workers| && (e.Take? ==> s.workers[e.worker].flushing.None?) && (e.Write? ==> s.workers[e.worker].flushing.Some?))
  }

  function Apply(s: System, e: Event): System
    requires Enabled(s, e)
  {
    if e.Start? then s.(workers := s.workers + [Worker(FRESH, None, Counts(0, 0))])
    else
      var w := s.workers[e.worker];
      match e
      case SetIdle(k) => s.(workers := s.workers[k := w.(memory := Idle(w.memory))])
      case SetProcessing(k, id, topic) => s.(workers := s.workers[k := w.(memory := Processing(w.memory, id, topic))])
      case SetQueueError(k, error) => s.(workers := s.workers[k := w.(memory := QueueError(w.memory, error))])
      case Succeed(k, id, topic) => s.(workers := s.workers[k := w.(memory := Success(w.memory, id, topic))])
      case Fail(k, id, topic, error) => s.(workers := s.workers[k := w.(memory := Failure(w.memory, id, topic, error))])
      case Take(k) => s.(workers := s.workers[k := w.(memory := Taken(w.memory), flushing := Some(w.memory))])
      case Write(k, written, now) =>
        var f := w.flushing.value;
        if written then System(s.workers[k := w.(flushing := None)], Recorded(s.rows, k, f, now))
        else s.(workers := s.workers[k := w.(flushing := None, lost := Counts(w.lost.processed + f.processed, w.lost.failed + f.failed))])
  }

  function Front(es: seq<Event>): seq<Event>
    requires es != []
  {
    es[..|es| - 1]
  }

  function Last(es: seq<Event>): Event
    requires es != []
  {
    es[|es| - 1]
  }

  ghost predicate Run(es: seq<Event>)
    decreases |es|, 0
  {
    es == [] || (Run(Front(es)) && Enabled(Exec(Front(es)), Last(es)))
  }

  ghost function Exec(es: seq<Event>): System
    requires Run(es)
    decreases |es|, 1
  {
    if es == [] then System([], map[]) else Apply(Exec(Front(es)), Last(es))
  }

  // ---------------------------------------------------------------- nothing counted twice

  /** What a worker recorded so far. */
  function Events(es: seq<Event>, w: WorkerId): Counts {
    if es == [] then Counts(0, 0)
    else
      var n, e := Events(Front(es), w), Last(es);
      if e.Succeed? && e.worker == w then n.(processed := n.processed + 1)
      else if e.Fail? && e.worker == w then n.(failed := n.failed + 1)
      else n
  }

  function Stored(rows: Rows, w: WorkerId): Counts {
    if w in rows then Counts(rows[w].processed, rows[w].failed) else Counts(0, 0)
  }

  function InFlight(w: Worker): Counts {
    if w.flushing.Some? then Counts(w.flushing.value.processed, w.flushing.value.failed) else Counts(0, 0)
  }

  ghost predicate Balanced(s: System, w: WorkerId, n: Counts) {
    if w < |s.workers| then
      var k := s.workers[w];
      var stored, flying := Stored(s.rows, w), InFlight(k);
      && stored.processed + flying.processed + k.memory.processed + k.lost.processed == n.processed
      && stored.failed + flying.failed + k.memory.failed + k.lost.failed == n.failed
      && stored.processed >= 0 && flying.processed >= 0 && k.memory.processed >= 0 && k.lost.processed >= 0
      && stored.failed >= 0 && flying.failed >= 0 && k.memory.failed >= 0 && k.lost.failed >= 0
    else
      w !in s.rows && n == Counts(0, 0)
  }

  lemma BalancedStep(s: System, e: Event, w: WorkerId, n: Counts)
    requires Enabled(s, e) && Balanced(s, w, n)
    ensures Balanced(Apply(s, e), w,
      if e.Succeed? && e.worker == w then n.(processed := n.processed + 1)
      else if e.Fail? && e.worker == w then n.(failed := n.failed + 1)
      else n)
  {
  }

  /**
   * In every interleaving, stored plus in flight plus in memory plus lost makes exactly the
   * recorded events, and no part is negative: nothing is counted twice.
   */
  lemma {:induction false} CountsConserved(es: seq<Event>, w: WorkerId)
    requires Run(es)
    ensures Balanced(Exec(es), w, Events(es, w))
    decreases |es|
  {
    if es != [] {
      CountsConserved(Front(es), w);
      BalancedStep(Exec(Front(es)), Last(es), w, Events(Front(es), w));
    }
  }

  ghost predicate WritesSucceed(es: seq<Event>, w: WorkerId) {
    forall i :: 0 <= i < |es| && es[i].Write? && es[i].worker == w ==> es[i].written
  }

  lemma {:induction false} NothingLost(es: seq<Event>, w: WorkerId)
    requires Run(es) && WritesSucceed(es, w)
    ensures w < |Exec(es).workers| ==> Exec(es).workers[w].lost == Counts(0, 0)
    decreases |es|
  {
    if es != [] {
      NothingLost(Front(es), w);
      assert Last(es).Write? && Last(es).worker == w ==> Last(es).written;
    }
  }

  /** Stored counters never exceed the recorded events; while no write fails the rest is in flight or in memory. */
  lemma StoredCountsAreTrue(es: seq<Event>, w: WorkerId)
    requires Run(es) && w < |Exec(es).workers|
    ensures var stored, n := Stored(Exec(es).rows, w), Events(es, w); stored.processed <= n.processed && stored.failed <= n.failed
    ensures WritesSucceed(es, w) ==>
      var k, stored, n := Exec(es).workers[w], Stored(Exec(es).rows, w), Events(es, w);
      && stored.processed + InFlight(k).processed + k.memory.processed == n.processed
      && stored.failed + InFlight(k).failed + k.memory.failed == n.failed
  {
    CountsConserved(es, w);
    if WritesSucceed(es, w) { NothingLost(es, w); }
  }

  // ---------------------------------------------------------------- what a row keeps

  /** An error state always comes with an error. */
  ghost predicate ErrorsNamed(s: Snapshot) {
    (s.status == "idle" || s.status == "processing" || s.lastError.Some?) && (s.lastJobId.Some? <==> s.lastJobTopic.Some?)
  }

  ghost predicate AllErrorsNamed(s: System) {
    forall w :: 0 <= w < |s.workers| ==>
      ErrorsNamed(s.workers[w].memory) && (s.workers[w].flushing.Some? ==> ErrorsNamed(s.workers[w].flushing.value))
  }

  lemma {:induction false} EveryErrorNamed(es: seq<Event>)
    requires Run(es)
    ensures AllErrorsNamed(Exec(es))
    decreases |es|
  {
    if es != [] { EveryErrorNamed(Front(es)); }
  }

  /** Counters do not fall, and a known job or error is never forgotten. */
  ghost predicate Grows(before: Rows, after: Rows, w: WorkerId) {
    w in before ==>
      && w in after
      && before[w].processed <= after[w].processed && before[w].failed <= after[w].failed
      && (before[w].lastJobId.Some? ==> after[w].lastJobId.Some?)
      && (before[w].lastJobTopic.Some? ==> after[w].lastJobTopic.Some?)
      && (before[w].lastError.Some? ==> after[w].lastError.Some?)
  }

  /** From any moment of a run to any later one every row only grows. */
  lemma {:induction false} RowsGrow(es: seq<Event>, n: nat, w: WorkerId)
    requires Run(es) && n <= |es|
    ensures Run(es[..n]) && Grows(Exec(es[..n]).rows, Exec(es).rows, w)
    decreases |es|
  {
    if n == |es| {
      assert es[..n] == es;
    } else {
      RowsGrow(Front(es), n, w);
      assert Front(es)[..n] == es[..n];
      EveryErrorNamed(Front(es));
    }
  }

  // ---------------------------------------------------------------- what a row shows

  /** Status, last job with its topic, and last error. */
  datatype View = View(status: string, jobId: Option<JobId>, topic: Option<string>, error: Option<string>)

  /** What a worker's own calls add up to. */
  function Shown(es: seq<Event>, w: WorkerId): View {
    if es == [] then View("idle", None, None, None)
    else
      var v := Shown(Front(es), w);
      if Last(es).Start? || Last(es).worker != w then v
      else match Last(es)
        case SetIdle(_) => v.(status := "idle")
        case SetProcessing(_, id, topic) => v.(status := "processing", jobId := Some(id), topic := Some(topic))
        case SetQueueError(_, error) => v.(status := "queue_error", error := Some(error))
        case Succeed(_, id, topic) => v.(status := "idle", jobId := Some(id), topic := Some(topic))
        case Fail(_, id, topic, error) => View("idle", Some(id), Some(topic), Some(error))
        case _ => v
  }

  /** What the worker showed when its flusher last took a snapshot. */
  function ShownAtTake(es: seq<Event>, w: WorkerId): Option<View> {
    if es == [] then None
    else if Last(es).Take? && Last(es).worker == w then Some(Shown(Front(es), w))
    else ShownAtTake(Front(es), w)
  }

  /** What it showed when the snapshot was taken that was last written. */
  function ShownAtWrite(es: seq<Event>, w: WorkerId): Option<View> {
    if es == [] then None
    else if Last(es).Write? && Last(es).worker == w && Last(es).written then ShownAtTake(Front(es), w)
    else ShownAtWrite(Front(es), w)
  }

  function ViewOf(s: Snapshot): View {
    View(s.status, s.lastJobId, s.lastJobTopic, s.lastError)
  }

  /** Jobs and errors, once shown, are only replaced: what was written stays shown. */
  ghost predicate Later(v: View, u: View) {
    && (v.jobId.Some? ==> u.jobId.Some?) && (v.topic.Some? ==> u.topic.Some?) && (v.error.Some? ==> u.error.Some?)
  }

  ghost predicate RowShows(s: System, w: WorkerId, now: View, taken: Option<View>, written: Option<View>) {
    && (w < |s.workers| ==>
          && ViewOf(s.workers[w].memory) == now
          && (s.workers[w].flushing.Some? ==> taken == Some(ViewOf(s.workers[w].flushing.value))))
    && (taken.Some? ==> Later(taken.value, now))
    && (written.Some? ==> taken.Some? && Later(written.value, taken.value))
    && (w in s.rows <==> written.Some?)
    && (w in s.rows ==> written.value == View(s.rows[w].status, s.rows[w].lastJobId, s.rows[w].lastJobTopic, s.rows[w].lastError))
    && (w >= |s.workers| ==> now == View("idle", None, None, None) && taken.None?)
  }

  lemma RowShowsStep(s: System, e: Event, w: WorkerId, es: seq<Event>)
    requires es != [] && e == Last(es) && Enabled(s, e) && AllErrorsNamed(s)
    requires RowShows(s, w, Shown(Front(es), w), ShownAtTake(Front(es), w), ShownAtWrite(Front(es), w))
    ensures RowShows(Apply(s, e), w, Shown(es, w), ShownAtTake(es, w), ShownAtWrite(es, w))
  {
  }

  lemma {:induction false} RowsShow(es: seq<Event>, w: WorkerId)
    requires Run(es)
    ensures RowShows(Exec(es), w, Shown(es, w), ShownAtTake(es, w), ShownAtWrite(es, w))
    decreases |es|
  {
    if es != [] {
      RowsShow(Front(es), w);
      EveryErrorNamed(Front(es));
      RowShowsStep(Exec(Front(es)), Last(es), w, es);
    }
  }

  /**
   * A stored row shows exactly the status, last job and last error its worker had when
   * the snapshot was taken that was last written, whatever came in between or failed.
   */
  lemma RowsShowTheLastWrite(es: seq<Event>, w: WorkerId)
    requires Run(es)
    ensures w in Exec(es).rows <==> ShownAtWrite(es, w).Some?
    ensures w in Exec(es).rows ==>
      var row := Exec(es).rows[w];
      ShownAtWrite(es, w) == Some(View(row.status, row.lastJobId, row.lastJobTopic, row.lastError))
  {
    RowsShow(es, w);
  }

  lemma OtherRowsStay(s: System, e: Event, w: WorkerId)
    requires Enabled(s, e) && (e.Start? || e.worker != w)
    ensures (w in s.rows <==> w in Apply(s, e).rows) && (w in s.rows ==> Apply(s, e).rows[w] == s.rows[w])
  {
  }

  /** The clock of the last write of the worker's row. */
  function WrittenAt(es: seq<Event>, w: WorkerId): Option<int> {
    if es == [] then None
    else if Last(es).Write? && Last(es).worker == w && Last(es).written then Some(Last(es).now)
    else WrittenAt(Front(es), w)
  }

  /** A row's heartbeat is the time of its last write. */
  lemma {:induction false} HeartbeatIsLastWrite(es: seq<Event>, w: WorkerId)
    requires Run(es)
    ensures w in Exec(es).rows <==> WrittenAt(es, w).Some?
    ensures w in Exec(es).rows ==> WrittenAt(es, w) == Some(Exec(es).rows[w].heartbeatAt)
    decreases |es|
  {
    if es != [] { HeartbeatIsLastWrite(Front(es), w); }
  }

  /** As long as a worker's own flusher writes nothing, its row stays as it is, whatever the others do. */
  lemma {:induction false} RowsKeepApart(es: seq<Event>, n: nat, w: WorkerId)
    requires Run(es) && n <= |es| && forall i :: n <= i < |es| ==> !(es[i].Write? && es[i].worker == w)
    ensures Run(es[..n])
    ensures var before, after := Exec(es[..n]).rows, Exec(es).rows;
      (w in before <==> w in after) && (w in before ==> after[w] == before[w])
    decreases |es|
  {
    if n == |es| {
      assert es[..n] == es;
    } else {
      RowsKeepApart(Front(es), n, w);
      assert Front(es)[..n] == es[..n];
      var s, e := Exec(Front(es)), Last(es);
      if e.Start? || e.worker != w { OtherRowsStay(s, e, w); } else { assert Apply(s, e).rows == s.rows; }
    }
  }
}
