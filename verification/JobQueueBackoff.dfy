/** How far apart the claims and the failures of one job are. */
module JobQueueBackoff {
  import opened Wrappers
  import opened JobQueue
  import opened JobQueueBounds
  import opened JobQueueLocks

  ghost predicate RequeueOf(e: Event, j: JobId) {
    (e.Webhook? || e.Invite?) && e.job == j
  }

  /** The clock when event `k` of the run happens. */
  ghost function TimeAt(es: seq<Event>, k: nat): int
    requires Run(es) && k <= |es|
  {
    RunPrefix(es, k);
    Exec(es[..k]).now
  }

  /** After a claim at `since`, and until a re-enqueue, a pending row is not available for 10 s. */
  ghost predicate CoolingDown(s: System, j: JobId, since: int) {
    && since <= s.now && j < |s.jobs|
    && (HasRow(s, j) && s.jobs[j].value.status == Pending ==> s.jobs[j].value.availableAt >= since + 10 * SECOND)
  }

  lemma CoolingStep(s: System, e: Event, j: JobId, since: int)
    requires Enabled(s, e) && CoolingDown(s, j, since) && !RequeueOf(e, j)
    ensures CoolingDown(Apply(s, e), j, since)
    ensures e.Claim? && e.job == j ==> s.now >= since + 10 * SECOND
  {
    RetryDelaySchedule(1);
    match e
    case Reschedule(w, _) => RetryDelaySchedule(s.workers[w].job.attempts + 1);
    case _ =>
  }

  lemma {:induction false} StillCooling(es: seq<Event>, a: nat, b: nat, j: JobId)
    requires Run(es) && a < b <= |es|
    requires es[a].Claim? && es[a].job == j
    requires forall k :: a < k < b ==> !RequeueOf(es[k], j)
    ensures Run(es[..b]) && CoolingDown(Exec(es[..b]), j, TimeAt(es, a))
    decreases b
  {
    RunPrefix(es, b);
    assert Front(es[..b]) == es[..b - 1] && Last(es[..b]) == es[b - 1];
    if a < b - 1 {
      StillCooling(es, a, b - 1, j);
      CoolingStep(Exec(es[..b - 1]), es[b - 1], j, TimeAt(es, a));
    }
  }

  /**
   * Any interleaving: two claims of a job with no re-enqueue of it in between are at
   * least 10 seconds apart.
   */
  lemma ClaimsTenSecondsApart(es: seq<Event>, a: nat, b: nat, j: JobId)
    requires Run(es) && a < b < |es|
    requires es[a].Claim? && es[a].job == j && es[b].Claim? && es[b].job == j
    requires forall k :: a < k < b ==> !RequeueOf(es[k], j)
    ensures TimeAt(es, b) >= TimeAt(es, a) + 10 * SECOND
  {
    StillCooling(es, a, b, j);
    RunPrefix(es, b + 1);
    assert Front(es[..b + 1]) == es[..b] && Last(es[..b + 1]) == es[b];
    CoolingStep(Exec(es[..b]), es[b], j, TimeAt(es, a));
  }

  // ---------------------------------------------------------------- five failures

  /** A reported failure of job `j`. */
  ghost predicate FailureEvent(s: System, e: Event, j: JobId) {
    e.Reschedule? && Holds(s, e.worker, j)
  }

  /** An event that is neither a re-enqueue nor a stale recovery of `j`. */
  ghost predicate Undisturbed(e: Event, j: JobId) {
    !RequeueOf(e, j) && (e.Recover? ==> j !in e.order)
  }

  ghost predicate UndisturbedRun(es: seq<Event>, j: JobId) {
    forall k :: 0 <= k < |es| ==> Undisturbed(es[k], j)
  }

  /** How many failures of `j` the run reports. */
  ghost function FailureCount(es: seq<Event>, j: JobId): nat
    requires Run(es)
    decreases |es|
  {
    if es == [] then 0
    else FailureCount(Front(es), j) + (if FailureEvent(Exec(Front(es)), Last(es), j) then 1 else 0)
  }

  /** The clock of the first reported failure of `j`. */
  ghost function FirstFailure(es: seq<Event>, j: JobId): int
    requires Run(es) && FailureCount(es, j) > 0
    decreases |es|
  {
    if FailureCount(Front(es), j) > 0 then FirstFailure(Front(es), j) else Exec(Front(es)).now
  }

  /** Seconds of back-off that `k` failures in a row add up to. */
  ghost function Waited(k: nat): int {
    if k == 0 then 0 else Waited(k - 1) + RetryDelaySeconds(k)
  }

  /** The row of `j` after `n` failures, the first of them at `first`, with back-off in between. */
  ghost predicate Spread(s: System, j: JobId, n: nat, first: int) {
    && (j >= |s.jobs| ==> n == 0)
    && (HasRow(s, j) ==>
          var row := s.jobs[j].value;
          && row.attempts == n
          && (n > 0 ==> first <= s.now)
          && (n > 0 && row.status == Pending ==> row.availableAt >= first + Waited(n) * SECOND)
          && (n > 0 && row.status == Processing ==> s.now >= first + Waited(n) * SECOND)
          && (n > 0 && row.status == Dead ==> s.now >= first + Waited(n - 1) * SECOND))
  }

  lemma SpreadStep(s: System, e: Event, j: JobId, n: nat, first: int)
    requires Enabled(s, e) && Undisturbed(e, j)
    requires SnapshotsKnown(s) && Exclusive(s)
    requires Spread(s, j, n, first)
    ensures FailureEvent(s, e, j) ==> Spread(Apply(s, e), j, n + 1, if n > 0 then first else s.now)
    ensures !FailureEvent(s, e, j) ==> Spread(Apply(s, e), j, n, first)
  {
    if e.Reschedule? || e.MarkDone? {
      assert Holds(s, e.worker, s.workers[e.worker].job.id);
    }
    if e.Reschedule? && HasRow(s, j) && n == 0 {
      assert Waited(1) == Waited(0) + RetryDelaySeconds(1);
    }
  }

  lemma {:induction false} FailuresSpread(es: seq<Event>, j: JobId)
    requires Run(es) && LockRespecting(es) && UndisturbedRun(es, j)
    ensures Spread(Exec(es), j, FailureCount(es, j), if FailureCount(es, j) > 0 then FirstFailure(es, j) else 0)
    decreases |es|
  {
    if es != [] {
      UndisturbedFront(es, j);
      FailuresSpread(Front(es), j);
      LocksAreExclusive(Front(es));
      SnapshotsAreKnown(Front(es));
      var n := FailureCount(Front(es), j);
      SpreadStep(Exec(Front(es)), Last(es), j, n, if n > 0 then FirstFailure(Front(es), j) else 0);
    }
  }

  lemma UndisturbedFront(es: seq<Event>, j: JobId)
    requires es != [] && UndisturbedRun(es, j)
    ensures UndisturbedRun(Front(es), j) && Undisturbed(Last(es), j)
  {
    assert forall k :: 0 <= k < |es| - 1 ==> Front(es)[k] == es[k];
    assert Undisturbed(es[|es| - 1], j);
  }

  /**
   * In a lock-respecting run, a job that dies with no stale recovery and no re-enqueue
   * has failed exactly five times, and its first and fifth failures are at least 150
   * seconds apart.
   */
  lemma DeathTakesFiveSpreadFailures(es: seq<Event>, j: JobId)
    requires Run(es) && LockRespecting(es) && UndisturbedRun(es, j)
    requires es != [] && HasRow(Exec(Front(es)), j) && FailureEvent(Exec(Front(es)), Last(es), j)
    requires Exec(es).jobs[j].value.status == Dead
    ensures FailureCount(es, j) == 5
    ensures Exec(Front(es)).now >= FirstFailure(es, j) + 150 * SECOND
  {
    var s := Exec(Front(es));
    FailuresSpread(es, j);
    UndisturbedFront(es, j);
    FailuresSpread(Front(es), j);
    LocksAreExclusive(Front(es));
    AttemptsBounded(es, j);
    NoInvites(es, j);
    assert Waited(4) == 150 by {
      RetryDelaySchedule(1); RetryDelaySchedule(2); RetryDelaySchedule(3);
      assert Waited(1) == 10 && Waited(2) == 30 && Waited(3) == 70;
    }
  }

  lemma {:induction false} NoInvites(es: seq<Event>, j: JobId)
    requires UndisturbedRun(es, j)
    ensures Count(es, InviteOf(j)) == 0
  {
    if es != [] {
      UndisturbedFront(es, j);
      NoInvites(Front(es), j);
    }
  }
}
