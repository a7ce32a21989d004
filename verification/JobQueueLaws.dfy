/**
 * What happens to a job from claim to claim: when its lock is taken for stale, when it is
 * finished for good, and when it comes back.
 */
module JobQueueLaws {
  import opened Wrappers
  import opened JobQueue
  import opened JobQueueBounds
  import opened JobQueueLocks
  import opened JobQueueBackoff
  import opened JobQueueTight

  // ---------------------------------------------------------------- stale locks

  /** The last claim of `j` in the run. */
  ghost function LastClaim(es: seq<Event>, j: JobId): (k: Option<nat>)
    ensures k.Some? ==> k.value < |es| && es[k.value].Claim? && es[k.value].job == j
    ensures forall i :: (if k.Some? then k.value + 1 else 0) <= i < |es| ==> !(es[i].Claim? && es[i].job == j)
  {
    if es == [] then None
    else if Last(es).Claim? && Last(es).job == j then Some(|es| - 1)
    else LastClaim(Front(es), j)
  }

  ghost function ClaimTime(es: seq<Event>, j: JobId): Option<int>
    requires Run(es)
  {
    if LastClaim(es, j).Some? then Some(TimeAt(es, LastClaim(es, j).value)) else None
  }

  ghost predicate LockedSince(s: System, j: JobId, claimed: Option<int>) {
    HasRow(s, j) && s.jobs[j].value.status == Processing ==> claimed.Some? && s.jobs[j].value.lockedAt == claimed
  }

  lemma LockStep(s: System, e: Event, j: JobId, claimed: Option<int>)
    requires Enabled(s, e) && LockedSince(s, j, claimed)
    ensures LockedSince(Apply(s, e), j, if e.Claim? && e.job == j then Some(s.now) else claimed)
  {
  }

  lemma TimeInPrefix(es: seq<Event>, n: nat, k: nat)
    requires Run(es) && k <= n <= |es|
    ensures Run(es[..n]) && TimeAt(es[..n], k) == TimeAt(es, k)
  {
    RunPrefix(es, n);
    assert es[..n][..k] == es[..k];
  }

  lemma ClaimTimeStep(es: seq<Event>, j: JobId)
    requires Run(es) && es != []
    ensures Run(Front(es))
    ensures ClaimTime(es, j) == if Last(es).Claim? && Last(es).job == j then Some(Exec(Front(es)).now) else ClaimTime(Front(es), j)
  {
    var front, n := Front(es), |es| - 1;
    assert es[..n] == front;
    if LastClaim(front, j).Some? { TimeInPrefix(es, n, LastClaim(front, j).value); }
  }

  /** A processing row is locked since the last claim of the job. */
  lemma {:induction false} LocksDateFromClaims(es: seq<Event>, j: JobId)
    requires Run(es)
    ensures LockedSince(Exec(es), j, ClaimTime(es, j))
    decreases |es|
  {
    if es != [] {
      LocksDateFromClaims(Front(es), j);
      ClaimTimeStep(es, j);
      LockStep(Exec(Front(es)), Last(es), j, ClaimTime(Front(es), j));
    }
  }

  /**
   * A recovery changes the row of a job if and only if the job is processing and its last
   * claim lies more than the stale limit back.
   */
  lemma RecoveredIffClaimIsOld(es: seq<Event>, k: nat, j: JobId)
    requires Run(es) && k < |es| && es[k].Recover?
    ensures Run(es[..k]) && Run(es[..k + 1])
    ensures var before, after, claim := Exec(es[..k]), Exec(es[..k + 1]), LastClaim(es[..k], j);
      && |before.jobs| == |after.jobs|
      && (j < |before.jobs| ==>
            (before.jobs[j] != after.jobs[j] <==>
              before.jobs[j].Some? && before.jobs[j].value.status == Processing
              && claim.Some? && TimeAt(es, k) > TimeAt(es, claim.value) + es[k].staleSeconds * 1_000_000))
  {
    RunPrefix(es, k);
    RunPrefix(es, k + 1);
    assert Front(es[..k + 1]) == es[..k] && Last(es[..k + 1]) == es[k];
    LocksDateFromClaims(es[..k], j);
    var claim := LastClaim(es[..k], j);
    if claim.Some? { TimeInPrefix(es, k, claim.value); }
  }

  // ---------------------------------------------------------------- finished jobs

  ghost predicate Finished(s: System, j: JobId) {
    HasRow(s, j) ==> s.jobs[j].value.status == Done || s.jobs[j].value.status == Dead
  }

  /** In a lock-respecting run a finished job is never claimed nor changed to another state before it is re-enqueued. */
  lemma {:induction false} FinishedStaysFinished(es: seq<Event>, n: nat, j: JobId)
    requires Run(es) && LockRespecting(es) && n <= |es|
    requires forall i :: n <= i < |es| ==> !RequeueOf(es[i], j)
    requires Run(es[..n]) && j < |Exec(es[..n]).jobs| && Finished(Exec(es[..n]), j)
    ensures j < |Exec(es).jobs|
    ensures HasRow(Exec(es), j) ==> HasRow(Exec(es[..n]), j) && Exec(es).jobs[j].value.status == Exec(es[..n]).jobs[j].value.status
    ensures forall i :: n <= i < |es| ==> !(es[i].Claim? && es[i].job == j)
    decreases |es|
  {
    if n == |es| {
      assert es[..n] == es;
    } else {
      var front, s, e := Front(es), Exec(Front(es)), Last(es);
      assert front[..n] == es[..n];
      assert forall i :: n <= i < |front| ==> front[i] == es[i];
      FinishedStaysFinished(front, n, j);
      LocksAreExclusive(front);
      if e.MarkDone? || e.Reschedule? { assert Holds(s, e.worker, s.workers[e.worker].job.id); }
    }
  }

  /** Without respect for locks a late failure puts a job that is done back to pending. */
  lemma LateFailureRevives(stale: nat) returns (es: seq<Event>, late: Event)
    ensures Run(es) && UsesLimit(es, stale) && Requeues(es, 0) == 0 && OnlyJob(Exec(es), Done, 1)
    ensures late.Reschedule? && Enabled(Exec(es), late) && OnlyJob(Apply(Exec(es), late), Pending, 1)
  {
    es := Extend([], Insert(None), stale);
    es := ClaimByNewWorker(es, 0, stale);
    es := RecoverByNewWorker(es, 0, stale);
    var w := |Exec(es).workers|;
    es := ClaimByNewWorker(es, 1, stale);
    es := FinishByWorker(es, w, 1, stale);
    late := Reschedule(0, "late failure");
  }

  lemma FinishByWorker(es: seq<Event>, w: WorkerId, k: nat, stale: int) returns (out: seq<Event>)
    requires Run(es) && OnlyJob(Exec(es), Processing, k) && UsesLimit(es, stale)
    requires IsWorker(Exec(es), w) && Exec(es).workers[w] == Handling(Job(0, k))
    ensures Run(out) && OnlyJob(Exec(out), Done, k) && UsesLimit(out, stale) && SameCounts(es, out, 0)
    ensures |Exec(out).workers| == |Exec(es).workers|
    ensures forall v :: 0 <= v < |Exec(es).workers| && v != w ==> Exec(out).workers[v] == Exec(es).workers[v]
  {
    out := Extend(es, MarkDone(w), stale);
  }

  /** After a webhook for its key a job is as new, whatever it was: pending, available, unlocked, with all its attempts. */
  lemma WebhookStartsOver(es: seq<Event>, j: JobId)
    requires Run(es) && es != [] && Last(es) == Webhook(j)
    ensures HasRow(Exec(es), j)
    ensures var row := Exec(es).jobs[j].value;
      && row.status == Pending && row.attempts == 0 && row.availableAt == row.updatedAt == Exec(es).now
      && row.lockedAt.None? && row.lockedBy.None? && row.lastError.None?
      && ClaimsLeft(Exec(es).jobs[j]) == 5 && Eligible(Exec(es).jobs[j], Exec(es).now)
  {
  }
}
