/**
 * Lock-respecting runs: no lock is recovered while its holder is alive, and no
 * re-enqueue hits a processing row.  A crashed worker just drops its snapshot.
 */
module JobQueueLocks {
  import opened Wrappers
  import opened JobQueue
  import opened JobQueueBounds

  ghost predicate Holds(s: System, w: WorkerId, j: JobId) {
    IsWorker(s, w) && s.workers[w].Handling? && s.workers[w].job.id == j
  }

  ghost predicate RespectsLocks(s: System, e: Event) {
    match e
    case Recover(_, stale, order) => forall w: WorkerId, j: JobId :: j in order ==> !Holds(s, w, j)
    case Webhook(j) => HasRow(s, j) ==> s.jobs[j].value.status != Processing
    case Invite(j) => HasRow(s, j) ==> s.jobs[j].value.status != Processing
    case _ => true
  }

  ghost predicate LockRespecting(es: seq<Event>)
    requires Run(es)
    decreases |es|
  {
    es == [] || (LockRespecting(Front(es)) && RespectsLocks(Exec(Front(es)), Last(es)))
  }

  ghost predicate Exclusive(s: System) {
    forall w: WorkerId, j: JobId :: Holds(s, w, j) && HasRow(s, j) ==>
      var row := s.jobs[j].value;
      row.status == Processing && row.lockedBy == Some(w) && row.attempts == s.workers[w].job.attempts
  }

  lemma ExclusiveStep(s: System, e: Event)
    requires Enabled(s, e) && RespectsLocks(s, e)
    requires SnapshotsKnown(s) && Exclusive(s)
    ensures Exclusive(Apply(s, e))
  {
    var t := Apply(s, e);
    forall w: WorkerId, j: JobId | Holds(t, w, j) && HasRow(t, j)
      ensures t.jobs[j].value.status == Processing && t.jobs[j].value.lockedBy == Some(w)
      ensures t.jobs[j].value.attempts == t.workers[w].job.attempts
    {
      if !(e.Claim? && e.worker == w) {
        assert Holds(s, w, j);
      }
    }
  }

  /**
   * In a lock-respecting run a live holder of an existing row is the worker named in
   * locked_by, the row is processing, and the snapshot agrees with it.
   */
  lemma {:induction false} LocksAreExclusive(es: seq<Event>)
    requires Run(es) && LockRespecting(es)
    ensures Exclusive(Exec(es))
    decreases |es|
  {
    if es != [] {
      LocksAreExclusive(Front(es));
      SnapshotsAreKnown(Front(es));
      ExclusiveStep(Exec(Front(es)), Last(es));
    }
  }

  /** So a row has at most one live holder, and none unless it is processing. */
  lemma AtMostOneHolder(es: seq<Event>, j: JobId, v: WorkerId, w: WorkerId)
    requires Run(es) && LockRespecting(es) && HasRow(Exec(es), j)
    requires Holds(Exec(es), v, j) && Holds(Exec(es), w, j)
    ensures v == w
    ensures Exec(es).jobs[j].value.status == Processing && Exec(es).jobs[j].value.lockedBy == Some(v)
  {
    LocksAreExclusive(es);
  }

  // ---------------------------------------------------------------- five claims

  /** Claims still possible for a row when nobody else holds a snapshot of it. */
  ghost function ClaimsLeft(slot: Option<JobRow>): nat {
    if slot.None? then 0
    else var k := slot.value.attempts;
      match slot.value.status
      case Pending => if k >= MAX_ATTEMPTS then 1 else MAX_ATTEMPTS - k
      case Processing => if k + 1 >= MAX_ATTEMPTS then 0 else MAX_ATTEMPTS - (k + 1)
      case _ => 0
  }

  lemma {:induction false} ClaimsLeftSuffice(es: seq<Event>, j: JobId)
    requires Run(es) && LockRespecting(es)
    ensures j < |Exec(es).jobs| ==>
      Count(es, ClaimOf(j)) + ClaimsLeft(Exec(es).jobs[j]) <= 5 * (1 + Requeues(es, j))
    ensures j >= |Exec(es).jobs| ==> Count(es, ClaimOf(j)) == 0 && Requeues(es, j) == 0
    decreases |es|
  {
    if es != [] {
      var s, e := Exec(Front(es)), Last(es);
      ClaimsLeftSuffice(Front(es), j);
      LocksAreExclusive(Front(es));
      SnapshotsAreKnown(Front(es));
      if e.MarkDone? || e.Reschedule? {
        assert Holds(s, e.worker, s.workers[e.worker].job.id);
      }
    }
  }

  /** A lock-respecting run claims a job at most 5 times per insertion or re-enqueue. */
  lemma FiveClaims(es: seq<Event>, j: JobId)
    requires Run(es) && LockRespecting(es)
    ensures Count(es, ClaimOf(j)) <= 5 * (1 + Requeues(es, j))
  {
    ClaimsLeftSuffice(es, j);
  }

  // ---------------------------------------------------------------- the audit trail

  /** Audit rows that record a failed attempt of `j`. */
  ghost function Failures(rows: seq<AuditRow>, j: JobId): nat {
    if rows == [] then 0
    else Failures(rows[..|rows| - 1], j) + (if FailureOf(rows[|rows| - 1], j) then 1 else 0)
  }

  ghost predicate FailureOf(row: AuditRow, j: JobId) {
    row.job == j && row.action != Processed
  }

  lemma {:induction false} FailuresConcat(a: seq<AuditRow>, b: seq<AuditRow>, j: JobId)
    ensures Failures(a + b, j) == Failures(a, j) + Failures(b, j)
    decreases |b|
  {
    if b == [] {
      assert a + b == a;
    } else {
      assert (a + b)[..|a + b| - 1] == a + b[..|b| - 1];
      FailuresConcat(a, b[..|b| - 1], j);
    }
  }

  ghost function UnsavedFailures(j: JobId): Worker -> nat {
    (w: Worker) => Failures(Unsaved(w), j)
  }

  /** Failed attempts of `j` that are recorded, about to be recorded, or lost. */
  ghost function AccountedFailures(s: System, j: JobId): nat {
    Failures(s.audit, j) + Failures(s.lost, j) + Sum(s.workers, UnsavedFailures(j))
  }

  /** The audit rows of one recovery name each recovered job exactly once. */
  lemma {:induction false} StaleAuditsOnce(jobs: Table, order: seq<JobId>, worker: WorkerId, j: JobId)
    requires forall a :: 0 <= a < |order| ==> order[a] < |jobs| && jobs[order[a]].Some?
    requires forall a, b :: 0 <= a < b < |order| ==> order[a] != order[b]
    ensures Failures(StaleAudits(jobs, order, worker), j) == if j in order then 1 else 0
  {
    if order != [] {
      StaleAuditsOnce(jobs, order[1..], worker, j);
      FailuresConcat([StaleAudit(jobs, order[0], worker)], StaleAudits(jobs, order[1..], worker), j);
      FailuresOfOne(StaleAudit(jobs, order[0], worker), j);
    }
  }

  ghost function FailedNow(s: System, e: Event, j: JobId): nat
    requires Enabled(s, e)
  {
    match e
    case Recover(_, _, order) => if j in order then 1 else 0
    case Reschedule(w, _) => if s.workers[w].job.id == j then 1 else 0
    case _ => 0
  }

  /** Replacing one worker changes the account by what that worker, the log and the losses gain. */
  lemma AccountMoves(s: System, t: System, w: WorkerId, j: JobId)
    requires IsWorker(s, w) && |t.workers| == |s.workers|
    requires t.workers == s.workers[w := t.workers[w]]
    ensures AccountedFailures(t, j) + Failures(s.audit, j) + Failures(s.lost, j) + Failures(Unsaved(s.workers[w]), j)
         == AccountedFailures(s, j) + Failures(t.audit, j) + Failures(t.lost, j) + Failures(Unsaved(t.workers[w]), j)
  {
    SumUpdate(s.workers, w, t.workers[w], UnsavedFailures(j));
  }

  lemma FailuresOfOne(row: AuditRow, j: JobId)
    ensures Failures([row], j) == if FailureOf(row, j) then 1 else 0
  {
    assert [row][..0] == [];
  }

  lemma FailuresMove(log: seq<AuditRow>, todo: seq<AuditRow>, j: JobId)
    requires todo != []
    ensures Failures(log + [todo[0]], j) + Failures(todo[1..], j) == Failures(log, j) + Failures(todo, j)
  {
    assert todo == [todo[0]] + todo[1..];
    FailuresConcat([todo[0]], todo[1..], j);
    FailuresConcat(log, [todo[0]], j);
  }

  lemma AuditMoves(s: System, w: WorkerId, j: JobId)
    requires Enabled(s, InsertAudit(w))
    ensures AccountedFailures(Apply(s, InsertAudit(w)), j) == AccountedFailures(s, j)
  {
    var t := Apply(s, InsertAudit(w));
    AccountMoves(s, t, w, j);
    FailuresMove(s.audit, Unsaved(s.workers[w]), j);
    assert Unsaved(t.workers[w]) == Unsaved(s.workers[w])[1..];
  }

  /** Claiming and finishing: the log and the losses stay. */
  lemma AccountOfWorker(s: System, e: Event, j: JobId)
    requires Enabled(s, e) && (e.Claim? || e.ClaimNothing? || e.MarkDone? || e.Reschedule?)
    ensures AccountedFailures(Apply(s, e), j) == AccountedFailures(s, j) + FailedNow(s, e, j)
  {
    var t := Apply(s, e);
    AccountMoves(s, t, e.worker, j);
    if t.workers[e.worker].Recording? { FailuresOfOne(t.workers[e.worker].row, j); }
  }

  lemma AccountOfRest(s: System, e: Event, j: JobId)
    requires Enabled(s, e) && !(e.Claim? || e.ClaimNothing? || e.MarkDone? || e.Reschedule? || e.InsertAudit?)
    ensures AccountedFailures(Apply(s, e), j) == AccountedFailures(s, j) + FailedNow(s, e, j)
  {
    match e
    case Start => SumAppend(s.workers, Polling, UnsavedFailures(j));
    case Recover(w, stale, order) =>
      AccountMoves(s, Apply(s, e), w, j);
      StaleAuditsOnce(s.jobs, order, w, j);
    case Abort(w, _) =>
      AccountMoves(s, Apply(s, e), w, j);
      FailuresConcat(s.lost, Unsaved(s.workers[w]), j);
    case _ =>
  }

  /** An event adds to the account of `j` exactly the failure it causes. */
  lemma AccountStep(s: System, e: Event, j: JobId)
    requires Enabled(s, e)
    ensures AccountedFailures(Apply(s, e), j) == AccountedFailures(s, j) + FailedNow(s, e, j)
  {
    if e.InsertAudit? {
      AuditMoves(s, e.worker, j);
    } else if e.Claim? || e.ClaimNothing? || e.MarkDone? || e.Reschedule? {
      AccountOfWorker(s, e, j);
    } else {
      AccountOfRest(s, e, j);
    }
  }

  /**
   * In a lock-respecting run in which no webhook resets the job, its attempt count is
   * the number of its failure audit rows, plus those still to be inserted, plus those
   * lost with their worker or a failed insert.
   */
  lemma {:induction false} AttemptsAreAudited(es: seq<Event>, j: JobId)
    requires Run(es) && LockRespecting(es)
    requires Count(es, WebhookOf(j)) == 0
    ensures HasRow(Exec(es), j) ==> Exec(es).jobs[j].value.attempts == AccountedFailures(Exec(es), j)
    ensures j >= |Exec(es).jobs| ==> AccountedFailures(Exec(es), j) == 0
    decreases |es|
  {
    if es != [] {
      var s, e := Exec(Front(es)), Last(es);
      AttemptsAreAudited(Front(es), j);
      LocksAreExclusive(Front(es));
      SnapshotsAreKnown(Front(es));
      AccountStep(s, e, j);
      if e.Reschedule? {
        assert Holds(s, e.worker, s.workers[e.worker].job.id);
      }
    }
  }
}
