/**
 * Bounds that hold in every interleaving, late writes of expired workers included:
 * how often a job is claimed, how large its attempt count grows, and how long an
 * available job waits.
 */
module JobQueueBounds {
  import opened Wrappers
  import opened JobQueue

  // ---------------------------------------------------------------- the claim potential

  /** Claims a pending row with this attempt count can still lead to. */
  ghost function PendingWeight(attempts: nat): nat
    ensures PendingWeight(attempts) <= 31
  {
    if attempts >= MAX_ATTEMPTS then 1
    else assert Pow2(5) == 32 && Pow2(4) == 16 && Pow2(3) == 8 && Pow2(2) == 4 && Pow2(1) == 2; Pow2(5 - attempts) - 1
  }

  /** Claims that can follow once an attempt started at this count has failed. */
  ghost function RetryWeight(attempts: nat): nat {
    if attempts + 1 >= MAX_ATTEMPTS then 0 else PendingWeight(attempts + 1)
  }

  /** A claim leaves two futures, the row's and the snapshot's, and uses itself up. */
  lemma WeightHalves(attempts: nat)
    ensures PendingWeight(attempts) == 1 + 2 * RetryWeight(attempts)
  {
    if attempts < MAX_ATTEMPTS {
      assert Pow2(5 - attempts) == 2 * Pow2(4 - attempts);
    }
  }

  ghost function RowWeight(slot: Option<JobRow>): nat {
    if slot.None? then 0
    else match slot.value.status
      case Pending => PendingWeight(slot.value.attempts)
      case Processing => RetryWeight(slot.value.attempts)
      case _ => 0
  }

  ghost function SnapshotWeight(j: JobId): Worker -> nat {
    (w: Worker) => if w.Handling? && w.job.id == j then RetryWeight(w.job.attempts) else 0
  }

  ghost function Potential(s: System, j: JobId): nat {
    (if j < |s.jobs| then RowWeight(s.jobs[j]) else 0) + Sum(s.workers, SnapshotWeight(j))
  }

  /** Every snapshot a worker holds names a row that was inserted earlier. */
  ghost predicate SnapshotsKnown(s: System) {
    forall w :: 0 <= w < |s.workers| && s.workers[w].Handling? ==> s.workers[w].job.id < |s.jobs|
  }

  lemma {:induction false} SnapshotsAreKnown(es: seq<Event>)
    requires Run(es)
    ensures SnapshotsKnown(Exec(es))
    decreases |es|
  {
    if es != [] {
      SnapshotsAreKnown(Front(es));
    }
  }

  lemma {:induction false} SumOfNone(ws: seq<Worker>, j: JobId)
    requires forall w :: 0 <= w < |ws| && ws[w].Handling? ==> ws[w].job.id != j
    ensures Sum(ws, SnapshotWeight(j)) == 0
  {
    if ws != [] { SumOfNone(ws[..|ws| - 1], j); }
  }

  /** Replacing one worker changes the sum by that worker's share. */
  lemma PotentialMoves(s: System, t: System, w: WorkerId, j: JobId)
    requires IsWorker(s, w) && |t.workers| == |s.workers| && t.workers == s.workers[w := t.workers[w]]
    requires j < |s.jobs| == |t.jobs|
    ensures Potential(t, j) + RowWeight(s.jobs[j]) + SnapshotWeight(j)(s.workers[w])
         == Potential(s, j) + RowWeight(t.jobs[j]) + SnapshotWeight(j)(t.workers[w])
  {
    SumUpdate(s.workers, w, t.workers[w], SnapshotWeight(j));
  }

  predicate ByWorker(e: Event) {
    e.Recover? || e.Claim? || e.ClaimNothing? || e.MarkDone? || e.Reschedule? || e.InsertAudit? || e.Abort?
  }

  lemma PotentialOfWorker(s: System, e: Event, j: JobId)
    requires Enabled(s, e) && ByWorker(e) && j < |s.jobs|
    ensures Potential(Apply(s, e), j) + (if ClaimOf(j)(e) then 1 else 0) <= Potential(s, j)
  {
    PotentialMoves(s, Apply(s, e), e.worker, j);
    if e.Claim? { WeightHalves(s.jobs[e.job].value.attempts); }
  }

  lemma PotentialOfRest(s: System, e: Event, j: JobId)
    requires Enabled(s, e) && !ByWorker(e) && j < |s.jobs|
    ensures Potential(Apply(s, e), j) <= Potential(s, j) + (if WebhookOf(j)(e) || InviteOf(j)(e) then 31 else 0)
  {
    if e.Start? { SumAppend(s.workers, Polling, SnapshotWeight(j)); }
  }

  /** The change one event makes to the potential of job `j`. */
  lemma PotentialStep(s: System, e: Event, j: JobId)
    requires Enabled(s, e)
    requires j < |s.jobs|
    ensures Potential(Apply(s, e), j) + (if ClaimOf(j)(e) then 1 else 0)
         <= Potential(s, j) + (if WebhookOf(j)(e) || InviteOf(j)(e) then 31 else 0)
  {
    if ByWorker(e) { PotentialOfWorker(s, e, j); } else { PotentialOfRest(s, e, j); }
  }

  lemma {:induction false} ClaimPotential(es: seq<Event>, j: JobId)
    requires Run(es)
    ensures j < |Exec(es).jobs| ==>
      Count(es, ClaimOf(j)) + Potential(Exec(es), j) <= 31 * (1 + Requeues(es, j))
    ensures j >= |Exec(es).jobs| ==> Count(es, ClaimOf(j)) == 0 && Requeues(es, j) == 0
    decreases |es|
  {
    if es != [] {
      var s := Exec(Front(es));
      ClaimPotential(Front(es), j);
      SnapshotsAreKnown(Front(es));
      if j < |s.jobs| {
        PotentialStep(s, Last(es), j);
      } else if j < |Exec(es).jobs| {
        SumOfNone(s.workers, j);
      }
    }
  }

  /**
   * Any interleaving, any number of workers: a job is claimed at most 31 times for
   * its insertion and for each re-enqueue of it.
   */
  lemma ClaimsBounded(es: seq<Event>, j: JobId)
    requires Run(es)
    ensures Count(es, ClaimOf(j)) <= 31 * (1 + Requeues(es, j))
  {
    ClaimPotential(es, j);
  }

  // ---------------------------------------------------------------- attempt counts

  ghost predicate RowWithin(s: System, j: JobId, invites: nat) {
    HasRow(s, j) ==>
      var row := s.jobs[j].value;
      && row.attempts <= 5 + invites
      && (row.status == Pending || row.status == Processing ==> row.attempts <= 4 + invites)
      && (row.status == Dead ==> row.attempts >= 5)
  }

  ghost predicate SnapshotsWithin(s: System, j: JobId, invites: nat) {
    forall w :: 0 <= w < |s.workers| && s.workers[w].Handling? && s.workers[w].job.id == j ==>
      s.workers[w].job.attempts <= 4 + invites
  }

  ghost predicate AttemptsWithin(s: System, j: JobId, invites: nat) {
    RowWithin(s, j, invites) && SnapshotsWithin(s, j, invites)
  }

  lemma RowStep(s: System, e: Event, j: JobId, invites: nat)
    requires Enabled(s, e) && AttemptsWithin(s, j, invites)
    ensures RowWithin(Apply(s, e), j, invites + (if InviteOf(j)(e) then 1 else 0))
  {
  }

  lemma SnapshotsStep(s: System, e: Event, j: JobId, invites: nat)
    requires Enabled(s, e) && AttemptsWithin(s, j, invites) && SnapshotsKnown(s)
    ensures SnapshotsWithin(Apply(s, e), j, invites + (if InviteOf(j)(e) then 1 else 0))
  {
  }

  /**
   * Pending and processing rows and every snapshot stay at 4 plus the job's resent
   * invitations, all rows at 5 plus those, and a dead row has at least 5.
   */
  lemma {:induction false} AttemptsBounded(es: seq<Event>, j: JobId)
    requires Run(es)
    ensures AttemptsWithin(Exec(es), j, Count(es, InviteOf(j)))
    decreases |es|
  {
    if es != [] {
      AttemptsBounded(Front(es), j);
      SnapshotsAreKnown(Front(es));
      RowStep(Exec(Front(es)), Last(es), j, Count(Front(es), InviteOf(j)));
      SnapshotsStep(Exec(Front(es)), Last(es), j, Count(Front(es), InviteOf(j)));
    }
  }
}
