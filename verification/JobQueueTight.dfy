/** The bound of 31 claims is exact: workers that outlive their locks can reach it. */
module JobQueueTight {
  import opened Wrappers
  import opened JobQueue
  import opened JobQueueBounds

  ghost predicate SameCounts(es: seq<Event>, out: seq<Event>, claims: nat) {
    && Count(out, ClaimOf(0)) == Count(es, ClaimOf(0)) + claims
    && Requeues(out, 0) == Requeues(es, 0)
  }

  /** Every recovery of the run works with this stale limit. */
  ghost predicate UsesLimit(es: seq<Event>, stale: int) {
    forall i :: 0 <= i < |es| && es[i].Recover? ==> es[i].staleSeconds == stale
  }

  lemma CountOneMore(es: seq<Event>, e: Event, p: Event -> bool)
    ensures Count(es + [e], p) == Count(es, p) + (if p(e) then 1 else 0)
  {
    assert Front(es + [e]) == es;
  }

  lemma Extend(es: seq<Event>, e: Event, stale: int) returns (out: seq<Event>)
    requires Run(es) && Enabled(Exec(es), e) && UsesLimit(es, stale)
    requires !e.Webhook? && !e.Invite? && (e.Recover? ==> e.staleSeconds == stale)
    ensures Run(out) && Exec(out) == Apply(Exec(es), e) && UsesLimit(out, stale)
    ensures SameCounts(es, out, if e.Claim? && e.job == 0 then 1 else 0)
  {
    out := es + [e];
    assert Front(out) == es && Last(out) == e;
    CountOneMore(es, e, ClaimOf(0));
    CountOneMore(es, e, WebhookOf(0));
    CountOneMore(es, e, InviteOf(0));
  }

  ghost predicate OnlyJob(s: System, status: Status, attempts: nat) {
    && |s.jobs| == 1 && s.jobs[0].Some?
    && s.jobs[0].value.status == status && s.jobs[0].value.attempts == attempts
  }

  ghost predicate WorkersKept(s: System, t: System) {
    |s.workers| <= |t.workers| && forall w :: 0 <= w < |s.workers| ==> t.workers[w] == s.workers[w]
  }

  /** Time passes and a new worker polls. */
  lemma NewWorker(es: seq<Event>, to: int, stale: int) returns (out: seq<Event>)
    requires Run(es) && Exec(es).now <= to && UsesLimit(es, stale)
    ensures Run(out) && SameCounts(es, out, 0) && UsesLimit(out, stale)
    ensures Exec(out) == Exec(es).(now := to, workers := Exec(es).workers + [Polling])
  {
    out := Extend(es, Tick(to), stale);
    out := Extend(out, Start, stale);
  }

  /** A new worker claims the only job, as soon as it is available. */
  lemma ClaimByNewWorker(es: seq<Event>, k: nat, stale: nat) returns (out: seq<Event>)
    requires Run(es) && OnlyJob(Exec(es), Pending, k) && UsesLimit(es, stale)
    ensures Run(out) && OnlyJob(Exec(out), Processing, k) && SameCounts(es, out, 1) && UsesLimit(out, stale)
    ensures WorkersKept(Exec(es), Exec(out)) && |Exec(out).workers| == |Exec(es).workers| + 1
    ensures Exec(out).workers[|Exec(es).workers|] == Handling(Job(0, k))
    ensures Exec(out).jobs[0].value.lockedAt == Some(Exec(out).now)
  {
    var s := Exec(es);
    var w, at := |s.workers|, s.jobs[0].value.availableAt;
    out := NewWorker(es, if at > s.now then at else s.now, stale);
    NothingStale(Exec(out).jobs, Exec(out).now, stale);
    out := Extend(out, Recover(w, stale, []), stale);
    out := Extend(out, Claim(w, 0), stale);
  }

  lemma NothingStale(jobs: Table, now: int, stale: int)
    requires |jobs| == 1 && jobs[0].Some? && jobs[0].value.status == Pending
    ensures StaleOrder([], jobs, now, stale) && RecoverTable(jobs, now, stale) == jobs
  {
  }

  /** Another new worker takes the lock for stale and puts the job back. */
  lemma RecoverByNewWorker(es: seq<Event>, k: nat, stale: nat) returns (out: seq<Event>)
    requires Run(es) && OnlyJob(Exec(es), Processing, k) && k + 1 < MAX_ATTEMPTS && UsesLimit(es, stale)
    requires Exec(es).jobs[0].value.lockedAt == Some(Exec(es).now)
    ensures Run(out) && OnlyJob(Exec(out), Pending, k + 1) && SameCounts(es, out, 0) && UsesLimit(out, stale)
    ensures WorkersKept(Exec(es), Exec(out))
  {
    var s := Exec(es);
    out := NewWorker(es, s.now + stale * SECOND + 1, stale);
    out := Extend(out, Recover(|s.workers|, stale, [0]), stale);
  }

  /** From a pending job at count `k`, a run in which every claim its weight allows happens. */
  lemma {:induction false} UseUp(es: seq<Event>, k: nat, stale: nat) returns (out: seq<Event>)
    requires Run(es) && k < MAX_ATTEMPTS && OnlyJob(Exec(es), Pending, k) && UsesLimit(es, stale)
    ensures Run(out) && OnlyJob(Exec(out), Dead, 5) && SameCounts(es, out, PendingWeight(k)) && UsesLimit(out, stale)
    ensures WorkersKept(Exec(es), Exec(out))
    decreases MAX_ATTEMPTS - k
  {
    var w := |Exec(es).workers|;
    WeightHalves(k);
    out := ClaimByNewWorker(es, k, stale);
    if k + 1 < MAX_ATTEMPTS {
      out := RecoverByNewWorker(out, k, stale);
      out := UseUp(out, k + 1, stale);
      assert Exec(out).workers[w] == Handling(Job(0, k));
      out := Extend(out, Reschedule(w, "late failure"), stale);
      out := UseUp(out, k + 1, stale);
    } else {
      out := Extend(out, Reschedule(w, "late failure"), stale);
    }
  }

  /** Whatever the stale limit, some run that recovers by it, without re-enqueues, claims one job 31 times. */
  lemma ThirtyOneClaimsReached(stale: nat)
    ensures exists es :: Run(es) && UsesLimit(es, stale) && Requeues(es, 0) == 0 && Count(es, ClaimOf(0)) == 31
  {
    var es := Extend([], Insert(None), stale);
    es := UseUp(es, 0, stale);
    assert PendingWeight(0) == 31 by {
      assert Pow2(1) == 2 && Pow2(2) == 4 && Pow2(3) == 8 && Pow2(4) == 16 && Pow2(5) == 32;
    }
  }
}
