/**
 * The queue's calls as they write the tables, one after the other.  Each method is
 * proved against the row updates the state machine uses.
 */
module JobStore {
  import opened Wrappers
  import opened Text
  import opened ReplyMarker
  import opened JobQueue
  import opened JobQueueBounds

  /** The unique index on dedupe_key: NULL keys may repeat, others may not. */
  ghost predicate UniqueKeys(jobs: Table) {
    forall i, k :: 0 <= i < k < |jobs| && jobs[i].Some? && jobs[k].Some? && jobs[i].value.dedupeKey.Some?
      ==> jobs[i].value.dedupeKey != jobs[k].value.dedupeKey
  }

  lemma KeysStep(s: System, e: Event)
    requires Enabled(s, e) && UniqueKeys(s.jobs)
    ensures UniqueKeys(Apply(s, e).jobs)
  {
    var jobs, after := s.jobs, Apply(s, e).jobs;
    assert forall i :: 0 <= i < |jobs| && after[i].Some? ==> jobs[i].Some? && after[i].value.dedupeKey == jobs[i].value.dedupeKey;
    assert |after| == |jobs| || e.Insert?;
  }

  /** No event of any run breaks the index: rows keep their keys, and a row is inserted only under a key no row has. */
  lemma {:induction false} KeysStayUnique(es: seq<Event>)
    requires Run(es)
    ensures UniqueKeys(Exec(es).jobs)
    decreases |es|
  {
    if es != [] {
      KeysStayUnique(Front(es));
      KeysStep(Exec(Front(es)), Last(es));
    }
  }

  predicate CarriesKey(slot: Option<JobRow>, key: string) {
    slot.Some? && slot.value.dedupeKey == Some(key)
  }

  /** The row an ON CONFLICT clause finds. */
  method FindKey(jobs: Table, key: string) returns (found: Option<JobId>)
    ensures found.Some? ==> found.value < |jobs| && CarriesKey(jobs[found.value], key)
    ensures found.None? ==> forall i :: 0 <= i < |jobs| ==> !CarriesKey(jobs[i], key)
  {
    for i := 0 to |jobs|
      invariant forall k :: 0 <= k < i ==> !CarriesKey(jobs[k], key)
    {
      if CarriesKey(jobs[i], key) { return Some(i); }
    }
    return None;
  }

  /** `ORDER BY created_at LIMIT 1`: a claimable row, or the certainty that there is none. */
  method PickOldest(jobs: Table, now: int) returns (pick: Option<JobId>)
    ensures pick.Some? ==> Claimable(jobs, pick.value, now)
    ensures pick.None? <==> forall i :: 0 <= i < |jobs| ==> !Eligible(jobs[i], now)
    ensures pick.Some? <==> exists i :: 0 <= i < |jobs| && jobs[i].Some? && jobs[i].value.status == Pending && jobs[i].value.availableAt <= now
  {
    pick := None;
    for i := 0 to |jobs|
      invariant pick.None? ==> forall k :: 0 <= k < i ==> !Eligible(jobs[k], now)
      invariant pick.Some? ==> pick.value < i && Eligible(jobs[pick.value], now)
      invariant pick.Some? ==> forall k :: 0 <= k < i && Eligible(jobs[k], now) ==> jobs[pick.value].value.createdAt <= jobs[k].value.createdAt
    {
      if Eligible(jobs[i], now) {
        if pick.None? || jobs[i].value.createdAt < jobs[pick.value].value.createdAt {
          pick := Some(i);
        }
      }
    }
  }

  // ---------------------------------------------------------------- webhook keys

  /** The audit entry of a webhook that was queued. */
  datatype Queued = Queued(project: string, job: JobId, issueIid: int, syncComments: bool, eventType: string, dedupeKey: string)

  function Integer(n: int): string {
    if n < 0 then "-" + Decimal(-n) else Decimal(n)
  }

  function WebhookKey(project: string, issueIid: int, syncComments: bool): string {
    "gitlab-webhook:" + (project + (":" + (Integer(issueIid) + (":" + (if syncComments then "comments" else "issue")))))
  }

  lemma IntegerIsExact(m: int, n: int)
    requires Integer(m) == Integer(n)
    ensures m == n
  {
    assert m < 0 ==> Integer(m)[0] == '-' && Integer(m)[1..] == Decimal(-m);
    assert n < 0 ==> Integer(n)[0] == '-' && Integer(n)[1..] == Decimal(-n);
    DecimalReadsBack(if m < 0 then -m else m);
    DecimalReadsBack(if n < 0 then -n else n);
  }

  lemma KeyParts(head: string, project: string, number: string, kind: string)
    requires |project| == 36
    ensures var key, n := head + (project + (":" + (number + (":" + kind)))), |head|;
      && |key| == n + 38 + |number| + |kind|
      && key[n..n + 36] == project && key[n + 37..|key| - |kind| - 1] == number && key[|key| - |kind|..] == kind
  {
    var key, n := head + (project + (":" + (number + (":" + kind)))), |head|;
    assert key == (head + project + ":") + (number + (":" + kind));
    assert key == (head + project + ":" + number + ":") + kind;
  }

  /** Webhooks share a job exactly if they are for the same project, issue and kind. */
  lemma WebhookKeyIsExact(p: string, i: int, c: bool, p': string, i': int, c': bool)
    requires IsUuid(p) && IsUuid(p')
    ensures WebhookKey(p, i, c) == WebhookKey(p', i', c') <==> p == p' && i == i' && c == c'
  {
    var kind, kind' := if c then "comments" else "issue", if c' then "comments" else "issue";
    KeyParts("gitlab-webhook:", p, Integer(i), kind);
    KeyParts("gitlab-webhook:", p', Integer(i'), kind');
    if WebhookKey(p, i, c) == WebhookKey(p', i', c') {
      var key := WebhookKey(p, i, c);
      assert key[|key| - 1] == kind[|kind| - 1] == kind'[|kind'| - 1];
      IntegerIsExact(i, i');
    }
  }

  // ---------------------------------------------------------------- the calls as runs of the machine

  ghost function Inserts(worker: WorkerId, n: nat): (es: seq<Event>) {
    if n == 0 then [] else Inserts(worker, n - 1) + [InsertAudit(worker)]
  }

  /** What recovery sends: the update of the stale rows, then one audit insert for each. */
  ghost function Recovery(worker: WorkerId, staleSeconds: int, now: int, order: seq<JobId>): seq<Event> {
    [Tick(now)] + [Recover(worker, staleSeconds, order)] + Inserts(worker, |order|)
  }

  /** The claim, or the certainty that there is nothing to claim. */
  ghost function Claiming(worker: WorkerId, later: int, job: Option<Job>): seq<Event> {
    [Tick(later)] + [if job.Some? then Claim(worker, job.value.id) else ClaimNothing(worker)]
  }

  lemma {:induction false} RunsInserts(es: seq<Event>, worker: WorkerId, todo: seq<AuditRow>, n: nat)
    requires Run(es) && IsWorker(Exec(es), worker) && Exec(es).workers[worker] == Recovering(todo) && n <= |todo|
    ensures Run(es + Inserts(worker, n))
    ensures Exec(es + Inserts(worker, n))
      == Exec(es).(audit := Exec(es).audit + todo[..n], workers := Exec(es).workers[worker := Recovering(todo[n..])])
  {
    var s := Exec(es);
    if n == 0 {
      assert es + [] == es && s.audit + todo[..0] == s.audit && s.workers[worker := Recovering(todo[0..])] == s.workers;
    } else {
      RunsInserts(es, worker, todo, n - 1);
      RunExtends(es + Inserts(worker, n - 1), InsertAudit(worker));
      Regroup(es, Inserts(worker, n - 1), [InsertAudit(worker)]);
      OneMoreTaken(s.audit, todo, n - 1);
      assert todo[n - 1..][0] == todo[n - 1] && todo[n - 1..][1..] == todo[n..];
    }
  }

  lemma RunsTwo(es: seq<Event>, d: Event, e: Event)
    requires Run(es) && Enabled(Exec(es), d) && Enabled(Apply(Exec(es), d), e)
    ensures Run(es + ([d] + [e])) && Exec(es + ([d] + [e])) == Apply(Apply(Exec(es), d), e)
  {
    RunExtends(es, d);
    RunExtends(es + [d], e);
    Regroup(es, [d], [e]);
  }

  lemma RunsRecovery(es: seq<Event>, worker: WorkerId, staleSeconds: int, now: int, order: seq<JobId>)
    requires Run(es) && IsWorker(Exec(es), worker) && Exec(es).workers[worker] == Polling && Exec(es).now <= now
    requires StaleOrder(order, Exec(es).jobs, now, staleSeconds)
    ensures var s := Exec(es);
      && Run(es + Recovery(worker, staleSeconds, now, order))
      && Exec(es + Recovery(worker, staleSeconds, now, order))
        == System(now, RecoverTable(s.jobs, now, staleSeconds), s.workers[worker := Recovering([])],
                  s.audit + StaleAudits(s.jobs, order, worker), s.lost)
  {
    var two, todo := [Tick(now)] + [Recover(worker, staleSeconds, order)], StaleAudits(Exec(es).jobs, order, worker);
    RunsTwo(es, Tick(now), Recover(worker, staleSeconds, order));
    RunsInserts(es + two, worker, todo, |order|);
    assert todo[..|order|] == todo && todo[|order|..] == [];
    Regroup(es, two, Inserts(worker, |order|));
  }

  predicate Reports(e: Event) {
    e.MarkDone? || e.Reschedule?
  }

  /** The worker's report on its job, then the audit insert. */
  ghost function Reporting(now: int, e: Event): seq<Event>
    requires Reports(e)
  {
    ([Tick(now)] + [e]) + [InsertAudit(e.worker)]
  }

  lemma RunsAuditInsert(es: seq<Event>, worker: WorkerId, row: AuditRow)
    requires Run(es) && IsWorker(Exec(es), worker) && Exec(es).workers[worker] == Recording(row)
    ensures Run(es + [InsertAudit(worker)])
    ensures Exec(es + [InsertAudit(worker)]) == Exec(es).(audit := Exec(es).audit + [row], workers := Exec(es).workers[worker := Polling])
  {
    RunExtends(es, InsertAudit(worker));
  }

  lemma RunsReport(es: seq<Event>, now: int, e: Event, job: Job)
    requires Run(es) && Exec(es).now <= now && Reports(e)
    requires IsWorker(Exec(es), e.worker) && Exec(es).workers[e.worker] == Handling(job)
    ensures var s, t := Exec(es), Apply(Exec(es).(now := now), e);
      && Run(es + Reporting(now, e)) && t.workers[e.worker].Recording?
      && Exec(es + Reporting(now, e)) == t.(audit := s.audit + [t.workers[e.worker].row], workers := s.workers[e.worker := Polling])
  {
    RunsTwo(es, Tick(now), e);
    var s, t := Exec(es), Apply(Exec(es).(now := now), e);
    RunsAuditInsert(es + ([Tick(now)] + [e]), e.worker, t.workers[e.worker].row);
    Regroup(es, [Tick(now)] + [e], [InsertAudit(e.worker)]);
    assert t.workers[e.worker := Polling] == s.workers[e.worker := Polling];
  }

  lemma RunsFailure(es: seq<Event>, worker: WorkerId, job: Job, error: string, now: int)
    requires Run(es) && Exec(es).now <= now && IsWorker(Exec(es), worker) && Exec(es).workers[worker] == Handling(job)
    ensures var s, after := Exec(es), es + Reporting(now, Reschedule(worker, error));
      && Run(after) && IsWorker(Exec(after), worker) && Exec(after).workers[worker] == Polling
      && Exec(after).jobs == UpdateJob(s.jobs, job.id, row => FailRow(row, job, error, now))
      && Exec(after).audit == s.audit + [FailAudit(job, worker)]
  {
    RunsReport(es, now, Reschedule(worker, error), job);
  }

  lemma {:induction false} InsertsClaimNothing(worker: WorkerId, n: nat, j: JobId)
    ensures Count(Inserts(worker, n), ClaimOf(j)) == 0
  {
    if n > 0 {
      InsertsClaimNothing(worker, n - 1, j);
      assert Front(Inserts(worker, n)) == Inserts(worker, n - 1);
    }
  }

  lemma CountOfTwo(d: Event, e: Event, p: Event -> bool)
    ensures Count([d] + [e], p) == (if p(d) then 1 else 0) + (if p(e) then 1 else 0)
  {
    assert Front([d] + [e]) == [d] && Last([d] + [e]) == e && Front([d]) == [] && Last([d]) == d;
    assert Count([], p) == 0;
    assert Count([d], p) == if p(d) then 1 else 0;
  }

  lemma ClaimsOfFetch(es: seq<Event>, worker: WorkerId, staleSeconds: int, now: int, later: int, order: seq<JobId>, job: Option<Job>, j: JobId)
    ensures Count(es + Recovery(worker, staleSeconds, now, order) + Claiming(worker, later, job), ClaimOf(j))
      == Count(es, ClaimOf(j)) + (if job.Some? && job.value.id == j then 1 else 0)
  {
    var head, two := [Tick(now)] + [Recover(worker, staleSeconds, order)], Claiming(worker, later, job);
    CountJoins(es + Recovery(worker, staleSeconds, now, order), two, ClaimOf(j));
    CountJoins(es, Recovery(worker, staleSeconds, now, order), ClaimOf(j));
    CountJoins(head, Inserts(worker, |order|), ClaimOf(j));
    InsertsClaimNothing(worker, |order|, j);
    CountOfTwo(Tick(now), Recover(worker, staleSeconds, order), ClaimOf(j));
    CountOfTwo(Tick(later), two[1], ClaimOf(j));
  }

  /**
   * Exactly the processing rows locked longer than the limit change: they lose the lock, count
   * one more attempt, and are dead from the fifth on or else wait 10 s.
   */
  ghost predicate AsRecovered(before: Table, after: Table, now: int, staleSeconds: int) {
    |after| == |before| && forall j :: 0 <= j < |before| ==>
      if before[j].Some? && before[j].value.status == Processing
         && before[j].value.lockedAt.Some? && before[j].value.lockedAt.value < now - staleSeconds * 1_000_000 then
        var row := before[j].value;
        && after[j] != before[j]
        && after[j] == Some(row.(attempts := row.attempts + 1, status := if row.attempts >= 4 then Dead else Pending,
             lastError := Some("Job lock expired while processing"), availableAt := now + 10_000_000,
             lockedAt := None, lockedBy := None, updatedAt := now))
      else
        after[j] == before[j]
  }

  lemma RecoveredColumns(jobs: Table, now: int, staleSeconds: int)
    ensures AsRecovered(jobs, RecoverTable(jobs, now, staleSeconds), now, staleSeconds)
  {
    RetryDelaySchedule(1);
    RecoveredRows(jobs, now, staleSeconds);
  }

  /** The job was pending and available, none of those is older, and its row is locked for the worker from now on. */
  ghost predicate OldestClaimed(before: Table, after: Table, job: Job, worker: WorkerId, now: int) {
    && job.id < |before| && before[job.id].Some?
    && before[job.id].value.status == Pending && before[job.id].value.availableAt <= now
    && (forall i :: 0 <= i < |before| && before[i].Some? && before[i].value.status == Pending && before[i].value.availableAt <= now
          ==> before[job.id].value.createdAt <= before[i].value.createdAt)
    && job.attempts == before[job.id].value.attempts
    && after == before[job.id := Some(before[job.id].value.(
         status := Processing, lockedAt := Some(now), lockedBy := Some(worker), updatedAt := now))]
  }

  /** The audit rows name each row that changed once, as dead or recovered by what became of it. */
  ghost predicate OneAuditPerChange(before: Table, after: Table, worker: WorkerId, rows: seq<AuditRow>)
    requires |before| == |after|
  {
    && (forall a, b :: 0 <= a < b < |rows| ==> rows[a].job != rows[b].job)
    && (forall j :: 0 <= j < |before| && before[j] != after[j] ==> exists a :: 0 <= a < |rows| && rows[a].job == j)
    && forall a :: 0 <= a < |rows| ==>
         && rows[a].job < |before| && before[rows[a].job] != after[rows[a].job] && after[rows[a].job].Some?
         && rows[a] == AuditRow(rows[a].job, if after[rows[a].job].value.status == Dead then StaleLockDead else StaleLockRecovered, worker)
  }

  lemma {:induction false} StaleAuditAt(jobs: Table, order: seq<JobId>, worker: WorkerId, a: nat)
    requires a < |order| && forall b :: 0 <= b < |order| ==> order[b] < |jobs| && jobs[order[b]].Some?
    ensures StaleAudits(jobs, order, worker)[a] == StaleAudit(jobs, order[a], worker)
  {
    if a > 0 { StaleAuditAt(jobs, order[1..], worker, a - 1); }
  }

  /** Recovery changes exactly the rows whose lock is older than the limit. */
  lemma RecoveredRows(jobs: Table, now: int, staleSeconds: int)
    ensures var after := RecoverTable(jobs, now, staleSeconds);
      forall j :: 0 <= j < |jobs| ==>
        (after[j] != jobs[j] <==> Stale(jobs[j], now, staleSeconds))
        && (after[j] != jobs[j] ==> after[j].Some? && after[j].value.status == StatusAfter(jobs[j].value.attempts + 1))
  {
    var after := RecoverTable(jobs, now, staleSeconds);
    forall j | 0 <= j < |jobs| && Stale(jobs[j], now, staleSeconds) ensures after[j] != jobs[j] {
      assert after[j].value.attempts == jobs[j].value.attempts + 1;
    }
  }

  lemma RecoveryAudited(jobs: Table, now: int, staleSeconds: int, order: seq<JobId>, worker: WorkerId)
    requires StaleOrder(order, jobs, now, staleSeconds)
    ensures OneAuditPerChange(jobs, RecoverTable(jobs, now, staleSeconds), worker, StaleAudits(jobs, order, worker))
  {
    var rows := StaleAudits(jobs, order, worker);
    RecoveredRows(jobs, now, staleSeconds);
    forall a | 0 <= a < |rows| ensures rows[a] == StaleAudit(jobs, order[a], worker) {
      StaleAuditAt(jobs, order, worker, a);
    }
    forall j | 0 <= j < |jobs| && Stale(jobs[j], now, staleSeconds) ensures exists a :: 0 <= a < |rows| && rows[a].job == j {
      assert j in order;
      var a :| 0 <= a < |order| && order[a] == j;
      assert rows[a].job == j;
    }
  }

  class Queue {
    var jobs: Table
    var audit: seq<AuditRow>
    var queued: seq<Queued>
    ghost var history: seq<Event>

    /** The tables are those of a run of the state machine. */
    ghost predicate Valid()
      reads this
    {
      Run(history) && jobs == Exec(history).jobs && audit == Exec(history).audit
    }

    ghost predicate Is(worker: WorkerId, state: Worker)
      reads this
      requires Valid()
    {
      IsWorker(Exec(history), worker) && Exec(history).workers[worker] == state
    }

    ghost function Now(): int
      reads this
      requires Valid()
    {
      Exec(history).now
    }

    constructor ()
      ensures Valid() && jobs == [] && audit == [] && queued == [] && history == []
    {
      jobs, audit, queued, history := [], [], [], [];
    }

    /** What holds of every run holds of the calls: no job is handed out too often. */
    lemma HandOutsBounded(j: JobId)
      requires Valid()
      ensures Count(history, ClaimOf(j)) <= 31 * (1 + Requeues(history, j))
    {
      ClaimsBounded(history, j);
    }

    method StartWorker() returns (ghost worker: WorkerId)
      modifies this`history
      requires Valid()
      ensures Valid() && history == old(history) + [Start] && Is(worker, Polling)
    {
      worker := |Exec(history).workers|;
      RunExtends(history, Start);
      history := history + [Start];
    }

    method RecoverStaleProcessingJobs(worker: WorkerId, staleSeconds: int, now: int) returns (ghost order: seq<JobId>)
      requires Valid() && Is(worker, Polling) && Now() <= now
      modifies this`jobs, this`audit, this`history
      ensures Valid() && Is(worker, Recovering([])) && Now() == now
      ensures history == old(history) + Recovery(worker, staleSeconds, now, order)
      ensures jobs == RecoverTable(old(jobs), now, staleSeconds)
      ensures StaleOrder(order, old(jobs), now, staleSeconds)
      ensures audit == old(audit) + StaleAudits(old(jobs), order, worker)
      ensures AsRecovered(old(jobs), jobs, now, staleSeconds)
      ensures old(audit) <= audit && OneAuditPerChange(old(jobs), jobs, worker, audit[|old(audit)|..])
    {
      ghost var before := jobs;
      var rows := RecoverRows(staleSeconds, now);
      order := rows;
      AuditRecovered(before, rows, worker);
      RunsRecovery(history, worker, staleSeconds, now, order);
      history := history + Recovery(worker, staleSeconds, now, order);
      RecoveredColumns(before, now, staleSeconds);
      RecoveryAudited(before, now, staleSeconds, order, worker);
      assert audit[|old(audit)|..] == StaleAudits(before, order, worker);
    }

    /** The update of all stale rows, returning their ids. */
    method RecoverRows(staleSeconds: int, now: int) returns (rows: seq<JobId>)
      modifies this`jobs
      ensures jobs == RecoverTable(old(jobs), now, staleSeconds) && StaleOrder(rows, old(jobs), now, staleSeconds)
      ensures forall k :: 0 <= k < |jobs| && Stale(old(jobs)[k], now, staleSeconds) ==>
        jobs[k].Some? && jobs[k].value.status == StatusAfter(old(jobs)[k].value.attempts + 1)
    {
      ghost var before := jobs;
      rows := [];
      var i := 0;
      while i < |jobs|
        invariant 0 <= i <= |jobs| == |before|
        invariant forall k :: 0 <= k < i ==> jobs[k] == RecoverSlot(before[k], now, staleSeconds)
        invariant forall k :: i <= k < |jobs| ==> jobs[k] == before[k]
        invariant forall a :: 0 <= a < |rows| ==> rows[a] < i && Stale(before[rows[a]], now, staleSeconds)
        invariant forall a, b :: 0 <= a < b < |rows| ==> rows[a] != rows[b]
        invariant forall k :: 0 <= k < i && Stale(before[k], now, staleSeconds) ==> k in rows
      {
        if Stale(jobs[i], now, staleSeconds) {
          var row := jobs[i].value;
          var status := if row.attempts + 1 >= MAX_ATTEMPTS then Dead else Pending;
          jobs := jobs[i := Some(row.(attempts := row.attempts + 1, status := status,
            lastError := Some("Job lock expired while processing"), availableAt := now + 10 * SECOND,
            lockedAt := None, lockedBy := None, updatedAt := now))];
          rows := rows + [i];
        }
        i := i + 1;
      }
      StaleRowsRecovered(before, jobs, now, staleSeconds);
    }

    /** The audit inserts behind the update, one per returned row. */
    method AuditRecovered(ghost before: Table, rows: seq<JobId>, worker: WorkerId)
      requires |jobs| == |before| && forall a :: 0 <= a < |rows| ==> rows[a] < |jobs| && jobs[rows[a]].Some? && before[rows[a]].Some?
      requires forall a :: 0 <= a < |rows| ==> jobs[rows[a]].value.status == StatusAfter(before[rows[a]].value.attempts + 1)
      modifies this`audit
      ensures audit == old(audit) + StaleAudits(before, rows, worker)
    {
      for n := 0 to |rows|
        invariant audit == old(audit) + StaleAudits(before, rows[..n], worker)
      {
        var row := jobs[rows[n]].value;
        audit := audit + [AuditRow(rows[n], if row.status == Dead then StaleLockDead else StaleLockRecovered, worker)];
        StaleAuditsExtend(before, rows, n, worker);
      }
      assert rows[..|rows|] == rows;
    }

    /** The claim of the oldest job that is pending and available. */
    method ClaimNext(worker: WorkerId, now: int) returns (job: Option<Job>)
      requires Valid() && Is(worker, Recovering([])) && Now() <= now
      modifies this`jobs, this`history
      ensures Valid() && Is(worker, if job.Some? then Handling(job.value) else Polling)
      ensures history == old(history) + Claiming(worker, now, job)
      ensures job.None? ==> jobs == old(jobs) && forall i :: 0 <= i < |jobs| && jobs[i].Some? && jobs[i].value.status == Pending ==> jobs[i].value.availableAt > now
      ensures job.Some? ==> OldestClaimed(old(jobs), jobs, job.value, worker, now)
    {
      var pick := PickOldest(jobs, now);
      if pick.None? {
        job := None;
        RunsTwo(history, Tick(now), ClaimNothing(worker));
      } else {
        var row := jobs[pick.value].value;
        job := Some(Job(pick.value, row.attempts));
        RunsTwo(history, Tick(now), Claim(worker, pick.value));
        jobs := jobs[pick.value := Some(row.(status := Processing, lockedAt := Some(now), lockedBy := Some(worker), updatedAt := now))];
      }
      history := history + Claiming(worker, now, job);
    }

    /** Recovery first, then the claim; the clock may move in between. */
    method FetchNextJob(worker: WorkerId, staleSeconds: int, now: int, later: int)
      returns (job: Option<Job>, ghost order: seq<JobId>)
      requires Valid() && Is(worker, Polling) && Now() <= now <= later
      modifies this`jobs, this`audit, this`history
      ensures Valid() && Is(worker, if job.Some? then Handling(job.value) else Polling)
      ensures history == old(history) + Recovery(worker, staleSeconds, now, order) + Claiming(worker, later, job)
      ensures forall j :: Count(history, ClaimOf(j)) == Count(old(history), ClaimOf(j)) + (if job.Some? && job.value.id == j then 1 else 0)
      ensures StaleOrder(order, old(jobs), now, staleSeconds)
      ensures audit == old(audit) + StaleAudits(old(jobs), order, worker)
      ensures var ready := RecoverTable(old(jobs), now, staleSeconds);
        && AsRecovered(old(jobs), ready, now, staleSeconds)
        && (job.None? ==> jobs == ready)
        && (job.None? ==> forall i :: 0 <= i < |ready| && ready[i].Some? && ready[i].value.status == Pending ==> ready[i].value.availableAt > later)
        && (job.Some? ==> OldestClaimed(ready, jobs, job.value, worker, later))
    {
      ghost var before := history;
      order := RecoverStaleProcessingJobs(worker, staleSeconds, now);
      job := ClaimNext(worker, later);
      forall j ensures Count(history, ClaimOf(j)) == Count(before, ClaimOf(j)) + (if job.Some? && job.value.id == j then 1 else 0) {
        ClaimsOfFetch(before, worker, staleSeconds, now, later, order, job, j);
      }
    }

    method MarkDone(worker: WorkerId, job: Job, now: int)
      requires Valid() && Is(worker, Handling(job)) && Now() <= now
      modifies this`jobs, this`audit, this`history
      ensures Valid() && Is(worker, Polling)
      ensures history == old(history) + Reporting(now, Event.MarkDone(worker))
      ensures jobs == if job.id < |old(jobs)| && old(jobs)[job.id].Some?
        then old(jobs)[job.id := Some(old(jobs)[job.id].value.(status := Done, lockedAt := None, lockedBy := None, updatedAt := now))]
        else old(jobs)
      ensures audit == old(audit) + [AuditRow(job.id, Processed, worker)]
    {
      RunsReport(history, now, Event.MarkDone(worker), job);
      history := history + Reporting(now, Event.MarkDone(worker));
      if job.id < |jobs| && jobs[job.id].Some? {
        var row := jobs[job.id].value;
        jobs := jobs[job.id := Some(row.(status := Done, lockedAt := None, lockedBy := None, updatedAt := now))];
      }
      audit := audit + [AuditRow(job.id, Processed, worker)];
    }

    method RescheduleFailed(worker: WorkerId, job: Job, error: string, now: int)
      requires Valid() && Is(worker, Handling(job)) && Now() <= now
      modifies this`jobs, this`audit, this`history
      ensures Valid() && Is(worker, Polling)
      ensures history == old(history) + Reporting(now, Reschedule(worker, error))
      ensures jobs == if job.id < |old(jobs)| && old(jobs)[job.id].Some?
        then old(jobs)[job.id := Some(old(jobs)[job.id].value.(
          status := if job.attempts >= 4 then Dead else Pending, attempts := job.attempts + 1, lastError := Some(error),
          availableAt := now + RetryDelaySeconds(job.attempts + 1) * 1_000_000, lockedAt := None, lockedBy := None, updatedAt := now))]
        else old(jobs)
      ensures audit == old(audit) + [AuditRow(job.id, if job.attempts >= 4 then DeadLetter else Failed, worker)]
    {
      RunsFailure(history, worker, job, error, now);
      history := history + Reporting(now, Reschedule(worker, error));
      var next := job.attempts + 1;
      var status := if next >= MAX_ATTEMPTS then Dead else Pending;
      var delay := RetryDelaySeconds(next);
      if job.id < |jobs| && jobs[job.id].Some? {
        var row := jobs[job.id].value;
        jobs := jobs[job.id := Some(row.(status := status, attempts := next, lastError := Some(error),
          availableAt := now + delay * SECOND, lockedAt := None, lockedBy := None, updatedAt := now))];
      }
      audit := audit + [AuditRow(job.id, if status == Dead then DeadLetter else Failed, worker)];
    }

    /** The three upserts differ only in what they do to a row that already has the key. */
    method EnqueueJob(key: Option<string>, now: int) returns (id: JobId)
      requires Valid() && Now() <= now
      modifies this`jobs, this`history
      ensures Valid() && UniqueKeys(jobs)
      ensures history == old(history) + ([Tick(now)] + [if id < |old(jobs)| then Touch(id) else Insert(key)])
      ensures Upserted(old(jobs), jobs, id, key, now, (row: JobRow) => row.(updatedAt := now))
    {
      var found := None;
      if key.Some? { found := FindKey(jobs, key.value); }
      if found.Some? {
        id := found.value;
        RunsTwo(history, Tick(now), Touch(id));
        jobs := jobs[id := Some(jobs[id].value.(updatedAt := now))];
      } else {
        id := |jobs|;
        RunsTwo(history, Tick(now), Insert(key));
        jobs := jobs + [Some(JobRow(Pending, 0, now, None, None, None, key, now, now))];
      }
      history := history + ([Tick(now)] + [if id < |old(jobs)| then Touch(id) else Insert(key)]);
      KeysStayUnique(history);
    }

    /**
     * The upsert, then the audit entry; if the entry cannot be written the call fails with
     * the job already queued.
     */
    method EnqueueWebhookJob(project: string, issueIid: int, syncComments: bool, eventType: string, now: int, recorded: bool)
      returns (id: JobId, ok: bool)
      requires Valid() && Now() <= now
      modifies this`jobs, this`queued, this`history
      ensures Valid() && UniqueKeys(jobs)
      ensures var key := WebhookKey(project, issueIid, syncComments);
        && history == old(history) + ([Tick(now)] + [if id < |old(jobs)| then Webhook(id) else Insert(Some(key))])
        && queued == if ok then old(queued) + [Queued(project, id, issueIid, syncComments, eventType, key)] else old(queued)
      ensures ok == recorded
      ensures Upserted(old(jobs), jobs, id, Some(WebhookKey(project, issueIid, syncComments)), now,
        (row: JobRow) => row.(status := Pending, attempts := 0, availableAt := now, lockedAt := None, lockedBy := None,
                              lastError := None, updatedAt := now))
    {
      var key := WebhookKey(project, issueIid, syncComments);
      var found := FindKey(jobs, key);
      if found.Some? {
        id := found.value;
        RunsTwo(history, Tick(now), Webhook(id));
        jobs := jobs[id := Some(jobs[id].value.(status := Pending, attempts := 0, availableAt := now,
          lockedAt := None, lockedBy := None, lastError := None, updatedAt := now))];
      } else {
        id := |jobs|;
        RunsTwo(history, Tick(now), Insert(Some(key)));
        jobs := jobs + [Some(JobRow(Pending, 0, now, None, None, None, Some(key), now, now))];
      }
      history := history + ([Tick(now)] + [if id < |old(jobs)| then Webhook(id) else Insert(Some(key))]);
      KeysStayUnique(history);
      ok := recorded;
      if recorded { queued := queued + [Queued(project, id, issueIid, syncComments, eventType, key)]; }
    }

    method EnqueueInvitationEmail(key: string, now: int) returns (id: JobId)
      requires Valid() && Now() <= now
      modifies this`jobs, this`history
      ensures Valid() && UniqueKeys(jobs)
      ensures history == old(history) + ([Tick(now)] + [if id < |old(jobs)| then Invite(id) else Insert(Some(key))])
      ensures Upserted(old(jobs), jobs, id, Some(key), now, (row: JobRow) => row.(status := Pending, availableAt := now, lastError := None, updatedAt := now))
    {
      var found := FindKey(jobs, key);
      if found.Some? {
        id := found.value;
        RunsTwo(history, Tick(now), Invite(id));
        jobs := jobs[id := Some(jobs[id].value.(status := Pending, availableAt := now, lastError := None, updatedAt := now))];
      } else {
        id := |jobs|;
        RunsTwo(history, Tick(now), Insert(Some(key)));
        jobs := jobs + [Some(JobRow(Pending, 0, now, None, None, None, Some(key), now, now))];
      }
      history := history + ([Tick(now)] + [if id < |old(jobs)| then Invite(id) else Insert(Some(key))]);
      KeysStayUnique(history);
    }
  }

  lemma StaleRowsRecovered(before: Table, after: Table, now: int, staleSeconds: int)
    requires |after| == |before| && forall k :: 0 <= k < |before| ==> after[k] == RecoverSlot(before[k], now, staleSeconds)
    ensures after == RecoverTable(before, now, staleSeconds)
    ensures forall k :: 0 <= k < |before| && Stale(before[k], now, staleSeconds) ==>
      before[k].Some? && after[k].Some? && after[k].value.status == StatusAfter(before[k].value.attempts + 1)
  {
  }

  lemma {:induction false} StaleAuditsExtend(jobs: Table, order: seq<JobId>, n: nat, worker: WorkerId)
    requires n < |order|
    requires forall a :: 0 <= a < |order| ==> order[a] < |jobs| && jobs[order[a]].Some?
    ensures StaleAudits(jobs, order[..n + 1], worker)
         == StaleAudits(jobs, order[..n], worker) + [StaleAudit(jobs, order[n], worker)]
    decreases n
  {
    assert order[..n + 1][0] == order[0];
    if n > 0 {
      StaleAuditsExtend(jobs, order[1..], n - 1, worker);
      assert order[1..][..n] == order[..n + 1][1..];
      assert order[1..][..n - 1] == order[..n][1..];
    }
  }

  /** The row `id` carries the key afterwards: changed in place if there was one, else inserted. */
  ghost predicate Upserted(before: Table, after: Table, id: JobId, key: Option<string>, now: int, change: JobRow -> JobRow) {
    if key.Some? && exists j :: 0 <= j < |before| && before[j].Some? && before[j].value.dedupeKey == key then
      && id < |before| && before[id].Some? && before[id].value.dedupeKey == key
      && after == before[id := Some(change(before[id].value))]
    else
      id == |before| && after == before + [Some(JobRow(Pending, 0, now, None, None, None, key, now, now))]
  }
}
