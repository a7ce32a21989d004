/**
 * The PostgreSQL job queue as a state machine.  One event is one SQL statement
 * (or the loss of a worker); any number of workers interleave their statements.
 *
 * A worker keeps the `Job` it received from its claim apart from the row: the
 * statements that finish a job match on the id alone, so a worker whose lock has
 * expired still writes.
 */
module JobQueue {
  import opened Wrappers

  type JobId = nat     // ids are handed out in insertion order and never reused
  type WorkerId = nat

  const MAX_ATTEMPTS: nat := 5
  const SECOND: int := 1_000_000  // timestamps have microsecond resolution

  datatype Status = Pending | Processing | Done | Dead

  datatype JobRow = JobRow(
    status: Status,
    attempts: nat,
    availableAt: int,
    lockedAt: Option<int>,
    lockedBy: Option<WorkerId>,
    lastError: Option<string>,
    dedupeKey: Option<string>,
    createdAt: int,
    updatedAt: int)

  /** What a claim returns to its worker. */
  datatype Job = Job(id: JobId, attempts: nat)

  datatype Action = Processed | Failed | DeadLetter | StaleLockRecovered | StaleLockDead

  datatype AuditRow = AuditRow(job: JobId, action: Action, actor: WorkerId)

  /** The jobs table; a deleted row leaves None behind. */
  type Table = seq<Option<JobRow>>

  function Pow2(n: nat): nat {
    if n == 0 then 1 else 2 * Pow2(n - 1)
  }

  function Clamp(x: int, lo: int, hi: int): int {
    if x < lo then lo else if x > hi then hi else x
  }

  function RetryDelaySeconds(attempt: int): int {
    var exponent: nat := Clamp(attempt - 1, 0, 5);
    var delay := 10 * Pow2(exponent);
    if delay < 300 then delay else 300
  }

  /** The back-off schedule: 10, 20, 40, 80, 160 and then 300 seconds for ever. */
  lemma RetryDelaySchedule(attempt: int)
    ensures 10 <= RetryDelaySeconds(attempt) <= 300
    ensures attempt <= 1 ==> RetryDelaySeconds(attempt) == 10
    ensures 1 <= attempt <= 4 ==> RetryDelaySeconds(attempt + 1) == 2 * RetryDelaySeconds(attempt)
    ensures attempt >= 6 ==> RetryDelaySeconds(attempt) == 300
  {
    assert Pow2(1) == 2 && Pow2(2) == 4 && Pow2(3) == 8;
    assert Pow2(4) == 16 && Pow2(5) == 32;
  }

  // ---------------------------------------------------------------- row updates

  predicate Eligible(slot: Option<JobRow>, now: int) {
    slot.Some? && slot.value.status == Pending && slot.value.availableAt <= now
  }

  /** The row `ORDER BY created_at LIMIT 1` may pick. */
  predicate Claimable(jobs: Table, j: JobId, now: int) {
    && j < |jobs|
    && Eligible(jobs[j], now)
    && forall i :: 0 <= i < |jobs| && Eligible(jobs[i], now) ==> jobs[j].value.createdAt <= jobs[i].value.createdAt
  }

  function ClaimRow(row: JobRow, worker: WorkerId, now: int): JobRow {
    row.(status := Processing, lockedAt := Some(now), lockedBy := Some(worker), updatedAt := now)
  }

  function DoneRow(row: JobRow, now: int): JobRow {
    row.(status := Done, lockedAt := None, lockedBy := None, updatedAt := now)
  }

  function StatusAfter(attempts: nat): Status {
    if attempts >= MAX_ATTEMPTS then Dead else Pending
  }

  /** The count and status come from the worker's own copy, not from the row. */
  function FailRow(row: JobRow, job: Job, error: string, now: int): JobRow {
    var next := job.attempts + 1;
    row.(status := StatusAfter(next), attempts := next, lastError := Some(error),
         availableAt := now + RetryDelaySeconds(next) * SECOND,
         lockedAt := None, lockedBy := None, updatedAt := now)
  }

  predicate Stale(slot: Option<JobRow>, now: int, staleSeconds: int) {
    && slot.Some? && slot.value.status == Processing
    && slot.value.lockedAt.Some? && slot.value.lockedAt.value < now - staleSeconds * SECOND
  }

  function RecoverSlot(slot: Option<JobRow>, now: int, staleSeconds: int): Option<JobRow> {
    if Stale(slot, now, staleSeconds) then
      var row := slot.value;
      Some(row.(attempts := row.attempts + 1, status := StatusAfter(row.attempts + 1),
                lastError := Some("Job lock expired while processing"),
                availableAt := now + RetryDelaySeconds(1) * SECOND,
                lockedAt := None, lockedBy := None, updatedAt := now))
    else
      slot
  }

  function RecoverTable(jobs: Table, now: int, staleSeconds: int): (after: Table)
    ensures |after| == |jobs|
    ensures forall i :: 0 <= i < |jobs| ==> after[i] == RecoverSlot(jobs[i], now, staleSeconds)
  {
    seq(|jobs|, i requires 0 <= i < |jobs| => RecoverSlot(jobs[i], now, staleSeconds))
  }

  /** Each stale row once: some order in which RETURNING may list them. */
  predicate StaleOrder(order: seq<JobId>, jobs: Table, now: int, staleSeconds: int) {
    && (forall a, b :: 0 <= a < b < |order| ==> order[a] != order[b])
    && (forall a :: 0 <= a < |order| ==> order[a] < |jobs| && Stale(jobs[order[a]], now, staleSeconds))
    && (forall i :: 0 <= i < |jobs| && Stale(jobs[i], now, staleSeconds) ==> i in order)
  }

  function StaleAudit(jobs: Table, j: JobId, worker: WorkerId): AuditRow
    requires j < |jobs| && jobs[j].Some?
  {
    AuditRow(j, if StatusAfter(jobs[j].value.attempts + 1) == Dead then StaleLockDead else StaleLockRecovered, worker)
  }

  function StaleAudits(jobs: Table, order: seq<JobId>, worker: WorkerId): (rows: seq<AuditRow>)
    requires forall a :: 0 <= a < |order| ==> order[a] < |jobs| && jobs[order[a]].Some?
    ensures |rows| == |order|
  {
    if order == [] then [] else [StaleAudit(jobs, order[0], worker)] + StaleAudits(jobs, order[1..], worker)
  }

  function FailAudit(job: Job, worker: WorkerId): AuditRow {
    AuditRow(job.id, if StatusAfter(job.attempts + 1) == Dead then DeadLetter else Failed, worker)
  }

  function NewRow(key: Option<string>, now: int): JobRow {
    JobRow(Pending, 0, now, None, None, None, key, now, now)
  }

  /** A webhook for a known key starts the job over. */
  function WebhookRow(row: JobRow, now: int): JobRow {
    row.(status := Pending, attempts := 0, availableAt := now, lockedAt := None, lockedBy := None,
         lastError := None, updatedAt := now)
  }

  /** A resent invitation resets neither the attempt count nor the lock. */
  function InviteRow(row: JobRow, now: int): JobRow {
    row.(status := Pending, availableAt := now, lastError := None, updatedAt := now)
  }

  /** The admin's enqueue of a known key only touches the row. */
  function TouchRow(row: JobRow, now: int): JobRow {
    row.(updatedAt := now)
  }

  function UpdateJob(jobs: Table, j: JobId, update: JobRow -> JobRow): (after: Table)
    ensures |after| == |jobs|
  {
    if j < |jobs| && jobs[j].Some? then jobs[j := Some(update(jobs[j].value))] else jobs
  }

  // ---------------------------------------------------------------- the machine

  /** Where a worker stands in its loop. */
  datatype Worker =
    | Polling
    | Recovering(todo: seq<AuditRow>)  // stale rows updated, audit inserts still to come, then the claim
    | Handling(job: Job)
    | Recording(row: AuditRow)         // job row written, its audit insert still to come
    | Stopped

  /** `lost` keeps the audit rows whose insert failed or whose worker stopped first. */
  datatype System = System(
    now: int,
    jobs: Table,
    workers: seq<Worker>,
    audit: seq<AuditRow>,
    lost: seq<AuditRow>)

  datatype Event =
    | Tick(to: int)
    | Start
    | Recover(worker: WorkerId, staleSeconds: int, order: seq<JobId>)
    | Claim(worker: WorkerId, job: JobId)
    | ClaimNothing(worker: WorkerId)
    | MarkDone(worker: WorkerId)
    | Reschedule(worker: WorkerId, error: string)
    | InsertAudit(worker: WorkerId)
    | Abort(worker: WorkerId, stop: bool)
    | Insert(key: Option<string>)
    | Webhook(job: JobId)
    | Invite(job: JobId)
    | Touch(job: JobId)
    | Delete(job: JobId)

  predicate IsWorker(s: System, w: WorkerId) {
    w < |s.workers|
  }

  predicate HasRow(s: System, j: JobId) {
    j < |s.jobs| && s.jobs[j].Some?
  }

  predicate HasKey(s: System, j: JobId) {
    HasRow(s, j) && s.jobs[j].value.dedupeKey.Some?
  }

  predicate Enabled(s: System, e: Event) {
    match e
    case Tick(to) => s.now <= to
    case Start => true
    case Recover(w, stale, order) => IsWorker(s, w) && s.workers[w] == Polling && StaleOrder(order, s.jobs, s.now, stale)
    case Claim(w, j) => IsWorker(s, w) && s.workers[w] == Recovering([]) && Claimable(s.jobs, j, s.now)
    case ClaimNothing(w) =>
      IsWorker(s, w) && s.workers[w] == Recovering([])
      && forall i :: 0 <= i < |s.jobs| ==> !Eligible(s.jobs[i], s.now)
    case MarkDone(w) => IsWorker(s, w) && s.workers[w].Handling?
    case Reschedule(w, _) => IsWorker(s, w) && s.workers[w].Handling?
    case InsertAudit(w) =>
      IsWorker(s, w) && (s.workers[w].Recording? || (s.workers[w].Recovering? && s.workers[w].todo != []))
    case Abort(w, _) => IsWorker(s, w) && s.workers[w] != Stopped
    case Insert(key) =>
      key.Some? ==> forall i :: 0 <= i < |s.jobs| && s.jobs[i].Some? ==> s.jobs[i].value.dedupeKey != key
    case Webhook(j) => HasKey(s, j)
    case Invite(j) => HasKey(s, j)
    case Touch(j) => HasKey(s, j)
    case Delete(j) => HasKey(s, j)
  }

  function Unsaved(w: Worker): seq<AuditRow> {
    match w
    case Recovering(todo) => todo
    case Recording(row) => [row]
    case _ => []
  }

  function Apply(s: System, e: Event): System
    requires Enabled(s, e)
  {
    match e
    case Tick(to) => s.(now := to)
    case Start => s.(workers := s.workers + [Polling])
    case Recover(w, stale, order) =>
      s.(jobs := RecoverTable(s.jobs, s.now, stale),
         workers := s.workers[w := Recovering(StaleAudits(s.jobs, order, w))])
    case Claim(w, j) =>
      var row := s.jobs[j].value;
      s.(jobs := s.jobs[j := Some(ClaimRow(row, w, s.now))],
         workers := s.workers[w := Handling(Job(j, row.attempts))])
    case ClaimNothing(w) => s.(workers := s.workers[w := Polling])
    case MarkDone(w) =>
      var job := s.workers[w].job;
      s.(jobs := UpdateJob(s.jobs, job.id, row => DoneRow(row, s.now)),
         workers := s.workers[w := Recording(AuditRow(job.id, Processed, w))])
    case Reschedule(w, error) =>
      var job := s.workers[w].job;
      s.(jobs := UpdateJob(s.jobs, job.id, row => FailRow(row, job, error, s.now)),
         workers := s.workers[w := Recording(FailAudit(job, w))])
    case InsertAudit(w) =>
      var worker := s.workers[w];
      s.(audit := s.audit + [Unsaved(worker)[0]],
         workers := s.workers[w := if worker.Recording? then Polling else Recovering(worker.todo[1..])])
    case Abort(w, stop) =>
      s.(lost := s.lost + Unsaved(s.workers[w]),
         workers := s.workers[w := if stop then Stopped else Polling])
    case Insert(key) => s.(jobs := s.jobs + [Some(NewRow(key, s.now))])
    case Webhook(j) => s.(jobs := s.jobs[j := Some(WebhookRow(s.jobs[j].value, s.now))])
    case Invite(j) => s.(jobs := s.jobs[j := Some(InviteRow(s.jobs[j].value, s.now))])
    case Touch(j) => s.(jobs := s.jobs[j := Some(TouchRow(s.jobs[j].value, s.now))])
    case Delete(j) => s.(jobs := s.jobs[j := None])
  }

  // ---------------------------------------------------------------- runs

  function Front(es: seq<Event>): seq<Event>
    requires es != []
  {
    es[..|es| - 1]
  }

  function Last(es: seq<Event>): Event
    requires es != []
  {
    es[|es| - 1]
  }

  const EMPTY := System(0, [], [], [], [])

  ghost predicate Run(es: seq<Event>)
    decreases |es|, 0
  {
    es == [] || (Run(Front(es)) && Enabled(Exec(Front(es)), Last(es)))
  }

  ghost function Exec(es: seq<Event>): System
    requires Run(es)
    decreases |es|, 1
  {
    if es == [] then EMPTY else Apply(Exec(Front(es)), Last(es))
  }

  /** How many events of the run satisfy `p`. */
  ghost function Count(es: seq<Event>, p: Event -> bool): nat {
    if es == [] then 0 else Count(Front(es), p) + (if p(Last(es)) then 1 else 0)
  }

  ghost function ClaimOf(j: JobId): Event -> bool {
    (e: Event) => e.Claim? && e.job == j
  }

  ghost function WebhookOf(j: JobId): Event -> bool {
    (e: Event) => e.Webhook? && e.job == j
  }

  ghost function InviteOf(j: JobId): Event -> bool {
    (e: Event) => e.Invite? && e.job == j
  }

  ghost function Requeues(es: seq<Event>, j: JobId): nat {
    Count(es, WebhookOf(j)) + Count(es, InviteOf(j))
  }

  lemma {:induction false} RunPrefix(es: seq<Event>, n: nat)
    requires Run(es) && n <= |es|
    ensures Run(es[..n])
    decreases |es|
  {
    if n == |es| {
      assert es[..n] == es;
    } else {
      RunPrefix(Front(es), n);
      assert Front(es)[..n] == es[..n];
    }
  }

  lemma RunExtends(es: seq<Event>, e: Event)
    requires Run(es) && Enabled(Exec(es), e)
    ensures Run(es + [e]) && Exec(es + [e]) == Apply(Exec(es), e)
  {
    assert Front(es + [e]) == es && Last(es + [e]) == e;
  }

  lemma {:induction false} CountJoins(a: seq<Event>, b: seq<Event>, p: Event -> bool)
    ensures Count(a + b, p) == Count(a, p) + Count(b, p)
    decreases |b|
  {
    if b == [] {
      assert a + b == a;
    } else {
      assert Front(a + b) == a + Front(b);
      CountJoins(a, Front(b), p);
    }
  }

  // ---------------------------------------------------------------- sums over workers

  ghost function Sum(ws: seq<Worker>, f: Worker -> nat): nat {
    if ws == [] then 0 else Sum(ws[..|ws| - 1], f) + f(ws[|ws| - 1])
  }

  lemma {:induction false} SumUpdate(ws: seq<Worker>, i: nat, v: Worker, f: Worker -> nat)
    requires i < |ws|
    ensures Sum(ws[i := v], f) + f(ws[i]) == Sum(ws, f) + f(v)
  {
    var n := |ws| - 1;
    if i == n {
      assert ws[i := v][..n] == ws[..n];
    } else {
      SumUpdate(ws[..n], i, v, f);
      assert ws[i := v][..n] == ws[..n][i := v];
    }
  }

  lemma SumAppend(ws: seq<Worker>, v: Worker, f: Worker -> nat)
    ensures Sum(ws + [v], f) == Sum(ws, f) + f(v)
  {
    assert (ws + [v])[..|ws|] == ws;
  }
}
