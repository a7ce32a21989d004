/**
 * Bounded waiting: while a job is pending and available, every claim takes a job
 * created no later than it, and those jobs have only so many claims in them.
 */
module JobQueueWaiting {
  import opened Wrappers
  import opened JobQueue
  import opened JobQueueBounds

  ghost function AnyClaim(): Event -> bool {
    (e: Event) => e.Claim?
  }

  /** The clock when job `j` was inserted, kept even after its row is deleted. */
  ghost function CreatedAt(es: seq<Event>, j: JobId): int
    requires Run(es) && j < |Exec(es).jobs|
    decreases |es|
  {
    if j < |Exec(Front(es)).jobs| then CreatedAt(Front(es), j) else Exec(Front(es)).now
  }

  lemma {:induction false} RowRemembersCreation(es: seq<Event>, j: JobId)
    requires Run(es) && HasRow(Exec(es), j)
    ensures Exec(es).jobs[j].value.createdAt == CreatedAt(es, j)
    decreases |es|
  {
    if j < |Exec(Front(es)).jobs| {
      RowRemembersCreation(Front(es), j);
    }
  }

  lemma {:induction false} CreationIsFixed(es: seq<Event>, n: nat, j: JobId)
    requires Run(es) && n <= |es|
    requires Run(es[..n]) && j < |Exec(es[..n]).jobs|
    ensures j < |Exec(es).jobs| && CreatedAt(es, j) == CreatedAt(es[..n], j)
    decreases |es|
  {
    if n == |es| {
      assert es[..n] == es;
    } else {
      assert Front(es)[..n] == es[..n];
      CreationIsFixed(Front(es), n, j);
    }
  }

  /** Job `j` could be claimed at every point from `a` up to `b`. */
  ghost predicate Waiting(es: seq<Event>, a: nat, b: nat, j: JobId) {
    && a <= b <= |es|
    && forall i :: a <= i < b ==>
         Run(es[..i]) && j < |Exec(es[..i]).jobs| && Eligible(Exec(es[..i]).jobs[j], Exec(es[..i]).now)
  }

  /** The jobs created no later than `j`. */
  ghost function NoLater(es: seq<Event>, j: JobId): set<JobId>
    requires Run(es) && j < |Exec(es).jobs|
  {
    set i: JobId | 0 <= i < |Exec(es).jobs| && CreatedAt(es, i) <= CreatedAt(es, j)
  }

  /** The sum of f(i) over the members of `ids` below `n`. */
  ghost function Total(ids: set<JobId>, n: nat, f: nat -> nat): nat {
    if n == 0 then 0 else Total(ids, n - 1, f) + (if n - 1 in ids then f(n - 1) else 0)
  }

  lemma {:induction false} TotalMonotone(ids: set<JobId>, n: nat, f: nat -> nat, g: nat -> nat)
    requires forall i: nat :: i < n && i in ids ==> f(i) <= g(i)
    ensures Total(ids, n, f) <= Total(ids, n, g)
  {
    if n > 0 { TotalMonotone(ids, n - 1, f, g); }
  }

  lemma {:induction false} TotalBumped(ids: set<JobId>, n: nat, f: nat -> nat, g: nat -> nat, k: nat)
    requires forall i: nat :: i < n && i in ids && i != k ==> f(i) <= g(i)
    requires k < n && k in ids && f(k) + 1 <= g(k)
    ensures Total(ids, n, f) + 1 <= Total(ids, n, g)
  {
    if k == n - 1 { TotalMonotone(ids, n - 1, f, g); } else { TotalBumped(ids, n - 1, f, g, k); }
  }

  lemma {:induction false} TotalConstant(ids: set<JobId>, n: nat, f: nat -> nat, c: nat)
    requires forall i :: i in ids ==> i < n && f(i) == c
    ensures Total(ids, n, f) == c * |ids|
  {
    if n == 0 {
      assert ids == {};
    } else if n - 1 in ids {
      var rest := ids - {n - 1};
      TotalConstant(rest, n - 1, f, c);
      TotalWithout(ids, n - 1, f, n - 1);
      assert |rest| == |ids| - 1;
    } else {
      TotalConstant(ids, n - 1, f, c);
    }
  }

  lemma {:induction false} TotalWithout(ids: set<JobId>, n: nat, f: nat -> nat, k: nat)
    requires k >= n
    ensures Total(ids, n, f) == Total(ids - {k}, n, f)
  {
    if n > 0 { TotalWithout(ids, n - 1, f, k); }
  }

  ghost function ClaimsIn(es: seq<Event>): nat -> nat {
    (i: nat) => Count(es, ClaimOf(i))
  }

  ghost function Budget(es: seq<Event>): nat -> nat {
    (i: nat) => 31 * (1 + Requeues(es, i))
  }

  /** A claim made while `j` waits takes a job created no later than `j`. */
  lemma ClaimsTakeTheOldest(es: seq<Event>, k: nat, j: JobId)
    requires Run(es) && k < |es| && j < |Exec(es).jobs|
    requires Waiting(es, k, k + 1, j) && es[k].Claim?
    ensures es[k].job in NoLater(es, j)
  {
    RunPrefix(es, k + 1);
    assert Front(es[..k + 1]) == es[..k] && Last(es[..k + 1]) == es[k];
    var s := Exec(es[..k]);
    RowRemembersCreation(es[..k], j);
    RowRemembersCreation(es[..k], es[k].job);
    CreationIsFixed(es, k, j);
    CreationIsFixed(es, k, es[k].job);
  }

  lemma {:induction false} WindowClaims(es: seq<Event>, a: nat, b: nat, j: JobId, n: nat)
    requires Run(es) && j < |Exec(es).jobs| && n == |Exec(es).jobs|
    requires Waiting(es, a, b, j)
    ensures Count(es[..b], AnyClaim()) - Count(es[..a], AnyClaim()) <= Total(NoLater(es, j), n, ClaimsIn(es[..b]))
    decreases b - a
  {
    if a < b {
      var ids := NoLater(es, j);
      WindowClaims(es, a, b - 1, j, n);
      var before, after := es[..b - 1], es[..b];
      assert Front(after) == before && Last(after) == es[b - 1];
      if es[b - 1].Claim? {
        ClaimsTakeTheOldest(es, b - 1, j);
        TotalBumped(ids, n, ClaimsIn(before), ClaimsIn(after), es[b - 1].job);
      } else {
        TotalMonotone(ids, n, ClaimsIn(before), ClaimsIn(after));
      }
    }
  }

  /**
   * While job `j` waits from `a` to `b`, the queue hands out at most 31 claims for
   * each job created no later than `j` and for each re-enqueue of one of those.
   */
  lemma WaitBounded(es: seq<Event>, a: nat, b: nat, j: JobId)
    requires Run(es) && j < |Exec(es).jobs|
    requires Waiting(es, a, b, j)
    ensures Count(es[..b], AnyClaim()) - Count(es[..a], AnyClaim())
         <= Total(NoLater(es, j), |Exec(es).jobs|, Budget(es[..b]))
  {
    var n := |Exec(es).jobs|;
    WindowClaims(es, a, b, j, n);
    RunPrefix(es, b);
    forall i: nat | i < n && i in NoLater(es, j) ensures ClaimsIn(es[..b])(i) <= Budget(es[..b])(i) {
      ClaimsBounded(es[..b], i);
    }
    TotalMonotone(NoLater(es, j), n, ClaimsIn(es[..b]), Budget(es[..b]));
  }

  /** Without re-enqueues of those jobs the wait is at most 31 claims for each of them. */
  lemma WaitBoundedWithoutRequeues(es: seq<Event>, a: nat, b: nat, j: JobId)
    requires Run(es) && j < |Exec(es).jobs|
    requires Waiting(es, a, b, j)
    requires forall i :: i in NoLater(es, j) ==> Requeues(es[..b], i) == 0
    ensures Count(es[..b], AnyClaim()) - Count(es[..a], AnyClaim()) <= 31 * |NoLater(es, j)|
  {
    WaitBounded(es, a, b, j);
    TotalConstant(NoLater(es, j), |Exec(es).jobs|, Budget(es[..b]), 31);
  }
}
