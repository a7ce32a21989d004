/** The fixed-window rate limiter: its pruning cannot be noticed, and what its windows promise. */
module RateLimit {
  import opened Wrappers

  type Key = string

  const SECOND: int := 1_000_000_000  // the monotonic clock counts nanoseconds
  const PRUNE_ABOVE: nat := 10_000

  datatype Bucket = Bucket(startedAt: int, count: nat)

  type Buckets = map<Key, Bucket>

  datatype Call = Call(now: int, enabled: bool, windowSeconds: nat, limit: nat, key: Key)

  function Window(call: Call): (w: int)
    ensures w >= SECOND
  {
    (if call.windowSeconds < 1 then 1 else call.windowSeconds) * SECOND
  }

  /** `duration_since`: zero for a later start. */
  function Elapsed(now: int, start: int): nat {
    if now < start then 0 else now - start
  }

  predicate Live(b: Bucket, call: Call) {
    Elapsed(call.now, b.startedAt) < Window(call)
  }

  function Retained(buckets: Buckets, call: Call): Buckets {
    map key | key in buckets && Live(buckets[key], call) :: buckets[key]
  }

  function Pruned(buckets: Buckets, call: Call): Buckets {
    if |buckets| > PRUNE_ABOVE then Retained(buckets, call) else buckets
  }

  /** The bucket a call is counted in: its own, or a new one when there is none or its window is over. */
  function Current(buckets: Buckets, call: Call): Bucket {
    if call.key in buckets && Live(buckets[call.key], call) then buckets[call.key] else Bucket(call.now, 0)
  }

  predicate Exempt(call: Call) {
    !call.enabled || call.limit == 0
  }

  predicate Admits(buckets: Buckets, call: Call) {
    Exempt(call) || Current(buckets, call).count < call.limit
  }

  /** The buckets after a call when nothing is pruned. */
  function Counted(buckets: Buckets, call: Call): Buckets {
    if Exempt(call) then buckets
    else
      var b := Current(buckets, call);
      buckets[call.key := if b.count < call.limit then b.(count := b.count + 1) else b]
  }

  function Checked(buckets: Buckets, call: Call): Buckets {
    if Exempt(call) then buckets else Counted(Pruned(buckets, call), call)
  }

  class RateLimiter {
    var buckets: Buckets

    constructor ()
      ensures buckets == map[]
    {
      buckets := map[];
    }

    method Check(call: Call) returns (ok: bool)
      modifies this
      ensures buckets == Checked(old(buckets), call)
      ensures ok == Admits(Pruned(old(buckets), call), call)
      ensures !call.enabled || call.limit == 0 ==> ok && buckets == old(buckets)
      ensures call.enabled && call.limit > 0 ==>
        var w := if call.windowSeconds < 1 then 1_000_000_000 else call.windowSeconds * 1_000_000_000;
        var held := call.key in old(buckets) && call.now - old(buckets)[call.key].startedAt < w;
        && (ok <==> held ==> old(buckets)[call.key].count < call.limit)
        && call.key in buckets
        && buckets[call.key] == (if !held then Bucket(call.now, 1)
             else if ok then Bucket(old(buckets)[call.key].startedAt, old(buckets)[call.key].count + 1) else old(buckets)[call.key])
      ensures forall key :: key in buckets && key != call.key ==> key in old(buckets) && buckets[key] == old(buckets)[key]
      ensures forall key :: key in old(buckets) && key !in buckets ==> |old(buckets)| > 10_000 && call.enabled && call.limit > 0
    {
      if !call.enabled || call.limit == 0 { return true; }
      if |buckets| > PRUNE_ABOVE { buckets := Retained(buckets, call); }
      if call.key !in buckets { buckets := buckets[call.key := Bucket(call.now, 0)]; }
      var bucket := buckets[call.key];
      if Elapsed(call.now, bucket.startedAt) >= Window(call) { bucket := Bucket(call.now, 0); }
      if bucket.count >= call.limit {
        buckets := buckets[call.key := bucket];
        return false;
      }
      buckets := buckets[call.key := bucket.(count := bucket.count + 1)];
      ok := true;
    }
  }

  // ---------------------------------------------------------------- runs, with and without pruning

  function Front(calls: seq<Call>): seq<Call>
    requires calls != []
  {
    calls[..|calls| - 1]
  }

  function Last(calls: seq<Call>): Call
    requires calls != []
  {
    calls[|calls| - 1]
  }

  function Run(calls: seq<Call>): Buckets {
    if calls == [] then map[] else Checked(Run(Front(calls)), Last(calls))
  }

  function UnprunedRun(calls: seq<Call>): Buckets {
    if calls == [] then map[] else Counted(UnprunedRun(Front(calls)), Last(calls))
  }

  /** The answers to all the calls, in order. */
  function Answers(calls: seq<Call>): seq<bool> {
    if calls == [] then [] else Answers(Front(calls)) + [Admits(Pruned(Run(Front(calls)), Last(calls)), Last(calls))]
  }

  function UnprunedAnswers(calls: seq<Call>): seq<bool> {
    if calls == [] then [] else UnprunedAnswers(Front(calls)) + [Admits(UnprunedRun(Front(calls)), Last(calls))]
  }

  /** Calls in clock order, all with the window `w`. */
  predicate InOrder(calls: seq<Call>, w: int) {
    && (forall i :: 0 <= i < |calls| ==> Window(calls[i]) == w)
    && forall i, k :: 0 <= i < k < |calls| ==> calls[i].now <= calls[k].now
  }

  /** The pruned table is the unpruned one without some windows that are over. */
  ghost predicate Agree(pruned: Buckets, full: Buckets, now: int, w: int) {
    && (forall key :: key in pruned ==> key in full && pruned[key] == full[key])
    && (forall key :: key in full && key !in pruned ==> Elapsed(now, full[key].startedAt) >= w)
  }

  lemma AgreeStep(pruned: Buckets, full: Buckets, call: Call, w: int)
    requires Agree(pruned, full, call.now, w) && Window(call) == w
    ensures Admits(Pruned(pruned, call), call) == Admits(full, call)
    ensures Agree(Checked(pruned, call), Counted(full, call), call.now, w)
  {
  }

  lemma {:induction false} PrunedAgrees(calls: seq<Call>, w: int, now: int)
    requires InOrder(calls, w) && (calls != [] ==> Last(calls).now <= now)
    ensures Agree(Run(calls), UnprunedRun(calls), now, w)
    ensures Answers(calls) == UnprunedAnswers(calls)
    decreases |calls|
  {
    if calls != [] {
      PrunedAgrees(Front(calls), w, Last(calls).now);
      AgreeStep(Run(Front(calls)), UnprunedRun(Front(calls)), Last(calls), w);
    }
  }

  /** With one window and a clock that runs forwards, pruning changes no answer. */
  lemma PruningIsInvisible(calls: seq<Call>, w: int)
    requires InOrder(calls, w)
    ensures Answers(calls) == UnprunedAnswers(calls)
  {
    PrunedAgrees(calls, w, if calls == [] then 0 else Last(calls).now);
  }

  // ---------------------------------------------------------------- how much a window lets through

  /** Calls for `key` that were let through at a time from `s` up to, but not including, `s + w`. */
  function Accepted(calls: seq<Call>, key: Key, s: int, w: int): nat {
    if calls == [] then 0
    else
      var call := Last(calls);
      Accepted(Front(calls), key, s, w)
      + (if call.key == key && s <= call.now < s + w && Admits(Pruned(Run(Front(calls)), call), call) then 1 else 0)
  }

  /** Calls in order, and those for `key` checked against the limit `limit`. */
  predicate Limited(calls: seq<Call>, key: Key, limit: nat, w: int) {
    InOrder(calls, w) && forall i :: 0 <= i < |calls| && calls[i].key == key ==> calls[i].enabled && calls[i].limit == limit
  }

  /** What the bucket of `key` says about the interval from `s`. */
  ghost predicate Booked(full: Buckets, key: Key, limit: nat, s: int, w: int, accepted: nat) {
    if key !in full then accepted == 0
    else
      var b := full[key];
      && 1 <= b.count <= limit
      && (b.startedAt < s ==> accepted <= b.count - 1)
      && (s <= b.startedAt < s + w ==> accepted <= limit - 1 + b.count)
      && accepted <= 2 * limit - 1
  }

  lemma BookedStep(full: Buckets, call: Call, key: Key, limit: nat, s: int, w: int, accepted: nat)
    requires Booked(full, key, limit, s, w, accepted) && Window(call) == w && limit > 0
    requires call.key == key ==> call.enabled && call.limit == limit
    requires key in full ==> full[key].startedAt <= call.now
    requires call.now < s ==> accepted == 0
    ensures Booked(Counted(full, call), key, limit, s, w,
      accepted + (if call.key == key && s <= call.now < s + w && Admits(full, call) then 1 else 0))
  {
  }

  lemma {:induction false} StartedInThePast(calls: seq<Call>, key: Key, now: int, w: int)
    requires InOrder(calls, w) && (calls != [] ==> Last(calls).now <= now)
    ensures key in UnprunedRun(calls) ==> UnprunedRun(calls)[key].startedAt <= now
    decreases |calls|
  {
    if calls != [] { StartedInThePast(Front(calls), key, Last(calls).now, w); }
  }

  lemma {:induction false} NoneBefore(calls: seq<Call>, key: Key, s: int, w: int)
    requires forall i :: 0 <= i < |calls| ==> calls[i].now < s
    ensures Accepted(calls, key, s, w) == 0
  {
    if calls != [] { NoneBefore(Front(calls), key, s, w); }
  }

  lemma {:induction false} Bookkeeping(calls: seq<Call>, key: Key, limit: nat, s: int, w: int)
    requires Limited(calls, key, limit, w) && limit > 0
    ensures Booked(UnprunedRun(calls), key, limit, s, w, Accepted(calls, key, s, w))
    decreases |calls|
  {
    if calls != [] {
      var front, call := Front(calls), Last(calls);
      Bookkeeping(front, key, limit, s, w);
      StartedInThePast(front, key, call.now, w);
      PrunedAgrees(front, w, call.now);
      AgreeStep(Run(front), UnprunedRun(front), call, w);
      if call.now < s { NoneBefore(front, key, s, w); }
      BookedStep(UnprunedRun(front), call, key, limit, s, w, Accepted(front, key, s, w));
    }
  }

  /** No interval as long as the window lets through more than twice the limit less one. */
  lemma AcceptedBounded(calls: seq<Call>, key: Key, limit: nat, s: int, w: int)
    requires Limited(calls, key, limit, w) && limit > 0
    ensures Accepted(calls, key, s, w) <= 2 * limit - 1
  {
    Bookkeeping(calls, key, limit, s, w);
  }

  // ---------------------------------------------------------------- and the bound is reached

  function Burst(calls: seq<Call>, call: Call, n: nat): seq<Call> {
    if n == 0 then calls else Burst(calls, call, n - 1) + [call]
  }

  function Filled(key: Key, limit: nat, seconds: nat): seq<Call>
    requires limit > 0 && seconds > 0
  {
    Burst([Call(0, true, seconds, limit, key)], Call(seconds * SECOND - 1, true, seconds, limit, key), limit - 1)
  }

  /** One call at time 0, the rest of its window just before it ends, a full window right after. */
  function Worst(key: Key, limit: nat, seconds: nat): seq<Call>
    requires limit > 0 && seconds > 0
  {
    Burst(Filled(key, limit, seconds), Call(seconds * SECOND, true, seconds, limit, key), limit)
  }

  lemma {:induction false} BurstInOrder(calls: seq<Call>, call: Call, n: nat)
    requires Limited(calls, call.key, call.limit, Window(call)) && calls != [] && Last(calls).now <= call.now && call.enabled
    ensures Limited(Burst(calls, call, n), call.key, call.limit, Window(call))
    ensures Burst(calls, call, n) != [] && Last(Burst(calls, call, n)).now <= call.now
  {
    if n > 0 { BurstInOrder(calls, call, n - 1); }
  }

  /** The bucket that counts a key, and the calls let through in an interval. */
  datatype Tally = Tally(held: Option<Bucket>, accepted: nat)

  function TallyCall(t: Tally, call: Call, s: int, w: int): Tally {
    var b := if t.held.Some? && Live(t.held.value, call) then t.held.value else Bucket(call.now, 0);
    if b.count < call.limit then
      Tally(Some(b.(count := b.count + 1)), t.accepted + (if s <= call.now < s + w then 1 else 0))
    else
      Tally(Some(b), t.accepted)
  }

  /** One key on its own: the other keys do not matter to it. */
  function TallyOf(calls: seq<Call>, key: Key, s: int, w: int): Tally {
    if calls == [] then Tally(None, 0)
    else
      var t := TallyOf(Front(calls), key, s, w);
      if Last(calls).key == key then TallyCall(t, Last(calls), s, w) else t
  }

  lemma {:induction false} TallyIsTheRun(calls: seq<Call>, key: Key, limit: nat, s: int, w: int)
    requires Limited(calls, key, limit, w) && limit > 0
    ensures var t := TallyOf(calls, key, s, w);
      && t.accepted == Accepted(calls, key, s, w)
      && (t.held.Some? <==> key in UnprunedRun(calls)) && (t.held.Some? ==> t.held.value == UnprunedRun(calls)[key])
    decreases |calls|
  {
    if calls != [] {
      var front, call := Front(calls), Last(calls);
      TallyIsTheRun(front, key, limit, s, w);
      PrunedAgrees(front, w, call.now);
      AgreeStep(Run(front), UnprunedRun(front), call, w);
    }
  }

  lemma {:induction false} BurstTally(calls: seq<Call>, call: Call, n: nat, s: int, w: int, b: Bucket)
    requires TallyOf(calls, call.key, s, w).held == Some(b) && Live(b, call) && b.count + n <= call.limit && s <= call.now < s + w
    ensures TallyOf(Burst(calls, call, n), call.key, s, w)
      == Tally(Some(Bucket(b.startedAt, b.count + n)), TallyOf(calls, call.key, s, w).accepted + n)
  {
    if n > 0 {
      BurstTally(calls, call, n - 1, s, w, b);
      assert Front(Burst(calls, call, n)) == Burst(calls, call, n - 1);
    }
  }

  lemma {:induction false} BurstFrom(calls: seq<Call>, call: Call, n: nat)
    requires n > 0
    ensures Burst(calls, call, n) == Burst(calls + [call], call, n - 1)
  {
    if n > 1 { BurstFrom(calls, call, n - 1); }
  }

  lemma FilledInOrder(key: Key, limit: nat, seconds: nat)
    requires limit > 0 && seconds > 0
    ensures var calls, w := Filled(key, limit, seconds), seconds * SECOND;
      Limited(calls, key, limit, w) && calls != [] && Last(calls).now <= w
  {
    var w, first := seconds * SECOND, Call(0, true, seconds, limit, key);
    assert Limited([first], key, limit, w);
    BurstInOrder([first], first.(now := w - 1), limit - 1);
  }

  lemma FilledTally(key: Key, limit: nat, seconds: nat)
    requires limit > 0 && seconds > 0
    ensures var w := seconds * SECOND; TallyOf(Filled(key, limit, seconds), key, w - 1, w) == Tally(Some(Bucket(0, limit)), limit - 1)
  {
    var w, first := seconds * SECOND, Call(0, true, seconds, limit, key);
    assert Front([first]) == [];
    BurstTally([first], first.(now := w - 1), limit - 1, w - 1, w, Bucket(0, 1));
  }

  lemma WorstTally(key: Key, limit: nat, seconds: nat)
    requires limit > 0 && seconds > 0
    ensures var w := seconds * SECOND; TallyOf(Worst(key, limit, seconds), key, w - 1, w).accepted == 2 * limit - 1
  {
    var w, late := seconds * SECOND, Call(seconds * SECOND, true, seconds, limit, key);
    var filled := Filled(key, limit, seconds);
    FilledTally(key, limit, seconds);
    assert Front(filled + [late]) == filled;
    BurstFrom(filled, late, limit);
    BurstTally(filled + [late], late, limit - 1, w - 1, w, Bucket(w, 1));
  }

  lemma WorstInOrder(key: Key, limit: nat, seconds: nat)
    requires limit > 0 && seconds > 0
    ensures Limited(Worst(key, limit, seconds), key, limit, seconds * SECOND)
  {
    FilledInOrder(key, limit, seconds);
    BurstInOrder(Filled(key, limit, seconds), Call(seconds * SECOND, true, seconds, limit, key), limit);
  }

  /** For every limit and window these calls, in order, have exactly that many let through. */
  lemma BoundReached(key: Key, limit: nat, seconds: nat)
    requires limit > 0 && seconds > 0
    ensures var calls, w := Worst(key, limit, seconds), seconds * SECOND;
      Limited(calls, key, limit, w) && Accepted(calls, key, w - 1, w) == 2 * limit - 1
  {
    WorstInOrder(key, limit, seconds);
    WorstTally(key, limit, seconds);
    TallyIsTheRun(Worst(key, limit, seconds), key, limit, seconds * SECOND - 1, seconds * SECOND);
  }
}
