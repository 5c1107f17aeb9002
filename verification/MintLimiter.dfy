/**
 The windowed rate limiter: one bucket per key, opened by the first call and
 replaced by the first call after its window is over. Pruning drops buckets whose
 window is over.

 The specification looks at the call times of a single key and knows no map, no
 other keys and no pruning.
 */
module MintLimiter {
  import opened Wrappers

  // Nanoseconds on the monotonic clock.
  type Instant = nat

  datatype Config = Config(limit: nat, window: nat, burst: nat) {
    predicate Valid() {
      limit >= 1 && window >= 1
    }

    // Calls one bucket admits.
    function Cap(): nat {
      Max(limit, burst)
    }
  }

  const NANOS_PER_SEC: nat := 1_000_000_000

  function NewConfig(limit: nat, windowSecs: nat, burst: nat): (c: Config)
    ensures c.Valid() && c.Cap() == Max(1, Max(limit, burst)) && c.window == Max(windowSecs, 1) * NANOS_PER_SEC
  {
    Config(Max(limit, 1), Max(windowSecs, 1) * NANOS_PER_SEC, burst)
  }

  datatype Bucket = Bucket(windowStart: Instant, count: nat)

  // Zero if the clock reads earlier than `since`.
  function Elapsed(since: Instant, now: Instant): nat {
    if now < since then 0 else now - since
  }

  // ---------- One key ----------

  // A call at `now` on the key's bucket: the bucket afterwards and the answer.
  function Step(c: Config, b: Option<Bucket>, now: Instant): (Bucket, bool) {
    var entry := if b.Some? && Elapsed(b.value.windowStart, now) < c.window then b.value else Bucket(now, 0);
    if entry.count < c.burst || entry.count < c.limit then (entry.(count := entry.count + 1), true) else (entry, false)
  }

  // The bucket after calls of one key at `times` that find bucket b.
  function BucketOn(c: Config, b: Option<Bucket>, times: seq<Instant>): Option<Bucket> {
    if times == [] then b else Some(Step(c, BucketOn(c, b, times[..|times| - 1]), times[|times| - 1]).0)
  }

  // The answers to those calls, in order.
  function AnswersOn(c: Config, b: Option<Bucket>, times: seq<Instant>): (answers: seq<bool>)
    ensures |answers| == |times|
  {
    if times == [] then []
    else
      var before := times[..|times| - 1];
      AnswersOn(c, b, before) + [Step(c, BucketOn(c, b, before), times[|times| - 1]).1]
  }

  predicate Sorted(times: seq<Instant>) {
    forall i, j :: 0 <= i < j < |times| ==> times[i] <= times[j]
  }

  lemma FurtherCall(c: Config, found: Option<Bucket>, times: seq<Instant>, now: Instant)
    ensures BucketOn(c, found, times + [now]) == Some(Step(c, BucketOn(c, found, times), now).0)
    ensures AnswersOn(c, found, times + [now])
            == AnswersOn(c, found, times) + [Step(c, BucketOn(c, found, times), now).1]
  {
    assert (times + [now])[..|times|] == times;
  }

  // A call on a bucket whose window is not over, or on none.
  lemma OneCall(c: Config, b: Option<Bucket>, now: Instant)
    requires c.Valid()
    requires b.Some? ==> Elapsed(b.value.windowStart, now) < c.window && b.value.count <= c.Cap()
    ensures var found := if b.Some? then b.value else Bucket(now, 0);
            Step(c, b, now) == (found.(count := Min(found.count + 1, c.Cap())), found.count < c.Cap())
  {
  }

  // Calls admitted at times in [from, to).
  function AdmittedIn(c: Config, times: seq<Instant>, from: Instant, to: Instant): nat {
    if times == [] then 0
    else
      var before, now := times[..|times| - 1], times[|times| - 1];
      AdmittedIn(c, before, from, to)
      + if from <= now < to && Step(c, BucketOn(c, None, before), now).1 then 1 else 0
  }

  lemma {:induction false} AdmittedSoFar(c: Config, times: seq<Instant>, from: Instant)
    requires c.Valid() && Sorted(times)
    ensures times == [] ==> BucketOn(c, None, times) == None
    ensures times != [] ==>
      var b := BucketOn(c, None, times).value;
      var n := AdmittedIn(c, times, from, from + c.window);
      1 <= b.count <= c.Cap() && b.windowStart <= times[|times| - 1]
      && (times[|times| - 1] < from + c.window ==> n <= b.count + (if b.windowStart < from then -1 else c.Cap() - 1))
      && (times[|times| - 1] < from ==> n == 0)
      && n <= 2 * c.Cap() - 1
    decreases |times|
  {
    if times != [] {
      var before := times[..|times| - 1];
      AdmittedSoFar(c, before, from);
      assert before != [] ==> before[|before| - 1] == times[|times| - 2] <= times[|times| - 1];
    }
  }

  /** However the calls of a key fall, fewer than twice the cap are admitted in
      any stretch of time as long as one window. */
  lemma WindowBound(c: Config, times: seq<Instant>, from: Instant)
    requires c.Valid() && Sorted(times)
    ensures AdmittedIn(c, times, from, from + c.window) <= 2 * c.Cap() - 1
  {
    AdmittedSoFar(c, times, from);
  }

  // `n` calls, all at `now`.
  function Again(now: Instant, n: nat): (times: seq<Instant>)
    ensures |times| == n && forall i :: 0 <= i < n ==> times[i] == now
  {
    if n == 0 then [] else Again(now, n - 1) + [now]
  }

  lemma OneMoreAdmitted(c: Config, times: seq<Instant>, now: Instant, from: Instant, to: Instant)
    ensures AdmittedIn(c, times + [now], from, to)
            == AdmittedIn(c, times, from, to)
               + if from <= now < to && Step(c, BucketOn(c, None, times), now).1 then 1 else 0
  {
    assert (times + [now])[..|times|] == times;
  }

  // An open bucket after k more calls, and one call more.
  function Filled(c: Config, b: Bucket, k: nat): Bucket {
    b.(count := Min(b.count + k, c.Cap()))
  }

  lemma FilledStep(c: Config, b: Bucket, k: nat, now: Instant)
    requires c.Valid() && Elapsed(b.windowStart, now) < c.window && b.count <= c.Cap()
    ensures Step(c, Some(Filled(c, b, k)), now) == (Filled(c, b, k + 1), b.count + k < c.Cap())
  {
    OneCall(c, Some(Filled(c, b, k)), now);
  }

  // Calls repeated at one time, that find an open bucket.
  lemma {:induction false} RepeatedCalls(c: Config, b: Bucket, now: Instant, n: nat)
    requires c.Valid() && Elapsed(b.windowStart, now) < c.window && b.count <= c.Cap()
    ensures BucketOn(c, Some(b), Again(now, n)) == Some(Filled(c, b, n))
    decreases n
  {
    if n > 0 {
      RepeatedCalls(c, b, now, n - 1);
      FurtherCall(c, Some(b), Again(now, n - 1), now);
      FilledStep(c, b, n - 1, now);
    }
  }

  lemma {:induction false} CallsJoined(c: Config, found: Option<Bucket>, times: seq<Instant>, more: seq<Instant>)
    ensures BucketOn(c, found, times + more) == BucketOn(c, BucketOn(c, found, times), more)
    decreases |more|
  {
    if more == [] {
      assert times + more == times;
    } else {
      var n := |more| - 1;
      assert (times + more)[..|times| + n] == times + more[..n];
      CallsJoined(c, found, times, more[..n]);
    }
  }

  lemma AdmittedOnOpen(c: Config, before: seq<Instant>, b: Bucket, now: Instant, from: Instant, to: Instant)
    requires c.Valid() && from <= now < to && BucketOn(c, None, before) == Some(b)
    requires Elapsed(b.windowStart, now) < c.window && b.count < c.Cap()
    ensures AdmittedIn(c, before + [now], from, to) == AdmittedIn(c, before, from, to) + 1
  {
    OneMoreAdmitted(c, before, now, from, to);
    OneCall(c, Some(b), now);
  }

  // They are admitted up to the cap.
  lemma {:induction false} RepeatedAdmitted(
      c: Config, times: seq<Instant>, b: Bucket, now: Instant, n: nat, from: Instant, to: Instant)
    requires c.Valid() && from <= now < to && BucketOn(c, None, times) == Some(b)
    requires Elapsed(b.windowStart, now) < c.window && b.count + n <= c.Cap()
    ensures AdmittedIn(c, times + Again(now, n), from, to) == AdmittedIn(c, times, from, to) + n
    decreases n
  {
    if n == 0 {
      assert times + Again(now, n) == times;
    } else {
      var before := times + Again(now, n - 1);
      RepeatedAdmitted(c, times, b, now, n - 1, from, to);
      CallsJoined(c, None, times, Again(now, n - 1));
      RepeatedCalls(c, b, now, n - 1);
      AdmittedOnOpen(c, before, Filled(c, b, n - 1), now, from, to);
      assert times + Again(now, n) == before + [now];
    }
  }

  lemma SortedAgain(times: seq<Instant>, now: Instant, n: nat)
    requires Sorted(times) && times != [] && times[|times| - 1] <= now
    ensures var all := times + Again(now, n);
            Sorted(all) && all != [] && all[|all| - 1] <= now
  {
  }

  lemma FirstCall(c: Config, t: Instant, from: Instant, to: Instant)
    requires c.Valid() && t < from
    ensures BucketOn(c, None, [t]) == Some(Bucket(t, 1)) && AdmittedIn(c, [t], from, to) == 0 && Sorted([t])
  {
    assert [t][..0] == [];
  }

  // A window opened at t and used up at its last instant.
  lemma UsedUpWindow(c: Config, t: Instant, from: Instant, to: Instant) returns (times: seq<Instant>)
    requires c.Valid() && c.window >= 2 && from == t + 1 && to == from + c.window
    ensures Sorted(times) && times != [] && times[|times| - 1] <= t + c.window - 1
    ensures BucketOn(c, None, times) == Some(Bucket(t, c.Cap()))
    ensures AdmittedIn(c, times, from, to) == c.Cap() - 1
  {
    var first, last := [t], t + c.window - 1;
    FirstCall(c, t, from, to);
    SortedAgain(first, last, c.Cap() - 1);
    CallsJoined(c, None, first, Again(last, c.Cap() - 1));
    RepeatedCalls(c, Bucket(t, 1), last, c.Cap() - 1);
    RepeatedAdmitted(c, first, Bucket(t, 1), last, c.Cap() - 1, from, to);
    times := first + Again(last, c.Cap() - 1);
  }

  // One more call, once the window is over, opens the next.
  lemma NextWindow(c: Config, before: seq<Instant>, b: Bucket, now: Instant, from: Instant, to: Instant)
    requires c.Valid() && Sorted(before) && before != [] && before[|before| - 1] <= now && from <= now < to
    requires BucketOn(c, None, before) == Some(b) && now >= b.windowStart + c.window
    ensures Sorted(before + [now]) && BucketOn(c, None, before + [now]) == Some(Bucket(now, 1))
    ensures AdmittedIn(c, before + [now], from, to) == AdmittedIn(c, before, from, to) + 1
  {
    FurtherCall(c, None, before, now);
    OneMoreAdmitted(c, before, now, from, to);
  }

  // A whole cap on top of what was admitted before.
  lemma WholeWindow(c: Config, before: seq<Instant>, b: Bucket, now: Instant, from: Instant, to: Instant)
    returns (times: seq<Instant>)
    requires c.Valid() && Sorted(before) && before != [] && before[|before| - 1] <= now && from <= now < to
    requires BucketOn(c, None, before) == Some(b) && now >= b.windowStart + c.window
    ensures Sorted(times) && AdmittedIn(c, times, from, to) == AdmittedIn(c, before, from, to) + c.Cap()
  {
    NextWindow(c, before, b, now, from, to);
    SortedAgain(before + [now], now, c.Cap() - 1);
    RepeatedAdmitted(c, before + [now], Bucket(now, 1), now, c.Cap() - 1, from, to);
    times := before + [now] + Again(now, c.Cap() - 1);
  }

  // The bound is reached, whenever the window opens: used up at its last
  // instant, and the whole cap again one instant later.
  lemma WindowBoundIsReached(c: Config, t: Instant) returns (times: seq<Instant>)
    requires c.Valid() && c.window >= 2
    ensures Sorted(times) && AdmittedIn(c, times, t + 1, t + 1 + c.window) == 2 * c.Cap() - 1
  {
    var from, to := t + 1, t + 1 + c.window;
    var before := UsedUpWindow(c, t, from, to);
    times := WholeWindow(c, before, Bucket(t, c.Cap()), t + c.window, from, to);
  }

  // The calls from the m-th on find no bucket that is still open, and fall into
  // one window.
  predicate OpensAt(c: Config, times: seq<Instant>, m: nat)
    requires m < |times|
  {
    (var b := BucketOn(c, None, times[..m]); b.None? || Elapsed(b.value.windowStart, times[m]) >= c.window)
    && forall i :: m <= i < |times| ==> times[m] <= times[i] < times[m] + c.window
  }

  lemma {:induction false} BucketOfWindow(c: Config, times: seq<Instant>, m: nat)
    requires c.Valid() && m < |times| && OpensAt(c, times, m)
    ensures BucketOn(c, None, times) == Some(Bucket(times[m], Min(|times| - m, c.Cap())))
    decreases |times|
  {
    var n := |times| - 1;
    var before := times[..n];
    if m < n {
      assert before[..m] == times[..m];
      BucketOfWindow(c, before, m);
      OneCall(c, BucketOn(c, None, before), times[n]);
    } else {
      FirstOfBucket(c, BucketOn(c, None, before), times[n]);
    }
  }

  /** A bucket opened by the m-th call admits exactly the first Cap() calls of
      its window, that call included. */
  lemma {:induction false} FirstCallsAdmitted(c: Config, times: seq<Instant>, m: nat)
    requires c.Valid() && m < |times| && OpensAt(c, times, m)
    ensures forall i :: m <= i < |times| ==> (AnswersOn(c, None, times)[i] <==> i - m < c.Cap())
    decreases |times|
  {
    var n := |times| - 1;
    var before := times[..n];
    if m < n {
      assert before[..m] == times[..m];
      FirstCallsAdmitted(c, before, m);
      BucketOfWindow(c, before, m);
      OneCall(c, BucketOn(c, None, before), times[n]);
    } else {
      FirstOfBucket(c, BucketOn(c, None, before), times[n]);
    }
    OneMoreAnswer(AnswersOn(c, None, before), Step(c, BucketOn(c, None, before), times[n]).1, m, c.Cap());
  }

  // Which answers are yes, from the m-th on.
  lemma OneMoreAnswer(answers: seq<bool>, last: bool, m: nat, cap: nat)
    requires forall i :: m <= i < |answers| ==> (answers[i] <==> i - m < cap)
    requires m <= |answers| && (last <==> |answers| - m < cap)
    ensures forall i :: m <= i < |answers + [last]| ==> ((answers + [last])[i] <==> i - m < cap)
  {
  }

  // A call that finds no bucket, or one whose window is over.
  lemma FirstOfBucket(c: Config, b: Option<Bucket>, now: Instant)
    requires c.Valid() && (b.None? || Elapsed(b.value.windowStart, now) >= c.window)
    ensures Step(c, b, now) == (Bucket(now, 1), true)
  {
  }

  // ---------- The whole limiter ----------

  datatype Op = Allow(key: string, now: Instant) | Prune(now: Instant)

  function AllowOn(c: Config, buckets: map<string, Bucket>, key: string, now: Instant): (map<string, Bucket>, bool) {
    var (b, answer) := Step(c, if key in buckets then Some(buckets[key]) else None, now);
    (buckets[key := b], answer)
  }

  function PruneOn(c: Config, buckets: map<string, Bucket>, now: Instant): map<string, Bucket> {
    map key | key in buckets && Elapsed(buckets[key].windowStart, now) < c.window :: buckets[key]
  }

  function BucketsAfter(c: Config, ops: seq<Op>): map<string, Bucket> {
    if ops == [] then map[]
    else
      var before := BucketsAfter(c, ops[..|ops| - 1]);
      match ops[|ops| - 1]
      case Allow(key, now) => AllowOn(c, before, key, now).0
      case Prune(now) => PruneOn(c, before, now)
  }

  // The answers the calls of `key` get in a run.
  function AnswersFor(c: Config, ops: seq<Op>, key: string): seq<bool> {
    if ops == [] then []
    else
      var before, op := ops[..|ops| - 1], ops[|ops| - 1];
      AnswersFor(c, before, key)
      + if op.Allow? && op.key == key then [AllowOn(c, BucketsAfter(c, before), key, op.now).1] else []
  }

  function TimesOf(ops: seq<Op>, key: string): seq<Instant> {
    if ops == [] then []
    else
      var op := ops[|ops| - 1];
      TimesOf(ops[..|ops| - 1], key) + if op.Allow? && op.key == key then [op.now] else []
  }

  lemma OneMoreOp(c: Config, ops: seq<Op>, op: Op, key: string)
    ensures BucketsAfter(c, ops + [op])
            == if op.Allow? then AllowOn(c, BucketsAfter(c, ops), op.key, op.now).0
               else PruneOn(c, BucketsAfter(c, ops), op.now)
    ensures AnswersFor(c, ops + [op], key)
            == AnswersFor(c, ops, key)
               + if op.Allow? && op.key == key then [AllowOn(c, BucketsAfter(c, ops), key, op.now).1] else []
    ensures TimesOf(ops + [op], key)
            == TimesOf(ops, key) + if op.Allow? && op.key == key then [op.now] else []
  {
    assert (ops + [op])[..|ops|] == ops;
  }

  // The clock never runs backwards.
  predicate Monotone(ops: seq<Op>) {
    forall i, j :: 0 <= i < j < |ops| ==> ops[i].now <= ops[j].now
  }

  // A bucket, unless its window is over.
  function Live(c: Config, b: Option<Bucket>, now: Instant): Option<Bucket> {
    if b.Some? && Elapsed(b.value.windowStart, now) < c.window then b else None
  }

  function Lookup(buckets: map<string, Bucket>, key: string): Option<Bucket> {
    if key in buckets then Some(buckets[key]) else None
  }

  // An absent bucket and one whose window is over answer alike, now and later.
  lemma LiveDecides(c: Config, b: Option<Bucket>, b': Option<Bucket>, earlier: Instant, now: Instant)
    requires earlier <= now && Live(c, b, earlier) == Live(c, b', earlier)
    ensures Live(c, b, now) == Live(c, b', now) && Step(c, b, now) == Step(c, b', now)
  {
  }

  lemma {:induction false} BucketsAreLive(c: Config, ops: seq<Op>, key: string, now: Instant)
    requires Monotone(ops) && (ops != [] ==> ops[|ops| - 1].now <= now)
    ensures Live(c, Lookup(BucketsAfter(c, ops), key), now) == Live(c, BucketOn(c, None, TimesOf(ops, key)), now)
    ensures AnswersFor(c, ops, key) == AnswersOn(c, None, TimesOf(ops, key))
    decreases |ops|
  {
    if ops != [] {
      var before, op := ops[..|ops| - 1], ops[|ops| - 1];
      BucketsAreLive(c, before, key, op.now);
      var b, b' := Lookup(BucketsAfter(c, before), key), BucketOn(c, None, TimesOf(before, key));
      LiveDecides(c, b, b', op.now, op.now);
      LiveDecides(c, b, b', op.now, now);
      if op.Allow? && op.key == key {
        FurtherCall(c, None, TimesOf(before, key), op.now);
      } else {
        assert TimesOf(before, key) + [] == TimesOf(before, key);
      }
    }
  }

  /** In every run on a monotonic clock, the answers for a key are those of its
      own calls alone: other keys and prunes, wherever they come, change nothing. */
  lemma KeysAreIndependent(c: Config, ops: seq<Op>, ops': seq<Op>, key: string)
    requires Monotone(ops) && Monotone(ops') && TimesOf(ops, key) == TimesOf(ops', key)
    ensures AnswersFor(c, ops, key) == AnswersFor(c, ops', key) == AnswersOn(c, None, TimesOf(ops, key))
  {
    BucketsAreLive(c, ops, key, if ops == [] then 0 else ops[|ops| - 1].now);
    BucketsAreLive(c, ops', key, if ops' == [] then 0 else ops'[|ops'| - 1].now);
  }

  // ---------- On any clock ----------

  // Calls of `key` at `times`.
  function Calls(key: string, times: seq<Instant>): (ops: seq<Op>)
    ensures |ops| == |times|
  {
    if times == [] then [] else Calls(key, times[..|times| - 1]) + [Allow(key, times[|times| - 1])]
  }

  // The answers to further calls depend on the bucket they find only.
  lemma {:induction false} FurtherCalls(c: Config, ops: seq<Op>, key: string, times: seq<Instant>)
    ensures var all, b := ops + Calls(key, times), Lookup(BucketsAfter(c, ops), key);
            AnswersFor(c, all, key) == AnswersFor(c, ops, key) + AnswersOn(c, b, times)
            && Lookup(BucketsAfter(c, all), key) == BucketOn(c, b, times)
    decreases |times|
  {
    if times == [] {
      assert ops + [] == ops;
      assert AnswersFor(c, ops, key) + [] == AnswersFor(c, ops, key);
    } else {
      var before, now := times[..|times| - 1], times[|times| - 1];
      FurtherCalls(c, ops, key, before);
      Regroup(ops, Calls(key, before), [Allow(key, now)]);
      OneMoreOp(c, ops + Calls(key, before), Allow(key, now), key);
      var b := Lookup(BucketsAfter(c, ops), key);
      Regroup(AnswersFor(c, ops, key), AnswersOn(c, b, before), [Step(c, BucketOn(c, b, before), now).1]);
    }
  }

  // Every bucket of every run has admitted a call, and no more than the cap.
  lemma {:induction false} BucketsAreUsed(c: Config, ops: seq<Op>, key: string)
    requires c.Valid()
    ensures var b := Lookup(BucketsAfter(c, ops), key);
            b.Some? ==> 1 <= b.value.count <= c.Cap()
    decreases |ops|
  {
    if ops != [] {
      BucketsAreUsed(c, ops[..|ops| - 1], key);
    }
  }

  predicate NoneBefore(times: seq<Instant>, s: Instant) {
    forall i :: 0 <= i < |times| ==> times[i] >= s
  }

  // A bucket that is over at s is over for every later call, as if it were absent.
  lemma {:induction false} OverIsAbsent(c: Config, b: Bucket, s: Instant, times: seq<Instant>)
    requires Elapsed(b.windowStart, s) >= c.window >= 1 && NoneBefore(times, s)
    ensures AnswersOn(c, Some(b), times) == AnswersOn(c, None, times)
    ensures times != [] ==> BucketOn(c, Some(b), times) == BucketOn(c, None, times)
    decreases |times|
  {
    if times != [] {
      OverIsAbsent(c, b, s, times[..|times| - 1]);
    }
  }

  // The last of n calls at s that find b, whose window is not over there.
  lemma LastRepeated(c: Config, b: Bucket, s: Instant, n: nat)
    requires c.Valid() && Elapsed(b.windowStart, s) < c.window && b.count <= c.Cap() && n > 0
    ensures AnswersOn(c, Some(b), Again(s, n))[n - 1] <==> b.count + n <= c.Cap()
  {
    RepeatedCalls(c, b, s, n - 1);
    FurtherCall(c, Some(b), Again(s, n - 1), s);
    FilledStep(c, b, n - 1, s);
  }

  // Calls at s that find no bucket answer like those that find one opened at s.
  lemma {:induction false} AbsentIsFresh(c: Config, s: Instant, n: nat)
    requires c.Valid()
    ensures AnswersOn(c, None, Again(s, n)) == AnswersOn(c, Some(Bucket(s, 0)), Again(s, n))
    ensures n > 0 ==> BucketOn(c, None, Again(s, n)) == BucketOn(c, Some(Bucket(s, 0)), Again(s, n))
    decreases n
  {
    if n > 0 {
      AbsentIsFresh(c, s, n - 1);
    }
  }

  // The prune at `t` drops a bucket that a later call at `s` would find open: the
  // calls' clock is behind the prune's by then.
  predicate DropsEarly(c: Config, b: Option<Bucket>, t: Instant, s: Instant) {
    b.Some? && Elapsed(b.value.windowStart, t) >= c.window && Elapsed(b.value.windowStart, s) < c.window
  }

  lemma PrunedBucket(c: Config, ops: seq<Op>, key: string, t: Instant)
    ensures Lookup(BucketsAfter(c, ops + [Prune(t)]), key) == Live(c, Lookup(BucketsAfter(c, ops), key), t)
    ensures AnswersFor(c, ops + [Prune(t)], key) == AnswersFor(c, ops, key)
  {
    OneMoreOp(c, ops, Prune(t), key);
    assert AnswersFor(c, ops, key) + [] == AnswersFor(c, ops, key);
  }

  // Later calls at `times` cannot tell whether there was a prune at `t`.
  predicate Hidden(c: Config, ops: seq<Op>, key: string, t: Instant, times: seq<Instant>) {
    AnswersFor(c, ops + [Prune(t)] + Calls(key, times), key) == AnswersFor(c, ops + Calls(key, times), key)
  }

  lemma HiddenOn(c: Config, ops: seq<Op>, key: string, t: Instant, times: seq<Instant>)
    ensures var b := Lookup(BucketsAfter(c, ops), key);
            Hidden(c, ops, key, t, times) <==> AnswersOn(c, Live(c, b, t), times) == AnswersOn(c, b, times)
  {
    FurtherCalls(c, ops, key, times);
    FurtherCalls(c, ops + [Prune(t)], key, times);
    PrunedBucket(c, ops, key, t);
    var before, b := AnswersFor(c, ops, key), Lookup(BucketsAfter(c, ops), key);
    assert (before + AnswersOn(c, b, times))[|before|..] == AnswersOn(c, b, times);
    assert (before + AnswersOn(c, Live(c, b, t), times))[|before|..] == AnswersOn(c, Live(c, b, t), times);
  }

  /** In every run, on whatever clock: a prune at t is hidden from all later calls
      of a key that read the time s or a later one, exactly if it does not drop a
      bucket that is still open at s. */
  lemma PruneIsHiddenExactly(c: Config, ops: seq<Op>, key: string, t: Instant, s: Instant)
    requires c.Valid()
    ensures (forall times :: NoneBefore(times, s) ==> Hidden(c, ops, key, t, times))
            <==> !DropsEarly(c, Lookup(BucketsAfter(c, ops), key), t, s)
  {
    var b := Lookup(BucketsAfter(c, ops), key);
    BucketsAreUsed(c, ops, key);
    if DropsEarly(c, b, t, s) {
      HiddenOn(c, ops, key, t, Again(s, c.Cap()));
      LastRepeated(c, b.value, s, c.Cap());
      LastRepeated(c, Bucket(s, 0), s, c.Cap());
      AbsentIsFresh(c, s, c.Cap());
      assert !Hidden(c, ops, key, t, Again(s, c.Cap()));
    } else {
      forall times | NoneBefore(times, s) ensures Hidden(c, ops, key, t, times) {
        HiddenOn(c, ops, key, t, times);
        if b.Some? && Elapsed(b.value.windowStart, t) >= c.window {
          OverIsAbsent(c, b.value, s, times);
        }
      }
    }
  }

  // A prune that is seen, under a configuration the service can have: it forgets a
  // full bucket that a call one nanosecond behind would still have found open.
  lemma PruneNeedsTheClock()
    ensures var c, key := NewConfig(1, 1, 0), "k";
            AnswersFor(c, [Allow(key, 0), Prune(NANOS_PER_SEC), Allow(key, NANOS_PER_SEC - 1)], key)
            != AnswersFor(c, [Allow(key, 0), Allow(key, NANOS_PER_SEC - 1)], key)
  {
    var c, key, s := NewConfig(1, 1, 0), "k", NANOS_PER_SEC - 1;
    var first: seq<Op> := [Allow(key, 0)];
    assert first[..0] == [];
    assert BucketsAfter(c, first) == map[key := Bucket(0, 1)];
    assert [s][..0] == [];
    assert Calls(key, [s]) == [Allow(key, s)];
    HiddenOn(c, first, key, NANOS_PER_SEC, [s]);
    assert AnswersOn(c, None, [s]) == [true] && AnswersOn(c, Some(Bucket(0, 1)), [s]) == [false];
    assert first + Calls(key, [s]) == [Allow(key, 0), Allow(key, s)];
    assert first + [Prune(NANOS_PER_SEC)] + Calls(key, [s])
        == [Allow(key, 0), Prune(NANOS_PER_SEC), Allow(key, s)];
  }

  // What one call on the map answers, in terms of the key's own calls.
  lemma CallAnswered(c: Config, ops: seq<Op>, key: string, now: Instant)
    requires Monotone(ops) && (ops != [] ==> ops[|ops| - 1].now <= now)
    ensures var after := ops + [Allow(key, now)];
            var (b, answer) := Step(c, Lookup(BucketsAfter(c, ops), key), now);
            BucketsAfter(c, after) == BucketsAfter(c, ops)[key := b] && Monotone(after)
            && AnswersOn(c, None, TimesOf(after, key)) == AnswersOn(c, None, TimesOf(ops, key)) + [answer]
  {
    OneMoreOp(c, ops, Allow(key, now), key);
    BucketsAreLive(c, ops, key, now);
    LiveDecides(c, Lookup(BucketsAfter(c, ops), key), BucketOn(c, None, TimesOf(ops, key)), now, now);
    FurtherCall(c, None, TimesOf(ops, key), now);
  }

  class MintLimiter {
    var buckets: map<string, Bucket>
    const config: Config
    ghost var log: seq<Op>

    ghost predicate Valid()
      reads this
    {
      config.Valid() && Monotone(log) && buckets == BucketsAfter(config, log)
    }

    // No earlier call read a later time.
    ghost predicate InTime(now: Instant)
      reads this
    {
      log != [] ==> log[|log| - 1].now <= now
    }

    constructor (limit: nat, windowSecs: nat, burst: nat)
      ensures Valid() && log == []
      ensures config == NewConfig(limit, windowSecs, burst)
      ensures config.Cap() == Max(1, Max(limit, burst)) && config.window == Max(windowSecs, 1) * NANOS_PER_SEC
    {
      buckets, log := map[], [];
      config := NewConfig(limit, windowSecs, burst);
    }

    method Allow(key: string, now: Instant) returns (answer: bool)
      requires Valid() && InTime(now)
      modifies this
      ensures Valid() && log == old(log) + [Op.Allow(key, now)]
      ensures AnswersOn(config, None, TimesOf(log, key)) == AnswersOn(config, None, TimesOf(old(log), key)) + [answer]
    {
      var entry;
      entry, answer := CountCall(if key in buckets then buckets[key] else Bucket(now, 0), now);
      CallAnswered(config, log, key, now);
      buckets := buckets[key := entry];
      log := log + [Op.Allow(key, now)];
    }

    // The call on the bucket itself; a missing bucket is one opened just now.
    method CountCall(found: Bucket, now: Instant) returns (entry: Bucket, answer: bool)
      requires config.Valid()
      ensures (entry, answer) == Step(config, Some(found), now)
      ensures found == Bucket(now, 0) ==> (entry, answer) == Step(config, None, now)
    {
      entry := found;
      if Elapsed(entry.windowStart, now) >= config.window {
        entry := Bucket(now, 0);
      }
      if entry.count < config.burst {
        entry := entry.(count := entry.count + 1);
        return entry, true;
      }
      if entry.count < config.limit {
        entry := entry.(count := entry.count + 1);
        return entry, true;
      }
      answer := false;
    }

    method Prune(now: Instant)
      requires Valid() && InTime(now)
      modifies this
      ensures Valid() && log == old(log) + [Op.Prune(now)]
      ensures forall key :: TimesOf(log, key) == TimesOf(old(log), key)
    {
      buckets := map key | key in buckets && Elapsed(buckets[key].windowStart, now) < config.window :: buckets[key];
      forall key ensures TimesOf(log + [Op.Prune(now)], key) == TimesOf(log, key) {
        OneMoreOp(config, log, Op.Prune(now), key);
        assert TimesOf(log, key) + [] == TimesOf(log, key);
      }
      OneMoreOp(config, log, Op.Prune(now), "");
      log := log + [Op.Prune(now)];
    }
  }
}
