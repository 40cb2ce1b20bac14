/**
  The fixed-window rate limiter (`common/throttler/redis-throttler.storage.ts`): per throttled key one Redis counter
  that expires, and one Redis key whose presence is a hard block. One `increment` is atomic.
 */
module Throttler {
  import opened Prelude

  type Key = string

  /** A Redis string holding a number, and when it expires, if ever. */
  datatype Entry = Entry(value: nat, deadline: Option<Time>)

  /** How a route is throttled: window and hard block in milliseconds, and hits allowed per window. */
  datatype Policy = Policy(ttl: int, limit: int, blockDuration: int)

  datatype Reply = Reply(totalHits: int, timeToExpire: int, isBlocked: bool, timeToBlockExpire: int)

  /** The two Redis keys of one throttled key. */
  datatype Bucket = Bucket(hits: Option<Entry>, block: Option<Entry>)

  const EMPTY := Bucket(None, None)

  /** A key is gone once the clock has passed its deadline. */
  predicate Alive(e: Option<Entry>, now: Time) {
    e.Some? && (e.value.deadline.Some? ==> now <= e.value.deadline.value)
  }

  /** `PTTL`: milliseconds left, -1 for a key that never expires, -2 for no key. */
  function Pttl(e: Option<Entry>, now: Time): int {
    if !Alive(e, now) then -2
    else if e.value.deadline.None? then -1
    else e.value.deadline.value - now
  }

  /** `INCR` keeps the expiry of a live key and starts a missing one at 1 without expiry. */
  function Incr(e: Option<Entry>, now: Time): Entry {
    if Alive(e, now) then e.value.(value := e.value.value + 1) else Entry(1, None)
  }

  /** `PEXPIRE`; a lifetime that is not positive deletes the key. */
  function Pexpire(e: Entry, now: Time, ttl: int): Option<Entry> {
    if ttl > 0 then Some(e.(deadline := Some(now + ttl))) else None
  }

  /** Milliseconds in whole seconds, rounded up. */
  function Seconds(ms: int): int {
    (ms + 999) / 1000
  }

  function Hit(b: Bucket, now: Time, p: Policy): (Bucket, Reply) {
    var blockPttl := Pttl(b.block, now);
    if blockPttl > 0 then (b, Reply(p.limit + 1, 0, true, Seconds(blockPttl))) else
    var hits := Incr(b.hits, now);
    var pttl := Pttl(Some(hits), now);
    var blocked := hits.value > p.limit;
    (Bucket(if pttl < 0 then Pexpire(hits, now, p.ttl) else Some(hits),
            if blocked && p.blockDuration > 0 then Some(Entry(1, Some(now + p.blockDuration))) else b.block),
     Reply(hits.value, Max(0, Seconds(if pttl < 0 then p.ttl else pttl)), blocked,
           if blocked && p.blockDuration > 0 then Seconds(p.blockDuration) else 0))
  }

  /** The bucket after requests at `times`, one after the other. */
  function After(b: Bucket, times: seq<Time>, p: Policy): Bucket {
    if times == [] then b else Hit(After(b, times[..|times| - 1], p), times[|times| - 1], p).0
  }

  /** How many of the requests made between `lo` and `hi`, both included, are let through. */
  function Admitted(b: Bucket, times: seq<Time>, p: Policy, lo: Time, hi: Time): nat {
    if times == [] then 0 else
    var (before, now) := (times[..|times| - 1], times[|times| - 1]);
    Admitted(b, before, p, lo, hi) + Count(lo <= now <= hi && !Hit(After(b, before, p), now, p).1.isBlocked)
  }

  predicate Ordered(times: seq<Time>) {
    forall i, j | 0 <= i < j < |times| :: times[i] <= times[j]
  }

  /**
    A counter that expires counts at least one hit. One without an expiry may stand anywhere: the next hit gives it
    one.
   */
  predicate Timed(b: Bucket) {
    b.hits.Some? && b.hits.value.deadline.Some? ==> b.hits.value.value >= 1
  }

  /** The counter is inside a window. */
  predicate InWindow(b: Bucket, now: Time) {
    Alive(b.hits, now) && b.hits.value.deadline.Some?
  }

  // ----- The rate bound -----

  /** How many windows can open in a stretch of `ms` milliseconds after a first moment, that moment included. */
  function Windows(ms: int, ttl: nat): nat {
    if ms < 0 then 0 else Windows(ms - (ttl + 1), ttl) + 1
  }

  lemma {:induction false} WindowsGrow(a: int, b: int, ttl: nat)
    requires a <= b
    ensures Windows(a, ttl) <= Windows(b, ttl)
    decreases if a < 0 then 0 else a + 1
  {
    if a >= 0 { WindowsGrow(a - (ttl + 1), b - (ttl + 1), ttl); }
  }

  lemma {:induction false} WindowsFit(ms: nat, ttl: nat)
    ensures (Windows(ms, ttl) - 1) * (ttl + 1) <= ms
  {
    if ms >= ttl + 1 { WindowsFit(ms - (ttl + 1), ttl); }
  }

  lemma WindowsAtMost(ms: nat, ttl: nat)
    requires ttl > 0
    ensures Windows(ms, ttl) <= ms / ttl + 1
  {
    WindowsFit(ms, ttl);
    var w := Windows(ms, ttl) - 1;
    if w > ms / ttl { ProductGrows(ttl, ms / ttl + 1, w); }
  }

  /** Admissions a counter standing at `value` still allows. */
  function Left(value: nat, p: Policy): nat {
    Max(0, p.limit - value)
  }

  /** Admissions between `lo` and `hi` by windows that open at `from` or later. */
  function Budget(from: Time, p: Policy, lo: Time, hi: Time): nat
    requires p.ttl > 0 && p.limit >= 0
  {
    if from < lo then Left(1, p) + p.limit * Windows(hi - lo, p.ttl) else p.limit * Windows(hi - from, p.ttl)
  }

  /** Admissions between `lo` and `hi` still possible from bucket `b` by requests at `from` or later. */
  function Potential(b: Bucket, from: Time, p: Policy, lo: Time, hi: Time): nat
    requires p.ttl > 0 && p.limit >= 0 && Timed(b)
  {
    if from > hi then 0
    else if !InWindow(b, from) then Budget(from, p, lo, hi)
    else
      var (value, deadline) := (b.hits.value.value, b.hits.value.deadline.value);
      (if deadline < lo then 0 else Left(value, p)) + Budget(deadline + 1, p, lo, hi)
  }

  lemma BudgetShrinks(a: Time, b: Time, p: Policy, lo: Time, hi: Time)
    requires p.ttl > 0 && p.limit >= 0 && a <= b && lo <= hi
    ensures Budget(b, p, lo, hi) <= Budget(a, p, lo, hi)
  {
    if b >= lo {
      WindowsGrow(hi - b, hi - Max(a, lo), p.ttl);
      ProductGrows(p.limit, Windows(hi - b, p.ttl), Windows(hi - Max(a, lo), p.ttl));
    }
  }

  /** Opening a window at `now` pays for that window and leaves the budget of the windows after it. */
  lemma WindowIsPaid(now: Time, p: Policy, lo: Time, hi: Time)
    requires p.ttl > 0 && p.limit >= 0 && lo <= hi && now <= hi
    ensures Count(lo <= now && 1 <= p.limit) + (if now + p.ttl < lo then 0 else Left(1, p))
            + Budget(now + p.ttl + 1, p, lo, hi)
            <= Budget(now, p, lo, hi)
  {
    if now >= lo {
      var w := Windows(hi - (now + p.ttl + 1), p.ttl);
      assert p.limit * (w + 1) == p.limit * w + p.limit;
    } else if now + p.ttl < lo {
      BudgetShrinks(now, now + p.ttl + 1, p, lo, hi);
    } else {
      WindowsGrow(hi - (now + p.ttl + 1), hi - lo, p.ttl);
      ProductGrows(p.limit, Windows(hi - (now + p.ttl + 1), p.ttl), Windows(hi - lo, p.ttl));
    }
  }

  lemma PotentialShrinks(b: Bucket, from: Time, now: Time, p: Policy, lo: Time, hi: Time)
    requires p.ttl > 0 && p.limit >= 0 && Timed(b) && from <= now && lo <= hi
    ensures Potential(b, now, p, lo, hi) <= Potential(b, from, p, lo, hi)
  {
    BudgetShrinks(from, now, p, lo, hi);
    if InWindow(b, from) && !InWindow(b, now) {
      BudgetShrinks(b.hits.value.deadline.value + 1, now, p, lo, hi);
    }
    hide Budget;
  }

  lemma RequestIsPaid(b: Bucket, now: Time, p: Policy, lo: Time, hi: Time)
    requires p.ttl > 0 && p.limit >= 0 && Timed(b) && lo <= hi
    ensures var (b', reply) := Hit(b, now, p);
            Timed(b') &&
            Count(lo <= now <= hi && !reply.isBlocked) + Potential(b', now, p, lo, hi) <= Potential(b, now, p, lo, hi)
  {
    if now <= hi { WindowIsPaid(now, p, lo, hi); }
    hide Budget;
  }

  lemma {:induction false} RunIsPaid(b: Bucket, times: seq<Time>, p: Policy, from: Time, lo: Time, hi: Time)
    requires p.ttl > 0 && p.limit >= 0 && Timed(b) && lo <= hi && Ordered(times)
    requires forall i | 0 <= i < |times| :: from <= times[i]
    ensures var last := if times == [] then from else times[|times| - 1];
            Timed(After(b, times, p)) &&
            Admitted(b, times, p, lo, hi)
            + Potential(After(b, times, p), last, p, lo, hi) <= Potential(b, from, p, lo, hi)
  {
    if times != [] {
      var (before, now) := (times[..|times| - 1], times[|times| - 1]);
      RunIsPaid(b, before, p, from, lo, hi);
      var reached := After(b, before, p);
      PotentialShrinks(reached, if before == [] then from else before[|before| - 1], now, p, lo, hi);
      RequestIsPaid(reached, now, p, lo, hi);
      hide Potential, Hit;
    }
  }

  lemma PotentialBound(b: Bucket, from: Time, p: Policy, lo: Time, hi: Time)
    requires p.ttl > 0 && p.limit > 0 && Timed(b) && lo <= hi
    ensures Potential(b, from, p, lo, hi) <= p.limit * (Windows(hi - lo, p.ttl) + 1) - 1
  {
    var w := Windows(hi - lo, p.ttl);
    assert p.limit * (w + 1) == p.limit * w + p.limit;
    forall start ensures Budget(start, p, lo, hi) <= Left(1, p) + p.limit * w {
      BudgetShrinks(Min(start, lo - 1), start, p, lo, hi);
    }
    if InWindow(b, from) && b.hits.value.deadline.value >= lo {
      BudgetShrinks(lo, b.hits.value.deadline.value + 1, p, lo, hi);
    }
    hide Budget;
  }

  lemma {:induction false} NothingWithoutLimit(b: Bucket, times: seq<Time>, p: Policy, lo: Time, hi: Time)
    requires p.limit <= 0
    ensures Admitted(b, times, p, lo, hi) == 0
  {
    if times != [] { NothingWithoutLimit(b, times[..|times| - 1], p, lo, hi); }
  }

  /**
    Whatever the counter and the block held at the start, and however the requests fall: between `lo` and `hi` fewer
    than limit * (floor((hi - lo) / ttl) + 2) are let through, and fewer than twice the limit when the span is no longer
    than one window. A limit of zero or less lets nothing through.
   */
  lemma RateBound(b: Bucket, times: seq<Time>, p: Policy, lo: Time, hi: Time)
    requires p.ttl > 0 && Timed(b) && lo <= hi && Ordered(times)
    ensures p.limit > 0 ==> Admitted(b, times, p, lo, hi) < p.limit * ((hi - lo) / p.ttl + 2)
    ensures p.limit > 0 && hi - lo <= p.ttl ==> Admitted(b, times, p, lo, hi) < 2 * p.limit
    ensures p.limit <= 0 ==> Admitted(b, times, p, lo, hi) == 0
  {
    hide Potential, Admitted, After;
    if p.limit > 0 {
      var from := if times == [] then lo else times[0];
      RunIsPaid(b, times, p, from, lo, hi);
      PotentialBound(b, from, p, lo, hi);
      var w := Windows(hi - lo, p.ttl);
      WindowsAtMost(hi - lo, p.ttl);
      ProductGrows(p.limit, w + 1, (hi - lo) / p.ttl + 2);
      if hi - lo <= p.ttl { assert w == 1; }
    } else {
      NothingWithoutLimit(b, times, p, lo, hi);
    }
  }

  // ----- The bound is reached -----

  /** `n` requests at the same moment. */
  function Burst(now: Time, n: nat): (s: seq<Time>)
    ensures |s| == n && forall i | 0 <= i < n :: s[i] == now
  {
    seq(n, _ => now)
  }

  lemma {:induction false} AfterAppend(b: Bucket, first: seq<Time>, second: seq<Time>, p: Policy, lo: Time, hi: Time)
    ensures After(b, first + second, p) == After(After(b, first, p), second, p)
    ensures Admitted(b, first + second, p, lo, hi)
         == Admitted(b, first, p, lo, hi) + Admitted(After(b, first, p), second, p, lo, hi)
  {
    if second == [] {
      assert first + second == first;
    } else {
      var n := |second| - 1;
      assert (first + second)[..|first| + n] == first + second[..n];
      AfterAppend(b, first, second[..n], p, lo, hi);
    }
  }

  /** A burst inside a live window is let through while the counter stays within the limit. */
  lemma {:induction false} BurstCounts(b: Bucket, now: Time, n: nat, p: Policy, lo: Time, hi: Time)
    requires Alive(b.hits, now) && b.hits.value.deadline.Some? && b.block.None? && b.hits.value.value + n <= p.limit
    ensures After(b, Burst(now, n), p) == Bucket(Some(b.hits.value.(value := b.hits.value.value + n)), None)
    ensures Admitted(b, Burst(now, n), p, lo, hi) == if lo <= now <= hi then n else 0
  {
    if n > 0 {
      assert Burst(now, n)[..n - 1] == Burst(now, n - 1);
      BurstCounts(b, now, n - 1, p, lo, hi);
    }
  }

  lemma FirstOfWindow(b: Bucket, now: Time, p: Policy, lo: Time, hi: Time)
    requires p.ttl > 0 && p.limit > 0 && !Alive(b.hits, now) && b.block.None?
    ensures After(b, [now], p) == Bucket(Some(Entry(1, Some(now + p.ttl))), None)
    ensures Admitted(b, [now], p, lo, hi) == Count(lo <= now <= hi)
  {
  }

  /** A request that opens a window at `first` and the burst that fills it at `later`. */
  function Fill(first: Time, later: Time, limit: nat): (s: seq<Time>)
    requires limit > 0
    ensures s != [] && s[0] == first && forall i | 1 <= i < |s| :: s[i] == later
  {
    [first] + Burst(later, limit - 1)
  }

  lemma WindowFills(b: Bucket, first: Time, later: Time, p: Policy, lo: Time, hi: Time)
    requires p.ttl > 0 && p.limit > 0 && !Alive(b.hits, first) && b.block.None? && first <= later <= first + p.ttl
    ensures After(b, Fill(first, later, p.limit), p) == Bucket(Some(Entry(p.limit, Some(first + p.ttl))), None)
    ensures Admitted(b, Fill(first, later, p.limit), p, lo, hi)
         == Count(lo <= first <= hi) + if lo <= later <= hi then p.limit - 1 else 0
  {
    hide After, Admitted, Burst;
    FirstOfWindow(b, first, p, lo, hi);
    var started := Bucket(Some(Entry(1, Some(first + p.ttl))), None);
    BurstCounts(started, later, p.limit - 1, p, lo, hi);
    AfterAppend(b, [first], Burst(later, p.limit - 1), p, lo, hi);
  }

  /**
    The bound for one window's length is tight: from an idle key, for every limit and window, one request, then a burst
    as the window closes and another as the next one opens, get 2 * limit - 1 requests through within `ttl`.
   */
  lemma RateBoundIsReached(p: Policy)
    requires p.ttl > 0 && p.limit > 0
    ensures var times := Fill(0, p.ttl, p.limit) + Fill(p.ttl + 1, p.ttl + 1, p.limit);
            Ordered(times) && Admitted(EMPTY, times, p, p.ttl, 2 * p.ttl) == 2 * p.limit - 1
  {
    hide After, Admitted, Fill;
    var (lo, hi) := (p.ttl, 2 * p.ttl);
    WindowFills(EMPTY, 0, p.ttl, p, lo, hi);
    var full := Bucket(Some(Entry(p.limit, Some(p.ttl))), None);
    WindowFills(full, p.ttl + 1, p.ttl + 1, p, lo, hi);
    AfterAppend(EMPTY, Fill(0, p.ttl, p.limit), Fill(p.ttl + 1, p.ttl + 1, p.limit), p, lo, hi);
  }

  // ----- Windows are fixed, blocks are hard, and nothing is refused early -----

  /** While a window is open no request moves its end: each is either counted or turned away uncounted by a block. */
  lemma {:induction false} WindowIsNeverExtended(b: Bucket, times: seq<Time>, p: Policy)
    requires Ordered(times) && b.hits.Some? && b.hits.value.deadline.Some?
    requires forall i | 0 <= i < |times| :: times[i] <= b.hits.value.deadline.value
    ensures var b' := After(b, times, p);
            b'.hits.Some? && b'.hits.value.deadline == b.hits.value.deadline
            && b.hits.value.value <= b'.hits.value.value <= b.hits.value.value + |times|
    ensures b.block.None? && p.blockDuration <= 0 ==>
            After(b, times, p).hits.value.value == b.hits.value.value + |times|
    ensures b.block.None? && p.blockDuration <= 0 ==> After(b, times, p).block.None?
  {
    if times != [] {
      var before := times[..|times| - 1];
      WindowIsNeverExtended(b, before, p);
    }
  }

  predicate HardBlocked(b: Bucket, now: Time) {
    b.block.Some? && b.block.value.deadline.Some? && now < b.block.value.deadline.value
  }

  /** The wait named, in whole seconds, is the shortest that is long enough. */
  predicate Covers(seconds: int, ms: int) {
    ms <= 1000 * seconds < ms + 1000
  }

  /**
    What decides one request. In a hard block it is refused and nothing changes. Otherwise it is counted, in the window
    under way or as the first of a new one, and refused exactly if that makes more than the limit; a refusal starts the
    hard block, if there is to be one; and the reply names the count and the rest of the window and of the block.
   */
  lemma RequestDecides(b: Bucket, now: Time, p: Policy)
    requires p.ttl > 0
    ensures var (b', reply) := Hit(b, now, p);
            var count := if Alive(b.hits, now) then b.hits.value.value + 1 else 1;
            var end := if InWindow(b, now) then b.hits.value.deadline.value else now + p.ttl;
            if HardBlocked(b, now) then
              && b' == b && reply.isBlocked && reply.totalHits == p.limit + 1 && reply.timeToExpire == 0
              && Covers(reply.timeToBlockExpire, b.block.value.deadline.value - now)
            else
              && b'.hits == Some(Entry(count, Some(end))) && reply.totalHits == count
              && Covers(reply.timeToExpire, end - now)
              && (reply.isBlocked <==> count > p.limit)
              && if reply.isBlocked && p.blockDuration > 0 then
                   && b'.block == Some(Entry(1, Some(now + p.blockDuration)))
                   && Covers(reply.timeToBlockExpire, p.blockDuration)
                 else b'.block == b.block && reply.timeToBlockExpire == 0
  {
  }

  /** Until a hard block ends, every request is refused and none changes the counter, the window or the block. */
  lemma {:induction false} BlockRefusesAll(b: Bucket, times: seq<Time>, p: Policy, lo: Time, hi: Time)
    requires forall i | 0 <= i < |times| :: HardBlocked(b, times[i])
    ensures After(b, times, p) == b && Admitted(b, times, p, lo, hi) == 0
  {
    if times != [] { BlockRefusesAll(b, times[..|times| - 1], p, lo, hi); }
  }

  /**
    A hard block starts with the first request over the limit and no other, lasts exactly `blockDuration`, and the reply
    names a wait that outlasts it.
   */
  lemma BlockStarts(b: Bucket, now: Time, p: Policy, later: Time)
    requires p.ttl > 0 && p.blockDuration > 0 && !HardBlocked(b, now) && now <= later
    ensures var (b', reply) := Hit(b, now, p);
            && (reply.isBlocked <==> HardBlocked(b', now))
            && (reply.isBlocked ==> (HardBlocked(b', later) <==> later < now + p.blockDuration))
            && (reply.isBlocked ==> !HardBlocked(b', now + 1000 * reply.timeToBlockExpire))
            && (!reply.isBlocked ==> !HardBlocked(b', later))
  {
  }

  /**
    Once a request has been refused, with hard blocks switched on, none that follows within `blockDuration` is let
    through, counted or allowed to prolong the block, and after it the block is over.
   */
  lemma BlockLastsItsDuration(b: Bucket, now: Time, times: seq<Time>, p: Policy, lo: Time, hi: Time)
    requires p.ttl > 0 && p.blockDuration > 0 && !HardBlocked(b, now) && Hit(b, now, p).1.isBlocked
    requires forall i | 0 <= i < |times| :: now <= times[i] < now + p.blockDuration
    ensures var b' := Hit(b, now, p).0;
            && After(b', times, p) == b' && Admitted(b', times, p, lo, hi) == 0
            && forall later | now + p.blockDuration <= later :: !HardBlocked(b', later)
  {
    var b' := Hit(b, now, p).0;
    forall later | now <= later ensures HardBlocked(b', later) <==> later < now + p.blockDuration {
      BlockStarts(b, now, p, later);
    }
    hide Hit, HardBlocked;
    BlockRefusesAll(b', times, p, lo, hi);
  }

  lemma {:induction false} AdmittedGrows(b: Bucket, times: seq<Time>, p: Policy, lo: Time, hi: Time, lo': Time,
      hi': Time)
    requires forall i | 0 <= i < |times| && lo <= times[i] <= hi :: lo' <= times[i] <= hi'
    ensures Admitted(b, times, p, lo, hi) <= Admitted(b, times, p, lo', hi')
  {
    if times != [] { AdmittedGrows(b, times[..|times| - 1], p, lo, hi, lo', hi'); }
  }

  /** Nothing has been let through later than `moment`. */
  ghost predicate NoneAfter(times: seq<Time>, p: Policy, moment: Time) {
    forall lo, hi | moment < lo :: Admitted(EMPTY, times, p, lo, hi) == 0
  }

  /** The counter of the last window is, up to the limit, the number let through in that window. */
  ghost predicate CounterTells(times: seq<Time>, p: Policy, hits: Entry) {
    && hits.value >= 1 && hits.deadline.Some? && times != [] && hits.deadline.value <= times[|times| - 1] + p.ttl
    && NoneAfter(times, p, hits.deadline.value)
    && Min(hits.value, p.limit) == Admitted(EMPTY, times, p, hits.deadline.value - p.ttl, hits.deadline.value)
  }

  lemma AdmittedSnoc(b: Bucket, before: seq<Time>, now: Time, p: Policy, lo: Time, hi: Time)
    ensures After(b, before + [now], p) == Hit(After(b, before, p), now, p).0
    ensures Admitted(b, before + [now], p, lo, hi)
         == Admitted(b, before, p, lo, hi) + Count(lo <= now <= hi && !Hit(After(b, before, p), now, p).1.isBlocked)
  {
  }

  /** How one request moves the counter of an idle or timed key. */
  lemma RequestMovesCounter(b: Bucket, now: Time, p: Policy)
    requires p.ttl > 0 && (if b.hits.Some? then b.hits.value.deadline.Some? else b.block.None?)
    ensures var (b', reply) := Hit(b, now, p);
            && b'.hits.Some? && b'.hits.value.deadline.Some?
            && var (value', deadline') := (b'.hits.value.value, b'.hits.value.deadline.value);
            if HardBlocked(b, now) then reply.isBlocked && b' == b
            else
              && (reply.isBlocked <==> value' > p.limit)
              && if Alive(b.hits, now)
                 then value' == b.hits.value.value + 1 && deadline' == b.hits.value.deadline.value >= now
                 else value' == 1 && deadline' == now + p.ttl && (b.hits.Some? ==> b.hits.value.deadline.value < now)
  {
  }

  lemma NoneAfterStep(before: seq<Time>, now: Time, p: Policy, moment: Time, later: Time)
    requires NoneAfter(before, p, moment) && moment <= later
    requires now <= later || Hit(After(EMPTY, before, p), now, p).1.isBlocked
    ensures NoneAfter(before + [now], p, later)
  {
  }

  lemma CounterStep(before: seq<Time>, now: Time, p: Policy)
    requires p.ttl > 0 && p.limit >= 0
    requires before != [] ==> before[|before| - 1] <= now
    requires var b := After(EMPTY, before, p);
             if before == [] then b == EMPTY else b.hits.Some? && CounterTells(before, p, b.hits.value)
    ensures var b := After(EMPTY, before + [now], p);
            b.hits.Some? && CounterTells(before + [now], p, b.hits.value)
  {
    hide After, Admitted, Hit;
    var (b, times) := (After(EMPTY, before, p), before + [now]);
    RequestMovesCounter(b, now, p);
    AdmittedSnoc(EMPTY, before, now, p, 0, 0);
    if before == [] { NothingYet(p, now - 1); }
    var deadline := After(EMPTY, times, p).hits.value.deadline.value;
    NoneAfterStep(before, now, p, if before == [] then now - 1 else b.hits.value.deadline.value, deadline);
    AdmittedSnoc(EMPTY, before, now, p, deadline - p.ttl, deadline);
  }

  lemma NothingYet(p: Policy, moment: Time)
    ensures NoneAfter([], p, moment)
  {
  }

  lemma {:induction false} CounterTellsAdmissions(times: seq<Time>, p: Policy)
    requires p.ttl > 0 && p.limit >= 0 && Ordered(times) && times != []
    ensures var b := After(EMPTY, times, p);
            b.hits.Some? && CounterTells(times, p, b.hits.value)
  {
    var (before, now) := (times[..|times| - 1], times[|times| - 1]);
    if before != [] { CounterTellsAdmissions(before, p); }
    assert times == before + [now];
    CounterStep(before, now, p);
  }

  /**
    From an idle key, no request is refused outside a hard block unless `limit` were let through in the `ttl` before
    it.
   */
  lemma RefusedOnlyAtLimit(times: seq<Time>, now: Time, p: Policy)
    requires p.ttl > 0 && p.limit >= 0 && Ordered(times) && (times != [] ==> times[|times| - 1] <= now)
    requires Hit(After(EMPTY, times, p), now, p).1.isBlocked && !HardBlocked(After(EMPTY, times, p), now)
    ensures Admitted(EMPTY, times, p, now - p.ttl, now) >= p.limit
  {
    if times != [] { CounterTellsAdmissions(times, p); }
    RequestMovesCounter(After(EMPTY, times, p), now, p);
    var hits := After(EMPTY, times, p).hits;
    hide After, Admitted, Hit, NoneAfter;
    if Alive(hits, now) {
      var deadline := hits.value.deadline.value;
      AdmittedGrows(EMPTY, times, p, deadline - p.ttl, deadline, now - p.ttl, now);
    }
  }

  // ----- Throttled keys do not disturb one another -----

  type Redis = map<string, Entry>

  function HitKey(key: Key): string {
    "throttle:" + key
  }

  function BlockKey(key: Key): string {
    "throttle:block:" + key
  }

  function Get(redis: Redis, name: string): Option<Entry> {
    if name in redis then Some(redis[name]) else None
  }

  function BucketOf(redis: Redis, key: Key): Bucket {
    Bucket(Get(redis, HitKey(key)), Get(redis, BlockKey(key)))
  }

  /** The one way two keys can meet: the counter of `block:k` is the block of `k`. */
  predicate Meets(k: Key, other: Key) {
    other == "block:" + k
  }

  lemma KeysApart(k: Key, other: Key)
    ensures HitKey(k) != BlockKey(k)
    ensures k != other ==> HitKey(k) != HitKey(other) && BlockKey(k) != BlockKey(other)
    ensures HitKey(other) == BlockKey(k) <==> Meets(k, other)
  {
    assert HitKey(k)[9..] == k && HitKey(other)[9..] == other;
    assert BlockKey(k)[15..] == k && BlockKey(other)[15..] == other;
    assert BlockKey(k) == "throttle:" + ("block:" + k);
    assert BlockKey(k)[9..] == "block:" + k;
    assert |HitKey(k)| == 9 + |k| && |BlockKey(k)| == 15 + |k|;
  }

  function Put(redis: Redis, name: string, e: Option<Entry>): Redis {
    if e.Some? then redis[name := e.value] else redis - {name}
  }

  function IncrementKey(redis: Redis, key: Key, now: Time, p: Policy): (Redis, Reply) {
    var (b, reply) := Hit(BucketOf(redis, key), now, p);
    (Put(Put(redis, HitKey(key), b.hits), BlockKey(key), b.block), reply)
  }

  datatype Request = Request(key: Key, at: Time)

  function RedisAfter(redis: Redis, requests: seq<Request>, policy: Key -> Policy): Redis {
    if requests == [] then redis else
    var last := requests[|requests| - 1];
    IncrementKey(RedisAfter(redis, requests[..|requests| - 1], policy), last.key, last.at, policy(last.key)).0
  }

  /** The requests under `key` let through between `lo` and `hi`, in a run over all keys. */
  function AdmittedFor(redis: Redis, requests: seq<Request>, policy: Key -> Policy, key: Key, lo: Time, hi: Time): nat {
    if requests == [] then 0 else
    var (before, last) := (requests[..|requests| - 1], requests[|requests| - 1]);
    AdmittedFor(redis, before, policy, key, lo, hi)
    + Count(last.key == key && lo <= last.at <= hi
            && !IncrementKey(RedisAfter(redis, before, policy), key, last.at, policy(key)).1.isBlocked)
  }

  function TimesOf(requests: seq<Request>, key: Key): seq<Time> {
    if requests == [] then [] else
    var (before, last) := (requests[..|requests| - 1], requests[|requests| - 1]);
    TimesOf(before, key) + if last.key == key then [last.at] else []
  }

  lemma OwnBucket(redis: Redis, key: Key, now: Time, p: Policy)
    ensures BucketOf(IncrementKey(redis, key, now, p).0, key) == Hit(BucketOf(redis, key), now, p).0
  {
  }

  /**
    A request leaves another key's counter and block alone when neither key is `block:` and the other; when the other
    key is, a first request under it hard-blocks `key` at once. Keys that are hexadecimal digests never clash
    (`DigestsAreSeparate`).
   */
  lemma OtherBucket(redis: Redis, key: Key, other: Key, now: Time, p: Policy)
    requires key != other
    ensures !Meets(key, other) && !Meets(other, key) ==>
            BucketOf(IncrementKey(redis, other, now, p).0, key) == BucketOf(redis, key)
    ensures Meets(key, other) && p.ttl > 0 ==> HardBlocked(BucketOf(IncrementKey(map[], other, now, p).0, key), now)
  {
    KeysApart(key, other);
    KeysApart(other, key);
    KeysApart(other, other);
    hide HitKey, BlockKey;
  }

  predicate Separate(requests: seq<Request>, key: Key) {
    forall i | 0 <= i < |requests| :: !Meets(key, requests[i].key) && !Meets(requests[i].key, key)
  }

  predicate IsDigest(key: Key) {
    forall i | 0 <= i < |key| :: '0' <= key[i] <= '9' || 'a' <= key[i] <= 'f'
  }

  /** Throttled keys as the guard makes them, hexadecimal digests, are never `block:` and another key. */
  lemma DigestsAreSeparate(requests: seq<Request>, key: Key)
    requires IsDigest(key) && forall i | 0 <= i < |requests| :: IsDigest(requests[i].key)
    ensures Separate(requests, key)
  {
    forall k: Key, other: Key | IsDigest(other) ensures !Meets(k, other) {
      assert ("block:" + k)[5] == ':';
    }
  }

  /** In a run over many keys each key sees just its own requests. */
  lemma {:induction false} KeysAreIndependent(redis: Redis, requests: seq<Request>, policy: Key -> Policy, key: Key,
      lo: Time, hi: Time)
    requires Separate(requests, key)
    ensures BucketOf(RedisAfter(redis, requests, policy), key)
            == After(BucketOf(redis, key), TimesOf(requests, key), policy(key))
    ensures AdmittedFor(redis, requests, policy, key, lo, hi)
         == Admitted(BucketOf(redis, key), TimesOf(requests, key), policy(key), lo, hi)
  {
    hide Hit, IncrementKey, BucketOf, Meets;
    if requests != [] {
      var (before, last) := (requests[..|requests| - 1], requests[|requests| - 1]);
      KeysAreIndependent(redis, before, policy, key, lo, hi);
      var reached := RedisAfter(redis, before, policy);
      if last.key == key {
        OwnBucket(reached, key, last.at, policy(key));
        AdmittedSnoc(BucketOf(redis, key), TimesOf(before, key), last.at, policy(key), lo, hi);
        SameReply(reached, key, last.at, policy(key));
      } else {
        OtherBucket(reached, key, last.key, last.at, policy(last.key));
        assert TimesOf(requests, key) == TimesOf(before, key);
      }
    }
  }

  lemma SameReply(redis: Redis, key: Key, now: Time, p: Policy)
    ensures IncrementKey(redis, key, now, p).1 == Hit(BucketOf(redis, key), now, p).1
  {
  }

  /** The rate bound for one key of a run over many. */
  lemma RateBoundPerKey(redis: Redis, requests: seq<Request>, policy: Key -> Policy, key: Key, lo: Time, hi: Time)
    requires policy(key).ttl > 0 && Timed(BucketOf(redis, key)) && lo <= hi
    requires Separate(requests, key) && forall i, j | 0 <= i < j < |requests| :: requests[i].at <= requests[j].at
    ensures var (p, admitted) := (policy(key), AdmittedFor(redis, requests, policy, key, lo, hi));
            && (p.limit > 0 ==> admitted < p.limit * ((hi - lo) / p.ttl + 2))
            && (p.limit > 0 && hi - lo <= p.ttl ==> admitted < 2 * p.limit)
            && (p.limit <= 0 ==> admitted == 0)
  {
    hide After, Admitted, AdmittedFor, TimesOf, BucketOf;
    TimesInOrder(requests, key);
    KeysAreIndependent(redis, requests, policy, key, lo, hi);
    RateBound(BucketOf(redis, key), TimesOf(requests, key), policy(key), lo, hi);
  }

  lemma {:induction false} TimesInOrder(requests: seq<Request>, key: Key)
    requires forall i, j | 0 <= i < j < |requests| :: requests[i].at <= requests[j].at
    ensures Ordered(TimesOf(requests, key))
    ensures forall i | 0 <= i < |TimesOf(requests, key)| ::
              requests != [] && TimesOf(requests, key)[i] <= requests[|requests| - 1].at
  {
    if requests != [] { TimesInOrder(requests[..|requests| - 1], key); }
  }

  class RedisThrottlerStorage {
    var redis: Redis

    constructor ()
      ensures redis == map[]
    {
      redis := map[];
    }

    /** One `increment`, command by command, is one step of the two keys and touches no other. */
    method Increment(key: Key, now: Time, ttl: int, limit: int, blockDuration: int) returns (r: Reply)
      modifies this
      ensures (redis, r) == IncrementKey(old(redis), key, now, Policy(ttl, limit, blockDuration))
    {
      KeysApart(key, key);
      hide HitKey, BlockKey;
      var (hitKey, blockKey) := (HitKey(key), BlockKey(key));
      var blockPttl := Pttl(Get(redis, blockKey), now);
      if blockPttl > 0 {
        assert redis == Put(Put(redis, hitKey, Get(redis, hitKey)), blockKey, Get(redis, blockKey));
        return Reply(limit + 1, 0, true, Seconds(blockPttl));
      }
      redis := redis[hitKey := Incr(Get(redis, hitKey), now)];
      var totalHits := redis[hitKey].value;
      var pttl := Pttl(Get(redis, hitKey), now);
      if pttl < 0 {
        redis := Put(redis, hitKey, Pexpire(redis[hitKey], now, ttl));
        pttl := ttl;
      }
      var isBlocked, timeToBlockExpire := totalHits > limit, 0;
      if isBlocked && blockDuration > 0 {
        redis := redis[blockKey := Entry(1, Some(now + blockDuration))];
        timeToBlockExpire := Seconds(blockDuration);
      }
      ghost var b := Hit(BucketOf(old(redis), key), now, Policy(ttl, limit, blockDuration)).0;
      assert Get(redis, hitKey) == b.hits && Get(redis, blockKey) == b.block;
      assert redis == Put(Put(old(redis), hitKey, b.hits), blockKey, b.block);
      return Reply(totalHits, Max(0, Seconds(pttl)), isBlocked, timeToBlockExpire);
    }
  }
}
