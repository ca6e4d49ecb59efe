/**
 The periodic timers of the UDP receive loop (osctap/ip/posix/UdpSocket.h,
 `SocketReceiveMultiplexerImplementation::Run`). Times are integer milliseconds.
 */
module TimerQueue {
  import opened Bytes

  /** An attached timer. */
  datatype Timer = Timer(listener: int, initialDelay: int, period: int)

  /** An entry of the queue: when the timer is due next, and which of the attached timers it is. */
  datatype Entry = Entry(due: int, timer: nat)

  predicate Sorted(q: seq<Entry>) {
    forall i, j :: 0 <= i < j < |q| ==> q[i].due <= q[j].due
  }

  predicate Queued(q: seq<Entry>, t: nat) {
    exists i :: 0 <= i < |q| && q[i].timer == t
  }

  /** The entries are those of the timers 0 to n - 1, one each, in some order. */
  predicate IsQueueOf(q: seq<Entry>, n: nat) {
    && |q| == n
    && (forall i :: 0 <= i < n ==> q[i].timer < n)
    && (forall i, j :: 0 <= i < j < n ==> q[i].timer != q[j].timer)
    && (forall t :: 0 <= t < n ==> Queued(q, t))
  }

  function Times(count: nat, period: int): int {
    count * period
  }

  /** Due instant number `k` of a timer, counted from `start`. */
  function Instant(start: int, t: Timer, k: nat): int {
    start + t.initialDelay + Times(k, t.period)
  }

  /** No drift: each entry is due at the instant that follows the firings there have been. */
  predicate OnSchedule(q: seq<Entry>, timers: seq<Timer>, start: int, fired: seq<nat>) {
    && |fired| == |timers|
    && forall i :: 0 <= i < |q| ==>
         q[i].timer < |timers| && q[i].due == Instant(start, timers[q[i].timer], fired[q[i].timer])
  }

  /** Every instant a timer has fired for has come: with positive periods it fires no more often than it is due. */
  predicate NeverEarly(timers: seq<Timer>, start: int, fired: seq<nat>, now: int) {
    && |fired| == |timers|
    && forall t, k :: 0 <= t < |timers| && 0 <= k < fired[t] ==> Instant(start, timers[t], k) <= now
  }

  lemma NextInstant(start: int, t: Timer, k: nat)
    ensures Instant(start, t, k + 1) == Instant(start, t, k) + t.period
  {
  }

  /** `q` with the same entries in another order. */
  predicate Permuted(q: seq<Entry>, r: seq<Entry>) {
    multiset(q) == multiset(r)
  }

  // ----- sorting, of which only the contract is used (std::sort leaves ties in any order)

  method Sort(q: seq<Entry>) returns (r: seq<Entry>)
    ensures Sorted(r) && Permuted(q, r)
  {
    r := [];
    for n := 0 to |q|
      invariant Sorted(r) && multiset(r) == multiset(q[..n])
    {
      assert q[..n + 1] == q[..n] + [q[n]];
      r := Insert(r, q[n]);
    }
    assert q[..|q|] == q;
  }

  method Insert(r: seq<Entry>, e: Entry) returns (s: seq<Entry>)
    requires Sorted(r)
    ensures Sorted(s) && multiset(s) == multiset(r) + multiset{e}
  {
    var i := 0;
    while i < |r| && r[i].due <= e.due
      invariant 0 <= i <= |r| && forall j :: 0 <= j < i ==> r[j].due <= e.due
    {
      i := i + 1;
    }
    assert r == r[..i] + r[i..];
    s := r[..i] + [e] + r[i..];
  }

  lemma PermutedEntries(q: seq<Entry>, r: seq<Entry>)
    requires Permuted(q, r)
    ensures |q| == |r|
    ensures forall i :: 0 <= i < |r| ==> r[i] in q
    ensures forall i :: 0 <= i < |q| ==> q[i] in r
  {
    assert |multiset(q)| == |multiset(r)|;
    forall i | 0 <= i < |r| ensures r[i] in q {
      assert r[i] in multiset(r);
    }
    forall i | 0 <= i < |q| ensures q[i] in r {
      assert q[i] in multiset(q);
    }
  }

  lemma {:induction false} CountOne(q: seq<Entry>, i: nat, j: nat)
    requires i < j < |q| && q[i] == q[j]
    ensures multiset(q)[q[i]] >= 2
  {
    assert q == q[..i] + [q[i]] + q[i + 1..];
    assert q[i + 1..][j - i - 1] == q[i];
    assert q[i] in multiset(q[i + 1..]);
  }

  lemma {:induction false} CountDistinct(q: seq<Entry>, e: Entry)
    requires forall i, j :: 0 <= i < j < |q| ==> q[i] != q[j]
    ensures multiset(q)[e] <= 1
    decreases |q|
  {
    if q != [] {
      var k := |q| - 1;
      assert q == q[..k] + [q[k]];
      CountDistinct(q[..k], e);
      assert e == q[k] ==> e !in q[..k];
    }
  }

  lemma SortedIsQueue(q: seq<Entry>, r: seq<Entry>, n: nat)
    requires IsQueueOf(q, n) && Permuted(q, r)
    ensures IsQueueOf(r, n)
  {
    PermutedEntries(q, r);
    forall t | 0 <= t < n ensures Queued(r, t) {
      assert Queued(q, t);
      var i :| 0 <= i < |q| && q[i].timer == t;
      assert q[i] in r;
    }
    forall i, j | 0 <= i < j < n ensures r[i].timer != r[j].timer {
      if r[i].timer == r[j].timer {
        SameTimerSameEntry(q, n, r[i], r[j]);
        CountOne(r, i, j);
        CountDistinct(q, r[i]);
        assert false;
      }
    }
  }

  lemma SameTimerSameEntry(q: seq<Entry>, n: nat, e: Entry, f: Entry)
    requires IsQueueOf(q, n) && e in q && f in q && e.timer == f.timer
    ensures e == f
    ensures forall i, j :: 0 <= i < j < |q| ==> q[i] != q[j]
  {
    var i :| 0 <= i < |q| && q[i] == e;
    var j :| 0 <= j < |q| && q[j] == f;
  }

  lemma SortedOnSchedule(q: seq<Entry>, r: seq<Entry>, timers: seq<Timer>, start: int, fired: seq<nat>)
    requires OnSchedule(q, timers, start, fired) && Permuted(q, r)
    ensures OnSchedule(r, timers, start, fired)
  {
    hide Instant;
    PermutedEntries(q, r);
    forall i | 0 <= i < |r|
      ensures r[i].timer < |timers| && r[i].due == Instant(start, timers[r[i].timer], fired[r[i].timer])
    {
      assert r[i] in q;
    }
  }

  // ----- one pass over the queue

  /** How many entries at the front of the queue are due. */
  function DueCount(q: seq<Entry>, now: int): (d: nat)
    ensures d <= |q|
    ensures forall i :: 0 <= i < d ==> q[i].due <= now
    ensures d < |q| ==> q[d].due > now
  {
    if q == [] || q[0].due > now then 0 else 1 + DueCount(q[1..], now)
  }

  /** In a sorted queue, the entries due are exactly those at the front. */
  lemma DueAtFront(q: seq<Entry>, now: int)
    requires Sorted(q)
    ensures forall i :: 0 <= i < |q| ==> (q[i].due <= now <==> i < DueCount(q, now))
  {
    hide DueCount;
  }

  /** The queue after its first `d` entries have been advanced by their periods. */
  function Advanced(q: seq<Entry>, timers: seq<Timer>, d: nat): (r: seq<Entry>)
    requires d <= |q| && forall i :: 0 <= i < |q| ==> q[i].timer < |timers|
    ensures |r| == |q|
  {
    seq(|q|, i requires 0 <= i < |q| =>
      if i < d then q[i].(due := q[i].due + timers[q[i].timer].period) else q[i])
  }

  /** The firing counts after the first `d` entries have fired once each. */
  predicate FiredFirst(q: seq<Entry>, d: nat, fired: seq<nat>, fired': seq<nat>)
    requires d <= |q|
  {
    && |fired'| == |fired|
    && (forall i :: 0 <= i < |q| ==>
          && q[i].timer < |fired|
          && fired'[q[i].timer] == fired[q[i].timer] + if i < d then 1 else 0)
  }

  /**
   The loop over the expired timers. Callback number `stopAt`, if there is one, sets the break flag;
   the loop is then left at once, before that timer is advanced. Otherwise each due timer is called exactly
   once, in queue order, and no other. The queue is not re-sorted while the pass lasts.
   */
  method FireDue(q: seq<Entry>, timers: seq<Timer>, fired: seq<nat>, now: int, stopAt: Option<nat>)
      returns (q': seq<Entry>, fired': seq<nat>, calls: seq<nat>, stopped: bool)
    requires Sorted(q) && IsQueueOf(q, |timers|) && |fired| == |timers|
    ensures stopped <==> stopAt.Some? && stopAt.value < DueCount(q, now)
    ensures |calls| == if stopped then stopAt.value + 1 else DueCount(q, now)
    ensures forall i :: 0 <= i < |calls| ==> i < |q| && calls[i] == q[i].timer
    ensures var done := if stopped then stopAt.value else DueCount(q, now);
            q' == Advanced(q, timers, done) && FiredFirst(q, done, fired, fired')
  {
    hide DueCount;
    DueAtFront(q, now);
    q', fired', calls, stopped := q, fired, [], false;
    var i := 0;
    while i < |q'| && q'[i].due <= now
      invariant 0 <= i <= DueCount(q, now) && !stopped
      invariant stopAt.Some? ==> i <= stopAt.value
      invariant q' == Advanced(q, timers, i)
      invariant FiredFirst(q, i, fired, fired')
      invariant |calls| == i && forall j :: 0 <= j < i ==> calls[j] == q[j].timer
      decreases |q| - i
    {
      assert q'[i] == q[i];
      calls := calls + [q'[i].timer];
      if stopAt == Some(i) {
        stopped := true;
        return;
      }
      FireOne(q, i, fired, fired');
      fired' := fired'[q[i].timer := fired'[q[i].timer] + 1];
      q' := q'[i := q'[i].(due := q'[i].due + timers[q'[i].timer].period)];
      i := i + 1;
    }
    if i < |q| {
      assert q'[i] == q[i];
    }
  }

  lemma FireOne(q: seq<Entry>, i: nat, fired: seq<nat>, fired': seq<nat>)
    requires IsQueueOf(q, |fired|) && i < |q| && FiredFirst(q, i, fired, fired')
    ensures FiredFirst(q, i + 1, fired, fired'[q[i].timer := fired'[q[i].timer] + 1])
  {
  }

  /** Advancing the entries that fired keeps every timer on schedule. */
  lemma AdvancedOnSchedule(q: seq<Entry>, timers: seq<Timer>, start: int, fired: seq<nat>, fired': seq<nat>, d: nat)
    requires IsQueueOf(q, |timers|) && OnSchedule(q, timers, start, fired)
    requires d <= |q| && FiredFirst(q, d, fired, fired')
    ensures OnSchedule(Advanced(q, timers, d), timers, start, fired')
    ensures IsQueueOf(Advanced(q, timers, d), |timers|)
  {
    hide Instant;
    var r := Advanced(q, timers, d);
    forall t | 0 <= t < |r| ensures Queued(r, t) {
      assert Queued(q, t);
      var i :| 0 <= i < |q| && q[i].timer == t;
      assert r[i].timer == t;
    }
    forall i | 0 <= i < |r|
      ensures r[i].timer < |timers| && r[i].due == Instant(start, timers[r[i].timer], fired'[r[i].timer])
    {
      var t := q[i].timer;
      assert q[i].due == Instant(start, timers[t], fired[t]);
      NextInstant(start, timers[t], fired[t]);
    }
  }

  /** Only instants that have come are added to those fired for. */
  lemma StaysOnTime(q: seq<Entry>, timers: seq<Timer>, start: int, fired: seq<nat>, fired': seq<nat>, was: int, now: int)
    requires IsQueueOf(q, |timers|) && OnSchedule(q, timers, start, fired) && Sorted(q)
    requires FiredFirst(q, DueCount(q, now), fired, fired')
    requires NeverEarly(timers, start, fired, was) && was <= now
    ensures NeverEarly(timers, start, fired', now)
  {
    hide Instant, DueCount;
    forall t, k | 0 <= t < |timers| && 0 <= k < fired'[t]
      ensures Instant(start, timers[t], k) <= now
    {
      assert Queued(q, t);
      var i :| 0 <= i < |q| && q[i].timer == t;
      assert q[i].due == Instant(start, timers[t], fired[t]);
      if k < fired[t] {
        assert Instant(start, timers[t], k) <= was;
      }
    }
  }

  // ----- whole runs

  /** The queue as `Run` sets it up: each timer is due its initial delay after `start`. */
  method SetUp(timers: seq<Timer>, start: int) returns (q: seq<Entry>)
    ensures Sorted(q) && IsQueueOf(q, |timers|)
    ensures OnSchedule(q, timers, start, seq(|timers|, _ => 0))
  {
    q := [];
    for i := 0 to |timers|
      invariant |q| == i
      invariant forall j :: 0 <= j < i ==> q[j] == Entry(start + timers[j].initialDelay, j)
    {
      q := q + [Entry(start + timers[i].initialDelay, i)];
    }
    ghost var unsorted, none := q, seq(|timers|, _ => 0);
    forall t | 0 <= t < |timers| ensures Queued(q, t) {
      assert q[t].timer == t;
    }
    q := Sort(q);
    SortedIsQueue(unsorted, q, |timers|);
    SortedOnSchedule(unsorted, q, timers, start, none);
  }

  /** The clock reading before pass `i`: at first that of the set-up. */
  function Previous(start: int, clock: seq<int>, i: nat): int
    requires i <= |clock|
  {
    if i == 0 then start else clock[i - 1]
  }

  predicate Monotone(start: int, clock: seq<int>) {
    forall i :: 0 <= i < |clock| ==> Previous(start, clock, i) <= clock[i]
  }

  /** A timer by itself: at each reading it fires if the instant it waits for has come, and at most once. */
  function FiringCount(start: int, t: Timer, clock: seq<int>): nat
    decreases |clock|
  {
    if clock == [] then 0
    else
      var k := FiringCount(start, t, clock[..|clock| - 1]);
      k + if Instant(start, t, k) <= clock[|clock| - 1] then 1 else 0
  }

  /** The shared queue does for each timer what that timer would do by itself. */
  predicate CountsAgree(timers: seq<Timer>, start: int, fired: seq<nat>, clock: seq<int>) {
    && |fired| == |timers|
    && forall t :: 0 <= t < |timers| ==> fired[t] == FiringCount(start, timers[t], clock)
  }

  lemma CountsStep(q: seq<Entry>, timers: seq<Timer>, start: int, fired: seq<nat>, fired': seq<nat>, clock: seq<int>,
                   now: int)
    requires IsQueueOf(q, |timers|) && OnSchedule(q, timers, start, fired) && Sorted(q)
    requires FiredFirst(q, DueCount(q, now), fired, fired') && CountsAgree(timers, start, fired, clock)
    ensures CountsAgree(timers, start, fired', clock + [now])
  {
    hide Instant, DueCount;
    DueAtFront(q, now);
    forall t | 0 <= t < |timers| ensures fired'[t] == FiringCount(start, timers[t], clock + [now]) {
      assert Queued(q, t);
      var i :| 0 <= i < |q| && q[i].timer == t;
      assert q[i].due == Instant(start, timers[t], fired[t]);
      assert (clock + [now])[..|clock|] == clock;
    }
  }

  /**
   With a positive first delay, and clock readings no further apart than the period, a timer keeps up: its
   count is exactly the number of due instants that have come.
   */
  lemma {:induction false} KeepsUp(start: int, t: Timer, clock: seq<int>)
    requires t.initialDelay > 0
    requires forall i :: 0 <= i < |clock| ==>
               Previous(start, clock, i) <= clock[i] <= Previous(start, clock, i) + t.period
    ensures var k := FiringCount(start, t, clock);
            && Instant(start, t, k) > Previous(start, clock, |clock|)
            && (k > 0 ==> Instant(start, t, k - 1) <= Previous(start, clock, |clock|))
    decreases |clock|
  {
    hide Instant;
    FirstInstant(start, t);
    if clock != [] {
      var n := |clock| - 1;
      var before := clock[..n];
      assert Previous(start, clock, n) == Previous(start, before, n);
      forall i | 0 <= i < n
        ensures Previous(start, before, i) <= before[i] <= Previous(start, before, i) + t.period
      {
        assert Previous(start, clock, i) == Previous(start, before, i) && before[i] == clock[i];
      }
      KeepsUp(start, t, before);
      NextInstant(start, t, FiringCount(start, t, before));
    }
  }

  lemma FirstInstant(start: int, t: Timer)
    ensures Instant(start, t, 0) == start + t.initialDelay
  {
  }

  /**
   The timer part of `Run` over a monotone clock, read once for each pass. At every `select` the queue
   is a sorted permutation of the timers, each due at start + delay + (times fired) * period; and no
   timer has fired for an instant that had not come.
   */
  method RunTimers(timers: seq<Timer>, start: int, clock: seq<int>) returns (q: seq<Entry>, fired: seq<nat>)
    requires Monotone(start, clock)
    ensures Sorted(q) && IsQueueOf(q, |timers|)
    ensures OnSchedule(q, timers, start, fired)
    ensures NeverEarly(timers, start, fired, Previous(start, clock, |clock|))
    ensures CountsAgree(timers, start, fired, clock)
  {
    hide Instant, DueCount;
    q := SetUp(timers, start);
    fired := seq(|timers|, _ => 0);
    ghost var now := start;
    for i := 0 to |clock|
      invariant Sorted(q) && IsQueueOf(q, |timers|) && OnSchedule(q, timers, start, fired)
      invariant now == Previous(start, clock, i) && NeverEarly(timers, start, fired, now)
      invariant CountsAgree(timers, start, fired, clock[..i])
    {
      ghost var before, counts := q, fired;
      assert now <= clock[i];
      var calls, stopped;
      q, fired, calls, stopped := FireDue(q, timers, fired, clock[i], None);
      StaysOnTime(before, timers, start, counts, fired, now, clock[i]);
      CountsStep(before, timers, start, counts, fired, clock[..i], clock[i]);
      assert clock[..i + 1] == clock[..i] + [clock[i]];
      AdvancedOnSchedule(before, timers, start, counts, fired, DueCount(before, clock[i]));
      ghost var unsorted := q;
      if calls != [] {
        q := Sort(q);
      } else {
        NothingAdvanced(before, timers);
      }
      SortedIsQueue(unsorted, q, |timers|);
      SortedOnSchedule(unsorted, q, timers, start, fired);
      now := clock[i];
    }
    assert clock[..|clock|] == clock;
  }

  lemma NothingAdvanced(q: seq<Entry>, timers: seq<Timer>)
    requires IsQueueOf(q, |timers|)
    ensures Advanced(q, timers, 0) == q
  {
  }
}
