/**
  The fixed-timestep loop of `CGameUpdate::Update`: as many updates of 62 ms as are due, but
  no more than a cap; after too many capped ticks in a row the remaining time is dropped.
 */
module UpdateClock {
  import opened Bytes
  import opened Options

  /** The two statics of the loop, with the time not wrapped. */
  datatype Clock = Clock(last: int, count: int)

  /** How a tick ends. `updates` were completed; `dropped` is the time given up by a resync. */
  datatype Outcome =
    | Idle
    | Aborted(updates: nat)
    | CaughtUp(updates: nat)
    | Capped(updates: nat)
    | Resync(updates: nat, dropped: nat)

  /**
    A tick: the current time, MAX_UPDATE_ONETIME, and the update, if any, in which the socket, the
    mode or the window makes it return early.
   */
  datatype Tick = Tick(now: int, k: int, failAt: Option<nat>)

  /** The number of updates in a tick with backlog `d`: all that are due unless `k` of them are fewer. */
  function Due(d: nat, k: int): nat {
    var due := d / 62;
    if 1 <= k < due then k else due
  }

  /** What the loop leaves in `k`: it is not decremented once no time is left for an update. */
  function Left(d: nat, k: int): int {
    var n := Due(d, k);
    if d - 62 * n >= 62 then k - n else k - (n - 1)
  }

  function Step(c: Clock, t: Tick, limit: int): (Clock, Outcome)
    requires c.last <= t.now
  {
    var n := Due(t.now - c.last, t.k);
    var rest := t.now - c.last - 62 * n;
    if t.now - c.last < 62 then (c, Idle)
    else if t.failAt.Some? && t.failAt.value < n then
      (c.(last := c.last + 62 * t.failAt.value), Aborted(t.failAt.value))
    else if Left(t.now - c.last, t.k) != 0 then (Clock(c.last + 62 * n, 0), CaughtUp(n))
    else if c.count + 1 > limit then (Clock(t.now, 0), Resync(n, rest))
    else (Clock(c.last + 62 * n, c.count + 1), Capped(n))
  }

  /** With a positive cap `k`, time for another update is left only when the cap was reached. */
  lemma DueFacts(d: nat, k: int)
    requires d >= 62
    ensures 1 <= Due(d, k) && 62 * Due(d, k) <= d
    ensures Due(d, k) == if 1 <= k <= d / 62 then k else d / 62
    ensures d - 62 * Due(d, k) >= 62 ==> k >= 1 && Due(d, k) == k
  {
  }

  /**
    `k` ends as zero exactly if time for another update is left, except when it starts as zero: then
    a single update that is due passes for a capped tick.
   */
  lemma ZeroMeansTimeLeft(d: nat, k: int)
    requires d >= 62
    ensures (Left(d, k) == 0 <==> d - 62 * Due(d, k) >= 62) <==> !(k == 0 && d < 124)
  {
    DueFacts(d, k);
    if k == 0 && d < 124 {
      assert d / 62 == 1;
    }
  }

  /** A tick never moves the time of the last update past the current time. */
  lemma NeverAhead(c: Clock, t: Tick, limit: int)
    requires c.last <= t.now
    ensures c.last <= Step(c, t, limit).0.last <= t.now
  {
    if t.now - c.last >= 62 {
      DueFacts(t.now - c.last, t.k);
    }
  }

  // ---------------------------------------------------------------- the loop

  /** The difference of two DWORD times is the time that passed, if less than 2^32 ms did. */
  lemma WrapDifference(a: int, b: int)
    requires 0 <= a - b < 0x1_0000_0000
    ensures Wrap(Wrap(a) - Wrap(b)) == a - b
  {
    var p, q := a / 0x1_0000_0000, b / 0x1_0000_0000;
    assert Wrap(a) == a - 0x1_0000_0000 * p && Wrap(b) == b - 0x1_0000_0000 * q;
  }

  class Updater {
    var lastTime: nat
    var onetimeUpdateCount: int
    ghost var clock: Clock
    ghost var updates: nat       // updates completed so far

    ghost predicate Valid()
      reads this
    {
      lastTime == Wrap(clock.last) && onetimeUpdateCount == clock.count
    }

    constructor (now: nat)
      requires now < 0x1_0000_0000
      ensures Valid() && clock == Clock(now, 0) && updates == 0
    {
      lastTime, onetimeUpdateCount := now, 0;
      clock, updates := Clock(now, 0), 0;
    }

    /** The do-while loop and what follows it; `now` is the DWORD `currentTime`. */
    method Update(currentTime: nat, ghost t: Tick, maxUpdates: int, failAt: Option<nat>,
          limit: int) returns (ghost outcome: Outcome)
      requires Valid() && currentTime == Wrap(t.now) && t.k == maxUpdates && t.failAt == failAt
      requires 0 <= t.now - clock.last < 0x1_0000_0000
      modifies this
      ensures Valid() && (clock, outcome) == Step(old(clock), t, limit)
      ensures updates == old(updates) + if outcome.Idle? then 0 else outcome.updates
    {
      hide Wrap;
      ghost var start := clock.last;
      WrapDifference(t.now, clock.last);
      if Wrap(currentTime - lastTime) < 62 {
        return Idle;
      }
      DueFacts(t.now - start, maxUpdates);
      var k, n, more := maxUpdates, 0, true;
      while more
        invariant Valid() && clock == Clock(start + 62 * n, old(clock.count)) && updates == old(updates) + n
        invariant failAt.Some? && failAt.value < Due(t.now - start, maxUpdates) ==> n <= failAt.value
        invariant more ==> n < Due(t.now - start, maxUpdates) && k == maxUpdates - n
        invariant !more ==> n == Due(t.now - start, maxUpdates)
        invariant !more ==> k == Left(t.now - start, maxUpdates)
        decreases Due(t.now - start, maxUpdates) - n, more
      {
        if failAt == Some(n) {
          return Aborted(n);
        }
        WrapAdd(clock.last, 62);
        lastTime := Wrap(lastTime + 62);
        clock := clock.(last := clock.last + 62);
        n, updates := n + 1, updates + 1;
        WrapDifference(t.now, clock.last);
        more := false;
        if Wrap(currentTime - lastTime) >= 62 {
          k := k - 1;
          more := k != 0;
        }
      }
      outcome := CaughtUp(n);
      if k == 0 {
        outcome := Capped(n);
        onetimeUpdateCount := onetimeUpdateCount + 1;
        if onetimeUpdateCount > limit {
          outcome := Resync(n, t.now - clock.last);
          lastTime := currentTime;
          onetimeUpdateCount := 0;
          clock := clock.(last := t.now);
        }
      } else {
        onetimeUpdateCount := 0;
      }
      clock := clock.(count := onetimeUpdateCount);
    }
  }

  // ---------------------------------------------------------------- runs

  /** Time does not go back, neither before the first tick nor between ticks. */
  ghost predicate Forward(c: Clock, ticks: seq<Tick>) {
    && (forall i :: 0 <= i < |ticks| ==> c.last <= ticks[i].now)
    && forall i, j :: 0 <= i < j < |ticks| ==> ticks[i].now <= ticks[j].now
  }

  ghost function Run(c: Clock, ticks: seq<Tick>, limit: int): (r: (Clock, seq<Outcome>))
    requires Forward(c, ticks)
    ensures |r.1| == |ticks|
    ensures c.last <= r.0.last && (r.0.last == c.last || (ticks != [] && r.0.last <= ticks[|ticks| - 1].now))
  {
    if ticks == [] then (c, []) else
      var (before, log) := Run(c, ticks[..|ticks| - 1], limit);
      var t := ticks[|ticks| - 1];
      NeverAhead(before, t, limit);
      var (after, outcome) := Step(before, t, limit);
      (after, log + [outcome])
  }

  /** Time accounted for by a tick: its updates, and what a resync drops. */
  function Accounted(o: Outcome): nat {
    match o
    case Idle => 0
    case Resync(n, dropped) => 62 * n + dropped
    case Aborted(n) => 62 * n
    case CaughtUp(n) => 62 * n
    case Capped(n) => 62 * n
  }

  ghost function Total(log: seq<Outcome>): nat {
    if log == [] then 0 else Total(log[..|log| - 1]) + Accounted(log[|log| - 1])
  }

  /** Over any run the time of the last update advances by 62 ms an update and what is dropped. */
  lemma {:induction false} TimeIsAccountedFor(c: Clock, ticks: seq<Tick>, limit: int)
    requires Forward(c, ticks)
    ensures Run(c, ticks, limit).0.last - c.last == Total(Run(c, ticks, limit).1)
  {
    if ticks != [] {
      var init, t := ticks[..|ticks| - 1], ticks[|ticks| - 1];
      var (before, log) := Run(c, init, limit);
      TimeIsAccountedFor(c, init, limit);
      assert Run(c, ticks, limit).1[..|log|] == log;
      StepAccounted(before, t, limit);
    }
  }

  lemma StepAccounted(c: Clock, t: Tick, limit: int)
    requires c.last <= t.now
    ensures Step(c, t, limit).0.last - c.last == Accounted(Step(c, t, limit).1)
  {
    if t.now - c.last >= 62 {
      DueFacts(t.now - c.last, t.k);
    }
  }

  /** The ticks that ran to the end: those that were due and did not return early. */
  ghost function Completed(log: seq<Outcome>): seq<Outcome> {
    if log == [] then [] else
      Completed(log[..|log| - 1])
      + if log[|log| - 1].Idle? || log[|log| - 1].Aborted? then [] else [log[|log| - 1]]
  }

  /** The last `n` of `log` are capped ticks. */
  ghost predicate EndsCapped(log: seq<Outcome>, n: int) {
    n <= |log| && forall j :: 0 <= j < |log| && |log| - n <= j ==> log[j].Capped?
  }

  /** The last `n` of `log`, and no more, are capped ticks. */
  ghost predicate Streak(log: seq<Outcome>, n: int) {
    n >= 0 && EndsCapped(log, n) && !EndsCapped(log, n + 1)
  }

  lemma StreakStep(log: seq<Outcome>, n: nat, o: Outcome)
    requires Streak(log, n)
    ensures Streak(log + [o], if o.Capped? then n + 1 else 0)
  {
    var more := log + [o];
    assert more[|log|] == o;
    if o.Capped? && n < |log| {
      assert !log[|log| - n - 1].Capped?;
      assert !more[|log| - n - 1].Capped?;
    }
  }

  lemma CompletedStep(log: seq<Outcome>, o: Outcome)
    ensures Completed(log + [o]) == if o.Idle? || o.Aborted? then Completed(log) else Completed(log) + [o]
  {
    assert (log + [o])[..|log|] == log;
  }

  lemma CountStep(c: Clock, t: Tick, limit: int, log: seq<Outcome>)
    requires c.last <= t.now && Streak(Completed(log), c.count)
    ensures Streak(Completed(log + [Step(c, t, limit).1]), Step(c, t, limit).0.count)
  {
    hide Streak; hide Completed; hide Due; hide Left;
    CompletedStep(log, Step(c, t, limit).1);
    NotNegative(Completed(log), c.count);
    StreakStep(Completed(log), c.count, Step(c, t, limit).1);
  }

  lemma NotNegative(log: seq<Outcome>, n: int)
    requires Streak(log, n)
    ensures n >= 0
  {
  }

  /** The counter is the number of capped ticks at the end, no more and no fewer. */
  lemma {:induction false} CountIsStreak(now: int, ticks: seq<Tick>, limit: int)
    requires Forward(Clock(now, 0), ticks)
    ensures var (c, log) := Run(Clock(now, 0), ticks, limit);
      Streak(Completed(log), c.count)
  {
    hide Step;
    if ticks != [] {
      var init := ticks[..|ticks| - 1];
      CountIsStreak(now, init, limit);
      var (c, log) := Run(Clock(now, 0), init, limit);
      CountStep(c, ticks[|ticks| - 1], limit, log);
    }
  }

  /**
    What a tick does, case by case. `d` is the backlog and `n` the updates due: as many as fit in `d`,
    but no more than a positive cap.
   */
  lemma TickCases(c: Clock, t: Tick, limit: int, d: nat, n: nat)
    requires d == t.now - c.last && n == if 1 <= t.k < d / 62 then t.k else d / 62
    ensures d < 62 ==> Step(c, t, limit) == (c, Idle)
    ensures d >= 62 && t.failAt.Some? && t.failAt.value < n ==>
      Step(c, t, limit) == (Clock(c.last + 62 * t.failAt.value, c.count), Aborted(t.failAt.value))
    ensures d >= 62 && !(t.failAt.Some? && t.failAt.value < n) && d - 62 * n < 62 && !(t.k == 0 && d < 124) ==>
      Step(c, t, limit) == (Clock(c.last + 62 * n, 0), CaughtUp(n))
    ensures d >= 62 && !(t.failAt.Some? && t.failAt.value < n) && (d - 62 * n >= 62 || (t.k == 0 && d < 124)) ==>
      Step(c, t, limit) == if c.count < limit then (Clock(c.last + 62 * n, c.count + 1), Capped(n))
                           else (Clock(t.now, 0), Resync(n, d - 62 * n))
  {
    if d >= 62 {
      ZeroMeansTimeLeft(d, t.k);
      DueFacts(d, t.k);
    }
  }

  /** The tick is due and does not return early. */
  ghost predicate Counts(c: Clock, t: Tick)
    requires c.last <= t.now
  {
    var d := t.now - c.last;
    d >= 62 && !(t.failAt.Some? && t.failAt.value < if 1 <= t.k < d / 62 then t.k else d / 62)
  }

  /**
    What a tick does when `streak` of the completed ticks before it were capped. With a positive cap and
    time left for another update it drops that time and starts the count anew if the streak has
    reached the limit, and otherwise is capped itself; with none left it is neither.
   */
  ghost predicate ByStreak(c: Clock, log: seq<Outcome>, t: Tick, limit: int)
    requires c.last <= t.now
  {
    var d := t.now - c.last;
    var n := if t.k <= d / 62 then t.k else d / 62;
    && (Counts(c, t) && t.k >= 1 && d - 62 * n >= 62 && EndsCapped(Completed(log), limit) ==>
          Step(c, t, limit) == (Clock(t.now, 0), Resync(n, d - 62 * n)))
    && (Counts(c, t) && t.k >= 1 && d - 62 * n >= 62 && !EndsCapped(Completed(log), limit) ==>
          n == t.k && Step(c, t, limit) == (Clock(c.last + 62 * n, c.count + 1), Capped(n)))
    && (Counts(c, t) && t.k >= 1 && d - 62 * n < 62 ==>
          Step(c, t, limit) == (Clock(c.last + 62 * n, 0), CaughtUp(n)))
    && (Step(c, t, limit).1.Resync? ==> EndsCapped(Completed(log), limit))
    && (Step(c, t, limit).1.Capped? ==> !EndsCapped(Completed(log), limit))
  }

  lemma StreakDecides(c: Clock, log: seq<Outcome>, t: Tick, limit: int)
    requires c.last <= t.now && Streak(Completed(log), c.count)
    ensures ByStreak(c, log, t, limit)
  {
    StreakReaches(Completed(log), c.count, limit);
    var d := t.now - c.last;
    TickCases(c, t, limit, d, if 1 <= t.k < d / 62 then t.k else d / 62);
    hide Step; hide EndsCapped; hide Streak; hide Completed;
  }

  /** After any run, whether a tick is a resync is decided by the ticks directly before it. */
  lemma ResyncNeedsStreak(now: int, ticks: seq<Tick>, t: Tick, limit: int)
    requires Forward(Clock(now, 0), ticks + [t])
    ensures Forward(Clock(now, 0), ticks)
    ensures var (c, log) := Run(Clock(now, 0), ticks, limit);
      c.last <= t.now && ByStreak(c, log, t, limit)
  {
    assert (ticks + [t])[..|ticks|] == ticks;
    assert forall i :: 0 <= i < |ticks| ==> (ticks + [t])[i] == ticks[i];
    assert (ticks + [t])[|ticks|] == t;
    hide ByStreak; hide Streak;
    CountIsStreak(now, ticks, limit);
    var (c, log) := Run(Clock(now, 0), ticks, limit);
    StreakDecides(c, log, t, limit);
  }

  lemma StreakReaches(log: seq<Outcome>, n: int, limit: int)
    requires Streak(log, n)
    ensures EndsCapped(log, limit) <==> n >= limit
  {
    if limit > n {
      FewerCapped(log, n + 1, limit);
    }
  }

  lemma FewerCapped(log: seq<Outcome>, n: int, m: int)
    requires n <= m
    ensures EndsCapped(log, m) ==> EndsCapped(log, n)
  {
  }

  /** After a capped tick with a positive cap the next tick is due at once. */
  lemma NoIdleAfterCapped(c: Clock, t: Tick, u: Tick, limit: int)
    requires c.last <= t.now <= u.now && t.k >= 1
    requires Step(c, t, limit).1.Capped?
    ensures Step(c, t, limit).0.last <= u.now && !Step(Step(c, t, limit).0, u, limit).1.Idle?
  {
    DueFacts(t.now - c.last, t.k);
  }
}
