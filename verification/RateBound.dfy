/**
 How exact the rate bound is. Each goroutine reads the clock before it reads the shared words, so a late
 one can put the committed time back although the clock itself never goes back.
 */
module RateBound {
  import opened Numbers
  import opened TokenBucket

  /** The clock readings of a schedule never go back, from `start` on. */
  predicate ClockRuns(schedule: Schedule, start: Int64) {
    && (forall i | 0 <= i < |schedule| :: start <= schedule[i].1)
    && (forall i, j | 0 <= i < j < |schedule| :: schedule[i].1 <= schedule[j].1)
  }

  predicate WithinRate(t: State, start: Int64) {
    t.granted <= t.capacity + t.rate * (t.lastRefillTime - start) / SECOND
  }

  /** Whatever n goroutines do under such a clock, they are never granted more than the rate allows. */
  ghost predicate RateIsKept(rate: Int64, capacity: Int64, start: Int64, n: nat) {
    forall schedule: Schedule | Fits(schedule, n) && ClockRuns(schedule, start) ::
      WithinRate(Run(Initial(rate, capacity, start, n), schedule), start)
  }

  /** Whatever n goroutines do under such a clock, none of them ever puts the committed time back. */
  ghost predicate TimeIsKept(rate: Int64, capacity: Int64, start: Int64, n: nat) {
    forall schedule: Schedule | Fits(schedule, n) && ClockRuns(schedule, start) ::
      TimesNeverGoBack(Initial(rate, capacity, start, n), schedule)
  }

  lemma ClockRunsOn(schedule: Schedule, start: Int64)
    requires schedule != [] && ClockRuns(schedule, start)
    ensures start <= schedule[0].1 && ClockRuns(schedule[1..], schedule[0].1)
  {
  }

  // ---------- One goroutine, or no token at all ----------

  /** The readings that a goroutine still uses lie between the committed time and the clock. */
  predicate Timely(frame: Frame, committed: int, clock: int) {
    match frame
    case Clocked(now) => committed <= now <= clock
    case TimeRead(now, _) => committed <= now <= clock
    case Planned(now, _, _, _, _) => committed <= now <= clock
    case _ => true
  }

  lemma {:induction false} AloneKeepsTime(s: State, schedule: Schedule, clock: Int64)
    requires |s.frames| <= 1 && Fits(schedule, |s.frames|) && ClockRuns(schedule, clock)
    requires s.lastRefillTime <= clock && forall g | 0 <= g < |s.frames| :: Timely(s.frames[g], s.lastRefillTime, clock)
    ensures TimesNeverGoBack(s, schedule)
    decreases |schedule|
  {
    if schedule != [] {
      ClockRunsOn(schedule, clock);
      AloneKeepsTime(Step(s, schedule[0].0, schedule[0].1), schedule[1..], schedule[0].1);
    }
  }

  lemma {:induction false} EmptyKeepsTime(s: State, schedule: Schedule)
    requires s.capacity == 0 && Fits(schedule, |s.frames|)
    requires forall g | 0 <= g < |s.frames| :: !s.frames[g].Planned? && !s.frames[g].TimeCommitted?
    ensures TimesNeverGoBack(s, schedule)
    decreases |schedule|
  {
    if schedule != [] { EmptyKeepsTime(Step(s, schedule[0].0, schedule[0].1), schedule[1..]); }
  }

  lemma TimeKept(rate: Int64, capacity: Int64, start: Int64, n: nat)
    requires n <= 1 || capacity == 0
    ensures TimeIsKept(rate, capacity, start, n)
  {
    var s := Initial(rate, capacity, start, n);
    forall schedule: Schedule | Fits(schedule, n) && ClockRuns(schedule, start) ensures TimesNeverGoBack(s, schedule) {
      if n <= 1 { AloneKeepsTime(s, schedule, start); } else { EmptyKeepsTime(s, schedule); }
    }
  }

  // ---------- Two goroutines and one token ----------

  /** Everything that has been read lies between the start and the clock. */
  predicate Known(frame: Frame, start: int, clock: int) {
    match frame
    case Clocked(now) => start <= now <= clock
    case TimeRead(now, last) => start <= now <= clock && start <= last <= clock
    case Planned(now, last, _, _, _) => start <= now <= clock && start <= last <= clock
    case _ => true
  }

  predicate Planning(frame: Frame, rate: Int64) {
    match frame
    case Planned(now, last, current, refill, newTokens) =>
      0 <= current <= 1 && refill == Refill(rate, now, last) && newTokens == NewTokens(1, current, refill) == 1
    case TimeCommitted(current, _, newTokens) => 0 <= current <= 1 && newTokens == 1
    case _ => true
  }

  /** A goroutine that has committed its time after the one token was gone, and has yet to be granted. */
  function Fresh(frame: Frame): nat {
    if frame.TimeCommitted? && frame.current == 0 then 1 else 0
  }

  /** A plan made while the one token was there. */
  predicate Stale(frame: Frame) {
    frame.Planned? && frame.current == 1
  }

  /** Further grants are paid for by the time that has passed. */
  predicate Funded(rate: int, passed: int, grants: int) {
    grants * SECOND <= rate * passed
  }

  /**
   What the shared words and the two goroutines look like before the one token is granted: each has
   committed its time at most once, and none plans from a time later than the committed one.
   */
  predicate Unused(tokens: int, granted: int, last: int, start: int, a: Frame, b: Frame) {
    && tokens == 1 && granted == 0
    && (last == start || a.TimeCommitted? || b.TimeCommitted?)
    && UnusedFrame(last, a) && UnusedFrame(last, b)
  }

  predicate UnusedFrame(last: int, f: Frame) {
    && (f.TimeRead? || f.Planned? ==> f.lastRefill <= last)
    && (f.Planned? || f.TimeCommitted? ==> f.current == 1)
  }

  /** And after it: a plan that is left over can only be committed before the next fresh one. */
  predicate Used(rate: int, tokens: int, granted: int, last: int, start: int, a: Frame, b: Frame) {
    var grants := granted - 1 + Fresh(a) + Fresh(b);
    && tokens == 0 && granted >= 1
    && Funded(rate, last - start, grants)
    && !(Stale(a) && Stale(b))
    && UsedFrame(last, grants, a) && UsedFrame(last, grants, b)
  }

  predicate UsedFrame(last: int, grants: int, f: Frame) {
    Stale(f) ==> f.lastRefill <= last && (grants == 0 || f.lastRefill < last)
  }

  predicate Paired(s: State, start: int, clock: int, a: Frame, b: Frame) {
    && s.capacity == 1 && s.rate >= 0
    && 0 <= start <= s.lastRefillTime <= clock
    && Known(a, start, clock) && Planning(a, s.rate)
    && Known(b, start, clock) && Planning(b, s.rate)
    && (|| Unused(s.tokens, s.granted, s.lastRefillTime, start, a, b)
        || Used(s.rate, s.tokens, s.granted, s.lastRefillTime, start, a, b))
  }

  /** A plan without a token needs a refill of at least one, which takes its time. */
  lemma FreshPlan(rate: Int64, now: Int64, last: Int64)
    requires rate >= 0 && 0 <= now && 0 <= last && NewTokens(1, 0, Refill(rate, now, last)) >= 1
    ensures last < now && SECOND <= rate * (now - last)
  {
    RefillRange(rate, now, last);
    RefillBacked(rate, now, last);
    WrapInRange(Refill(rate, now, last));
    WrapInRange(now - last);
  }

  lemma FundsGrow(rate: int, last: int, start: int, now: int, grants: int)
    requires Funded(rate, last - start, grants) && SECOND <= rate * (now - last)
    ensures Funded(rate, now - start, grants + 1)
  {
    assert rate * (last - start) + rate * (now - last) == rate * (now - start);
  }

  lemma FundsOfNothing(rate: int, passed: int)
    requires rate >= 0 && passed >= 0
    ensures Funded(rate, passed, 0)
  {
    assert 0 <= rate * passed;
  }

  /** A time commit goes forward if there is no token left. */
  lemma FreshCommitPaired(s: State, start: int, clock: int, g: nat, now: Int64, other: Frame)
    requires g < |s.frames| && Paired(s, start, clock, s.frames[g], other) && clock <= now
    requires CommitsTime(s, g) && s.frames[g].current == 0
    ensures Paired(Step(s, g, now), start, now, Step(s, g, now).frames[g], other)
  {
    var frame := s.frames[g];
    FreshPlan(s.rate, frame.now, frame.lastRefill);
    FundsGrow(s.rate, s.lastRefillTime, start, frame.now, s.granted - 1 + Fresh(other));
    hide Wrap, Refill, NewTokens, Quotient, Elapsed, Funded;
  }

  /** And else it is the first of its goroutine. */
  lemma StaleCommitPaired(s: State, start: int, clock: int, g: nat, now: Int64, other: Frame)
    requires g < |s.frames| && Paired(s, start, clock, s.frames[g], other) && clock <= now
    requires CommitsTime(s, g) && s.frames[g].current == 1
    ensures Paired(Step(s, g, now), start, now, Step(s, g, now).frames[g], other)
  {
    FundsOfNothing(s.rate, s.frames[g].now - start);
    hide Wrap, Refill, NewTokens, Quotient, Elapsed, Funded;
  }

  lemma FailedCommitPaired(s: State, start: int, clock: int, g: nat, now: Int64, other: Frame)
    requires g < |s.frames| && Paired(s, start, clock, s.frames[g], other) && clock <= now
    requires s.frames[g].Planned? && !CommitsTime(s, g)
    ensures Paired(Step(s, g, now), start, now, Step(s, g, now).frames[g], other)
  {
    hide Wrap, Refill, NewTokens, Quotient, Elapsed, Funded;
  }

  lemma PlanPaired(s: State, start: int, clock: int, g: nat, now: Int64, other: Frame)
    requires g < |s.frames| && s.frames[g].TimeRead? && Paired(s, start, clock, s.frames[g], other) && clock <= now
    ensures Paired(Step(s, g, now), start, now, Step(s, g, now).frames[g], other)
  {
    PlansOneToken(s.tokens, Refill(s.rate, s.frames[g].now, s.frames[g].lastRefill));
    hide Wrap, Refill, NewTokens, Quotient, Elapsed, Funded;
  }

  lemma PlansOneToken(current: int, refill: int)
    ensures NewTokens(1, current, refill) <= 1
  {
  }

  lemma OtherwisePaired(s: State, start: int, clock: int, g: nat, now: Int64, other: Frame)
    requires g < |s.frames| && !s.frames[g].Planned? && !s.frames[g].TimeRead?
    requires Paired(s, start, clock, s.frames[g], other) && clock <= now
    ensures Paired(Step(s, g, now), start, now, Step(s, g, now).frames[g], other)
  {
    FundsOfNothing(s.rate, s.lastRefillTime - start);
    hide Wrap, Refill, NewTokens, Quotient, Elapsed, Funded;
  }

  lemma StepPaired(s: State, start: int, clock: int, g: nat, now: Int64, other: Frame)
    requires g < |s.frames| && Paired(s, start, clock, s.frames[g], other) && clock <= now
    ensures Paired(Step(s, g, now), start, now, Step(s, g, now).frames[g], other)
  {
    assert s.frames[g].Planned? ==> 0 <= s.frames[g].current <= 1;
    hide Paired, Step;
    if s.frames[g].Planned? {
      if !CommitsTime(s, g) {
        FailedCommitPaired(s, start, clock, g, now, other);
      } else if s.frames[g].current == 0 {
        FreshCommitPaired(s, start, clock, g, now, other);
      } else {
        StaleCommitPaired(s, start, clock, g, now, other);
      }
    } else if s.frames[g].TimeRead? {
      PlanPaired(s, start, clock, g, now, other);
    } else {
      OtherwisePaired(s, start, clock, g, now, other);
    }
  }

  lemma PairSwapped(s: State, start: int, clock: int, a: Frame, b: Frame)
    requires Paired(s, start, clock, a, b)
    ensures Paired(s, start, clock, b, a)
  {
    hide Planning, Known, Funded;
  }

  lemma OnlyOneMoves(s: State, g: nat, now: Int64)
    requires g < |s.frames|
    ensures |Step(s, g, now).frames| == |s.frames|
    ensures forall h | 0 <= h < |s.frames| && h != g :: Step(s, g, now).frames[h] == s.frames[h]
  {
  }

  lemma {:induction false} RunPaired(s: State, schedule: Schedule, start: int, clock: Int64) returns (end: Int64)
    requires |s.frames| == 2 && Paired(s, start, clock, s.frames[0], s.frames[1])
    requires Fits(schedule, 2) && ClockRuns(schedule, clock)
    ensures var t := Run(s, schedule); |t.frames| == 2 && Paired(t, start, end, t.frames[0], t.frames[1])
    decreases |schedule|
  {
    hide Paired, Step;
    end := clock;
    if schedule != [] {
      var (g, now) := schedule[0];
      ClockRunsOn(schedule, clock);
      OnlyOneMoves(s, g, now);
      if g == 1 { PairSwapped(s, start, clock, s.frames[0], s.frames[1]); }
      StepPaired(s, start, clock, g, now, s.frames[1 - g]);
      if g == 1 { PairSwapped(Step(s, g, now), start, now, Step(s, g, now).frames[1], s.frames[0]); }
      end := RunPaired(Step(s, g, now), schedule[1..], start, now);
    }
  }

  lemma OneTokenKeepsRate(rate: Int64, start: Int64, schedule: Schedule)
    requires rate >= 0 && start >= 0 && Fits(schedule, 2) && ClockRuns(schedule, start)
    ensures WithinRate(Run(Initial(rate, 1, start, 2), schedule), start)
  {
    var s := Initial(rate, 1, start, 2);
    var t := Run(s, schedule);
    var end := RunPaired(s, schedule, start, start);
    RunKeepsConstants(s, schedule);
    FundsOfNothing(rate, t.lastRefillTime - start);
    DivideBound(Max(t.granted - 1, 0), rate * (t.lastRefillTime - start));
  }

  lemma NoTokenKeepsRate(rate: Int64, start: Int64, n: nat, schedule: Schedule)
    requires rate >= 0 && Fits(schedule, n) && ClockRuns(schedule, start)
    ensures WithinRate(Run(Initial(rate, 0, start, n), schedule), start)
  {
    TimeKept(rate, 0, start, n);
    OrderKeepsRate(rate, 0, start, n, schedule);
  }

  /** Where the committed time never goes back, the rate is kept. */
  lemma OrderKeepsRate(rate: Int64, capacity: Int64, start: Int64, n: nat, schedule: Schedule)
    requires rate >= 0 && capacity >= 0 && Fits(schedule, n)
    requires TimesNeverGoBack(Initial(rate, capacity, start, n), schedule)
    ensures WithinRate(Run(Initial(rate, capacity, start, n), schedule), start)
  {
    GrantsWithinRate(rate, capacity, start, n, schedule);
    RunKeepsConstants(Initial(rate, capacity, start, n), schedule);
  }

  lemma NothingRefilledKeepsRate(capacity: Int64, start: Int64, n: nat, schedule: Schedule)
    requires capacity >= 0 && Fits(schedule, n)
    ensures WithinRate(Run(Initial(0, capacity, start, n), schedule), start)
  {
    GrantsWithinForwardTime(0, capacity, start, n, schedule);
    RunKeepsConstants(Initial(0, capacity, start, n), schedule);
  }

  lemma RateKept(rate: Int64, capacity: Int64, start: Int64, n: nat)
    requires rate >= 0 && start >= 0 && capacity >= 0
    requires n <= 1 || capacity == 0 || (capacity == 1 && n == 2) || rate == 0
    ensures RateIsKept(rate, capacity, start, n)
  {
    forall schedule: Schedule | Fits(schedule, n) && ClockRuns(schedule, start)
      ensures WithinRate(Run(Initial(rate, capacity, start, n), schedule), start)
    {
      if n <= 1 {
        TimeKept(rate, capacity, start, n);
        OrderKeepsRate(rate, capacity, start, n, schedule);
      } else if capacity == 0 {
        NoTokenKeepsRate(rate, start, n, schedule);
      } else if rate == 0 {
        NothingRefilledKeepsRate(capacity, start, n, schedule);
      } else {
        OneTokenKeepsRate(rate, start, schedule);
      }
    }
  }

  // ---------- Building runs ----------

  /** A schedule from s to t whose clock runs from `start` and has come to `clock`. */
  predicate Course(s: State, start: Int64, schedule: Schedule, t: State, clock: Int64) {
    && Fits(schedule, |s.frames|) && t == Run(s, schedule)
    && ClockRuns(schedule, start) && start <= clock
    && forall i | 0 <= i < |schedule| :: schedule[i].1 <= clock
  }

  lemma EmptyCourse(s: State, start: Int64)
    ensures Course(s, start, [], s, start)
  {
  }

  lemma {:induction false} RunSplit(s: State, a: Schedule, b: Schedule)
    requires Fits(a, |s.frames|) && Fits(b, |s.frames|)
    ensures Fits(a + b, |s.frames|) && Run(s, a + b) == Run(Run(s, a), b)
    decreases |a|
  {
    if a == [] {
      assert a + b == b;
    } else {
      assert (a + b)[1..] == a[1..] + b;
      RunSplit(Step(s, a[0].0, a[0].1), a[1..], b);
    }
  }

  lemma ThenStep(s: State, start: Int64, schedule: Schedule, t: State, before: Int64, g: nat, clock: Int64)
    returns (longer: Schedule, u: State)
    requires Course(s, start, schedule, t, before) && before <= clock && g < |t.frames|
    ensures u == Step(t, g, clock) && Course(s, start, longer, u, clock)
  {
    var step := [(g, clock)];
    assert step[1..] == [];
    longer, u := schedule + step, Step(t, g, clock);
    RunSplit(s, schedule, step);
    assert Run(t, step) == u;
  }

  /** What a call leaves behind once it has read the clock and then runs to its end undisturbed. */
  function Finished(s: State, g: nat): State
    requires g < |s.frames| && s.frames[g].Clocked?
  {
    var now := s.frames[g].now;
    var refill := Refill(s.rate, now, s.lastRefillTime);
    var level := NewTokens(s.capacity, s.tokens, refill);
    if level < 1 then s.(frames := s.frames[g := Done(false)])
    else s.(tokens := level - 1, lastRefillTime := now, frames := s.frames[g := Done(true)],
            granted := s.granted + 1, credited := s.credited + Max(refill, 0),
            spilled := s.spilled + s.tokens + Max(refill, 0) - level)
  }

  lemma FinishAllowed(s: State, g: nat, clock: Int64)
    requires g < |s.frames| && s.frames[g].Clocked? && Finished(s, g).frames[g] == Done(true)
    ensures Step(Step(Step(Step(s, g, clock), g, clock), g, clock), g, clock) == Finished(s, g)
  {
    var s2 := Step(Step(s, g, clock), g, clock);
    assert s2.frames[g].Planned? && Step(s2, g, clock).frames[g].TimeCommitted?;
  }

  /** The rest of a call that is granted. */
  lemma ThenFinish(s: State, start: Int64, schedule: Schedule, t: State, before: Int64, g: nat, clock: Int64)
    returns (longer: Schedule, u: State)
    requires Course(s, start, schedule, t, before) && before <= clock && g < |t.frames|
    requires t.frames[g].Clocked? && Finished(t, g).frames[g] == Done(true)
    ensures u == Finished(t, g) && Course(s, start, longer, u, clock)
  {
    FinishAllowed(t, g, clock);
    hide Course, Step, Finished;
    longer, u := ThenStep(s, start, schedule, t, before, g, clock);
    longer, u := ThenStep(s, start, longer, u, clock, g, clock);
    longer, u := ThenStep(s, start, longer, u, clock, g, clock);
    longer, u := ThenStep(s, start, longer, u, clock, g, clock);
  }

  lemma ThenReadClock(s: State, start: Int64, schedule: Schedule, t: State, before: Int64, g: nat, clock: Int64)
    returns (longer: Schedule, u: State)
    requires Course(s, start, schedule, t, before) && before <= clock && g < |t.frames| && t.frames[g] == Ready
    ensures u == t.(frames := t.frames[g := Clocked(clock)]) && Course(s, start, longer, u, clock)
  {
    hide Course;
    longer, u := ThenStep(s, start, schedule, t, before, g, clock);
  }

  /** The part of a call up to its plan. */
  lemma ThenPlan(s: State, start: Int64, schedule: Schedule, t: State, before: Int64, g: nat, clock: Int64, refill: int)
    returns (longer: Schedule, u: State)
    requires Course(s, start, schedule, t, before) && before <= clock && g < |t.frames| && t.frames[g].Clocked?
    requires refill == Refill(t.rate, t.frames[g].now, t.lastRefillTime) && NewTokens(t.capacity, t.tokens, refill) >= 1
    ensures Course(s, start, longer, u, clock)
    ensures var level := NewTokens(t.capacity, t.tokens, refill);
            var plan := Planned(t.frames[g].now, t.lastRefillTime, t.tokens, refill, level);
            u == t.(frames := t.frames[g := plan])
  {
    hide Course, Refill, NewTokens;
    longer, u := ThenStep(s, start, schedule, t, before, g, clock);
    longer, u := ThenStep(s, start, longer, u, clock, g, clock);
    assert u.frames == t.frames[g := u.frames[g]];
  }

  /** A plan whose time is still the committed one is committed. */
  lemma ThenCommit(s: State, start: Int64, schedule: Schedule, t: State, before: Int64, g: nat, clock: Int64)
    returns (longer: Schedule, u: State)
    requires Course(s, start, schedule, t, before) && before <= clock && g < |t.frames| && CommitsTime(t, g)
    ensures Course(s, start, longer, u, clock)
    ensures var f := t.frames[g];
            && u.frames == t.frames[g := TimeCommitted(f.current, f.refill, f.newTokens)]
            && u.lastRefillTime == f.now && u.rate == t.rate && u.capacity == t.capacity
            && u.tokens == t.tokens && u.granted == t.granted
  {
    hide Course, Refill, NewTokens;
    longer, u := ThenStep(s, start, schedule, t, before, g, clock);
  }

  lemma ThenSwap(s: State, start: Int64, schedule: Schedule, t: State, before: Int64, g: nat, clock: Int64)
    returns (longer: Schedule, u: State)
    requires Course(s, start, schedule, t, before) && before <= clock && g < |t.frames| && IsGranted(t, g)
    ensures Course(s, start, longer, u, clock)
    ensures u.frames == t.frames[g := Done(true)] && u.tokens == t.frames[g].newTokens - 1
    ensures u.lastRefillTime == t.lastRefillTime && u.rate == t.rate && u.capacity == t.capacity
    ensures u.granted == t.granted + 1
  {
    hide Course, Refill, NewTokens;
    longer, u := ThenStep(s, start, schedule, t, before, g, clock);
  }

  /** How many tokens a call finds, as long as nothing wraps around. */
  lemma PlainLevel(capacity: Int64, tokens: int, refill: int)
    requires 0 <= tokens <= capacity <= TWO_63 / 2 && 0 <= refill <= 1
    ensures NewTokens(capacity, tokens, refill) == Min(tokens + refill, capacity)
  {
    WrapInRange(tokens + refill);
  }

  /** Nothing is refilled when no time has passed, or when the clock was read before the last refill. */
  lemma NoRefill(rate: Int64, now: Int64, last: Int64)
    requires 0 <= now <= last
    ensures Refill(rate, now, last) == 0
  {
    WrapInRange(now - last);
    WrapInRange(0);
  }

  /** The least time that refills a token. */
  function Wait(rate: int): (d: int)
    requires 1 <= rate <= SECOND
    ensures 1 <= d <= SECOND && SECOND <= rate * d < 2 * SECOND
  {
    WaitIsEnough(rate);
    (SECOND + rate - 1) / rate
  }

  lemma WaitIsEnough(rate: int)
    requires 1 <= rate <= SECOND
    ensures var d := (SECOND + rate - 1) / rate;
            1 <= d <= SECOND && SECOND <= rate * d < 2 * SECOND
  {
    var d := (SECOND + rate - 1) / rate;
    assert rate * d + (SECOND + rate - 1) % rate == SECOND + rate - 1;
    QuotientAtMost(SECOND + rate - 1, rate, SECOND);
  }

  lemma QuotientAtMost(x: int, r: int, q: int)
    requires x >= 0 && r > 0 && x < r * (q + 1)
    ensures x / r <= q
  {
    var k := x / r;
    assert x == r * k + x % r;
    if k >= q + 1 {
      TimesMonotone(r, q + 1, k);
      assert false;
    }
  }

  lemma TimesMonotone(r: int, a: int, b: int)
    requires r >= 0 && a <= b
    ensures r * a <= r * b
  {
  }

  lemma OneRefill(rate: Int64, start: Int64)
    requires 1 <= rate <= SECOND && 0 <= start <= TWO_63 / 2
    ensures Refill(rate, start + Wait(rate), start) == 1
    ensures rate * Wait(rate) / SECOND == 1
  {
    hide Wait;
    var d := Wait(rate);
    WrapInRange(d);
    assert Elapsed(start + d, start) == d;
    assert d * rate == rate * d;
    WrapInRange(d * rate);
    hide Wrap;
    assert Quotient(d * rate, SECOND) == 1;
  }

  /** A whole call that is granted, by a goroutine that is idle. */
  lemma ThenCall(s: State, start: Int64, schedule: Schedule, t: State, before: Int64, g: nat, clock: Int64, refill: int)
    returns (longer: Schedule, u: State)
    requires Course(s, start, schedule, t, before) && before <= clock && g < |t.frames|
    requires t.frames[g].Ready? || t.frames[g].Done?
    requires 0 <= t.tokens <= t.capacity <= TWO_63 / 2 && 0 <= refill <= 1 && t.tokens + refill >= 1 && t.capacity >= 1
    requires refill == Refill(t.rate, clock, t.lastRefillTime)
    ensures Course(s, start, longer, u, clock)
    ensures u.rate == t.rate && u.capacity == t.capacity && u.frames == t.frames[g := Done(true)]
    ensures u.tokens == Min(t.tokens + refill, t.capacity) - 1 && u.lastRefillTime == clock && u.granted == t.granted + 1
  {
    PlainLevel(t.capacity, t.tokens, refill);
    hide Course, NewTokens, Refill;
    longer, u := schedule, t;
    if u.frames[g].Done? {
      longer, u := ThenStep(s, start, longer, u, before, g, clock);
      longer, u := ThenStep(s, start, longer, u, clock, g, clock);
    } else {
      longer, u := ThenStep(s, start, longer, u, before, g, clock);
    }
    longer, u := ThenFinish(s, start, longer, u, clock, g, clock);
    assert u.frames == t.frames[g := Done(true)];
  }

  /** So many calls at the committed time, each of which takes a token. */
  lemma {:induction false} ThenDrain(s: State, start: Int64, schedule: Schedule, t: State, g: nat, n: nat)
    returns (longer: Schedule, u: State)
    requires Course(s, start, schedule, t, t.lastRefillTime) && g < |t.frames| && t.frames[g] == Done(true)
    requires t.lastRefillTime >= 0 && n <= t.tokens <= t.capacity <= TWO_63 / 2
    ensures Course(s, start, longer, u, t.lastRefillTime)
    ensures u.rate == t.rate && u.capacity == t.capacity
    ensures u.lastRefillTime == t.lastRefillTime && u.granted == t.granted + n
    decreases n
  {
    hide Course;
    longer, u := schedule, t;
    if n > 0 {
      NoRefill(t.rate, t.lastRefillTime, t.lastRefillTime);
      longer, u := ThenCall(s, start, schedule, t, t.lastRefillTime, g, t.lastRefillTime, 0);
      longer, u := ThenDrain(s, start, longer, u, g, n - 1);
    }
  }

  // ---------- The exact conditions ----------

  /** The schedule, under a clock that never goes back, breaks the rate. */
  predicate BreaksRate(rate: Int64, capacity: Int64, start: Int64, n: nat, schedule: Schedule) {
    && Fits(schedule, n) && ClockRuns(schedule, start)
    && !WithinRate(Run(Initial(rate, capacity, start, n), schedule), start)
  }

  /** Four calls, and the time between start and later is credited twice. */
  lemma CreditedTwice(rate: Int64, capacity: Int64, start: Int64, n: nat) returns (schedule: Schedule, t: State)
    requires 1 <= rate <= SECOND && 2 <= capacity <= TWO_63 / 2 && 0 <= start <= TWO_63 / 2 && n >= 2
    ensures var later := start + Wait(rate);
            && Course(Initial(rate, capacity, start, n), start, schedule, t, later)
            && |t.frames| == n && t.rate == rate && t.capacity == capacity
            && t.tokens == capacity - 2 && t.granted == 4 && t.lastRefillTime == later && t.frames[0] == Done(true)
  {
    var s := Initial(rate, capacity, start, n);
    var later := start + Wait(rate);
    OneRefill(rate, start);
    NoRefill(rate, start, start);
    NoRefill(rate, start, later);
    PlainLevel(capacity, capacity - 1, 0);
    t := s;
    schedule := [];
    EmptyCourse(s, start);
    schedule, t := ThenReadClock(s, start, schedule, t, start, 1, start);
    hide Course, Wait, Refill, NewTokens, Step;
    schedule, t := ThenCall(s, start, schedule, t, start, 0, start, 0);
    schedule, t := ThenCall(s, start, schedule, t, start, 0, later, 1);
    schedule, t := ThenFinish(s, start, schedule, t, later, 1, later);
    schedule, t := ThenCall(s, start, schedule, t, later, 0, later, 1);
  }

  /**
   The code also stores a clock reading that is earlier than the committed time, and the same time is
   then credited twice. Goroutine 1 reads the clock at the start and is overtaken by two calls of
   goroutine 0. It puts the time back; goroutine 0 gets a second refill for the same time, and takes
   what is left: capacity + 2 requests are granted where the rate allows capacity + 1.
   */
  lemma TwoGoroutinesBreakRate(rate: Int64, capacity: Int64, start: Int64, n: nat) returns (schedule: Schedule)
    requires 1 <= rate <= SECOND && 2 <= capacity <= TWO_63 / 2 && 0 <= start <= TWO_63 / 2 && n >= 2
    ensures BreaksRate(rate, capacity, start, n, schedule)
  {
    var s := Initial(rate, capacity, start, n);
    var later := start + Wait(rate);
    OneRefill(rate, start);
    var t: State;
    schedule, t := CreditedTwice(rate, capacity, start, n);
    hide Course, Wait, Refill, NewTokens, Step, BreaksRate;
    schedule, t := ThenDrain(s, start, schedule, t, 0, capacity - 2);
    CourseBreaks(s, start, schedule, t, later);
  }

  lemma CourseBreaks(s: State, start: Int64, schedule: Schedule, t: State, clock: Int64)
    requires Course(s, start, schedule, t, clock) && s == Initial(s.rate, s.capacity, start, |s.frames|)
    requires !WithinRate(t, start)
    ensures BreaksRate(s.rate, s.capacity, start, |s.frames|, schedule)
  {
  }

  /** Goroutines 1 and 2 have read the clock at the start and plan from the later time that 0 has committed. */
  lemma TwoLatePlans(rate: Int64, capacity: Int64, start: Int64, n: nat) returns (schedule: Schedule, t: State)
    requires 1 <= rate <= SECOND && 1 <= capacity <= TWO_63 / 2 && 0 <= start <= TWO_63 / 2 && n >= 3
    ensures var later := start + Wait(rate);
            && Course(Initial(rate, capacity, start, n), start, schedule, t, later)
            && |t.frames| == n && t.rate == rate && t.capacity == capacity
            && t.tokens == capacity && t.granted == 0 && t.lastRefillTime == later
            && t.frames[0] == TimeCommitted(capacity, 1, capacity)
            && t.frames[1] == t.frames[2] == Planned(start, later, capacity, 0, capacity)
  {
    var s := Initial(rate, capacity, start, n);
    var later := start + Wait(rate);
    OneRefill(rate, start);
    NoRefill(rate, start, later);
    t := s;
    schedule := [];
    EmptyCourse(s, start);
    PlainLevel(capacity, capacity, 0);
    PlainLevel(capacity, capacity, 1);
    hide Course, Wait, Refill, NewTokens, Step;
    schedule, t := ThenReadClock(s, start, schedule, t, start, 2, start);
    schedule, t := ThenReadClock(s, start, schedule, t, start, 1, start);
    schedule, t := ThenReadClock(s, start, schedule, t, start, 0, later);
    schedule, t := ThenPlan(s, start, schedule, t, later, 0, later, 1);
    schedule, t := ThenCommit(s, start, schedule, t, later, 0, later);
    schedule, t := ThenPlan(s, start, schedule, t, later, 1, later, 0);
    schedule, t := ThenPlan(s, start, schedule, t, later, 2, later, 0);
  }

  /**
   With a single token, two late goroutines are needed. Goroutine 2 puts the time back; goroutine 0
   takes the token and is granted another one for the time up to its later reading. Then goroutine 1
   puts the time back once more, and goroutine 0 gets a third one.
   */
  lemma ThreeGoroutinesBreakRate(rate: Int64, start: Int64, n: nat) returns (schedule: Schedule)
    requires 1 <= rate <= SECOND && 0 <= start <= TWO_63 / 2 && n >= 3
    ensures BreaksRate(rate, 1, start, n, schedule)
  {
    var s := Initial(rate, 1, start, n);
    var later := start + Wait(rate);
    OneRefill(rate, start);
    var t;
    schedule, t := TwoLatePlans(rate, 1, start, n);
    hide Course, Wait, Refill, NewTokens, Step;
    schedule, t := ThenCommit(s, start, schedule, t, later, 2, later);
    schedule, t := ThenSwap(s, start, schedule, t, later, 0, later);
    schedule, t := ThenCall(s, start, schedule, t, later, 0, later, 1);
    schedule, t := ThenCommit(s, start, schedule, t, later, 1, later);
    schedule, t := ThenCall(s, start, schedule, t, later, 0, later, 1);
    CourseBreaks(s, start, schedule, t, later);
  }

  /**
   Exactly when the rate is kept: for every rate of up to a token a nanosecond, and under a clock that
   never goes back, n goroutines always keep the rate if and only if there is only one of them, or no
   token, or no refill, or just one token for two of them.
   */
  lemma RateKeptIff(rate: Int64, capacity: Int64, start: Int64, n: nat)
    requires 0 <= rate <= SECOND && 0 <= capacity <= TWO_63 / 2 && 0 <= start <= TWO_63 / 2
    ensures RateIsKept(rate, capacity, start, n) <==>
            n <= 1 || capacity == 0 || (capacity == 1 && n == 2) || rate == 0
  {
    if n <= 1 || capacity == 0 || (capacity == 1 && n == 2) || rate == 0 {
      RateKept(rate, capacity, start, n);
    } else {
      var schedule;
      if capacity >= 2 {
        schedule := TwoGoroutinesBreakRate(rate, capacity, start, n);
      } else {
        schedule := ThreeGoroutinesBreakRate(rate, start, n);
      }
      assert BreaksRate(rate, capacity, start, n, schedule);
    }
  }

  /**
   Goroutine 1 reads the clock, and is overtaken by goroutine 0, which reads it a nanosecond later and
   commits that; goroutine 1 then puts the time back.
   */
  lemma TwoGoroutinesPutTimeBack(rate: Int64, capacity: Int64, start: Int64, n: nat) returns (schedule: Schedule)
    requires rate >= 0 && capacity >= 1 && 0 <= start < TWO_63 - 1 && capacity + rate / SECOND < TWO_63 && n >= 2
    ensures Fits(schedule, n) && ClockRuns(schedule, start)
    ensures !TimesNeverGoBack(Initial(rate, capacity, start, n), schedule)
  {
    var s := Initial(rate, capacity, start, n);
    var later := start + 1;
    OneNanosecond(rate, capacity, start);
    NoRefill(rate, start, later);
    WrapInRange(capacity);
    var t := s;
    schedule := [];
    EmptyCourse(s, start);
    hide Course, Refill, Wrap;
    schedule, t := ThenReadClock(s, start, schedule, t, start, 1, start);
    schedule, t := ThenReadClock(s, start, schedule, t, start, 0, later);
    hide Step;
    schedule, t := ThenPlan(s, start, schedule, t, later, 0, later, Refill(rate, later, start));
    schedule, t := ThenCommit(s, start, schedule, t, later, 0, later);
    schedule, t := ThenPlan(s, start, schedule, t, later, 1, later, 0);
    assert CommitsTime(t, 1) && t.frames[1].now < t.lastRefillTime;
    schedule := GoesBack(s, start, schedule, t, later, 1);
  }

  lemma OneNanosecond(rate: Int64, capacity: Int64, start: Int64)
    requires rate >= 0 && capacity >= 1 && 0 <= start < TWO_63 - 1 && capacity + rate / SECOND < TWO_63
    ensures NewTokens(capacity, capacity, Refill(rate, start + 1, start)) == capacity
  {
    WrapInRange(1);
    WrapInRange(rate);
    assert Refill(rate, start + 1, start) == rate / SECOND;
    WrapInRange(capacity + rate / SECOND);
  }

  lemma GoesBack(s: State, start: Int64, schedule: Schedule, t: State, clock: Int64, g: nat) returns (longer: Schedule)
    requires Course(s, start, schedule, t, clock) && g < |t.frames|
    requires CommitsTime(t, g) && t.frames[g].now < t.lastRefillTime
    ensures Fits(longer, |s.frames|) && ClockRuns(longer, start) && !TimesNeverGoBack(s, longer)
  {
    longer := schedule + [(g, clock)];
    if TimesNeverGoBack(s, longer) {
      OrderAtEnd(s, schedule, g, clock);
      assert false;
    }
  }

  lemma {:induction false} OrderAtEnd(s: State, schedule: Schedule, g: nat, clock: Int64)
    requires Fits(schedule, |s.frames|) && g < |s.frames|
    requires TimesNeverGoBack(s, schedule + [(g, clock)])
    ensures var t := Run(s, schedule); CommitsTime(t, g) ==> t.frames[g].now >= t.lastRefillTime
    decreases |schedule|
  {
    var all := schedule + [(g, clock)];
    if schedule != [] {
      assert all[1..] == schedule[1..] + [(g, clock)];
      OrderAtEnd(Step(s, schedule[0].0, schedule[0].1), schedule[1..], g, clock);
    }
  }

  /** And the committed time itself never goes back if and only if there is one goroutine or no token. */
  lemma TimeKeptIff(rate: Int64, capacity: Int64, start: Int64, n: nat)
    requires rate >= 0 && capacity >= 0 && 0 <= start < TWO_63 - 1 && capacity + rate / SECOND < TWO_63
    ensures TimeIsKept(rate, capacity, start, n) <==> n <= 1 || capacity == 0
  {
    if n <= 1 || capacity == 0 {
      TimeKept(rate, capacity, start, n);
    } else {
      var schedule := TwoGoroutinesPutTimeBack(rate, capacity, start, n);
      assert !TimesNeverGoBack(Initial(rate, capacity, start, n), schedule);
    }
  }
}
