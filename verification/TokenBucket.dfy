/**
 The lock-free token bucket as interleaved atomic steps of any number of goroutines. The shared
 state is two words, updated by two separate compare-and-swaps; all arithmetic is 64-bit.
 */
module TokenBucket {
  import opened Numbers

  const SECOND: int := 1_000_000_000
  const TWO_63: int := 0x8000_0000_0000_0000
  const TWO_64: int := 0x1_0000_0000_0000_0000

  type Int64 = x: int | -TWO_63 <= x < TWO_63

  /** Two's complement wrap-around of an integer to 64 bits. */
  function Wrap(x: int): Int64 {
    (x + TWO_63) % TWO_64 - TWO_63
  }

  /** Division that truncates toward zero. */
  function Quotient(a: int, b: int): int
    requires b > 0
  {
    if a >= 0 then a / b else -(-a / b)
  }

  /** The time that the code takes to have passed since the last refill. */
  function Elapsed(now: Int64, lastRefill: Int64): nat {
    Max(Wrap(now - lastRefill), 0)
  }

  /** The tokens that the code computes for that time. */
  function Refill(rate: Int64, now: Int64, lastRefill: Int64): int {
    Quotient(Wrap(Elapsed(now, lastRefill) * rate), SECOND)
  }

  function NewTokens(capacity: Int64, current: int, refill: int): int {
    Min(Wrap(current + refill), capacity)
  }

  /** The whole tokens that a rate yields in a span of time. */
  function Earned(rate: int, span: int): int {
    rate * span / 1_000_000_000
  }

  /** The clock has not gone back since the last refill, and no sum or product leaves 64 bits. */
  predicate InRange(rate: int, capacity: int, tokens: int, last: int, clock: int) {
    && rate >= 0 && 0 <= tokens <= capacity && last <= clock < last + TWO_63
    && rate * (clock - last) < TWO_63 && tokens + Earned(rate, clock - last) < TWO_63
  }

  /** There the level is what was in the bucket and what has been earned since, up to the capacity. */
  lemma LevelInRange(rate: Int64, capacity: Int64, tokens: int, last: Int64, clock: Int64)
    requires InRange(rate, capacity, tokens, last, clock)
    ensures NewTokens(capacity, tokens, Refill(rate, clock, last)) == Min(capacity, tokens + Earned(rate, clock - last))
  {
    var span := clock - last;
    ProductNotNegative(rate, span);
    WrapInRange(span);
    assert Elapsed(clock, last) == span;
    assert span * rate == rate * span;
    WrapInRange(rate * span);
    WrapInRange(tokens + Earned(rate, span));
  }

  lemma ProductNotNegative(a: int, b: int)
    requires a >= 0 && b >= 0
    ensures a * b >= 0
  {
  }

  lemma WrapInRange(x: int)
    requires -TWO_63 <= x < TWO_63
    ensures Wrap(x) == x
  {
  }

  /** Where a goroutine is inside Allow, with what it has read so far. */
  datatype Frame =
    | Ready
    | Clocked(now: Int64)
    | TimeRead(now: Int64, lastRefill: Int64)
    | Planned(now: Int64, lastRefill: Int64, current: int, refill: int, newTokens: int)
    | TimeCommitted(current: int, refill: int, newTokens: int)
    | Done(allowed: bool)

  /**
   The limiter and its goroutines. The last three numbers are bookkeeping: requests granted, refill
   credited by successful time swaps, and refill that was credited but never reached the bucket.
   */
  datatype State = State(
    rate: Int64, capacity: Int64, tokens: int, lastRefillTime: Int64, frames: seq<Frame>,
    granted: nat, credited: nat, spilled: int)

  function Initial(rate: Int64, capacity: Int64, now: Int64, goroutines: nat): State {
    State(rate, capacity, capacity, now, seq(goroutines, _ => Ready), 0, 0, 0)
  }

  /** The next frame, given what the goroutine sees in the shared words. */
  function NextFrame(s: State, frame: Frame, clock: Int64): Frame {
    match frame
    case Ready => Clocked(clock)
    case Clocked(now) => TimeRead(now, s.lastRefillTime)
    case TimeRead(now, lastRefill) =>
      var refill := Refill(s.rate, now, lastRefill);
      var newTokens := NewTokens(s.capacity, s.tokens, refill);
      if newTokens < 1 then Done(false) else Planned(now, lastRefill, s.tokens, refill, newTokens)
    case Planned(_, lastRefill, current, refill, newTokens) =>
      if s.lastRefillTime == lastRefill then TimeCommitted(current, refill, newTokens) else Ready
    case TimeCommitted(current, _, _) =>
      if s.tokens == current then Done(true) else Ready
    case Done(_) => Ready
  }

  /** One atomic step of goroutine g; the clock reading is used only where the code reads the clock. */
  function Step(s: State, g: nat, clock: Int64): State
    requires g < |s.frames|
  {
    var frame := s.frames[g];
    var t := s.(frames := s.frames[g := NextFrame(s, frame, clock)]);
    match frame
    case Planned(now, lastRefill, _, refill, _) =>
      if s.lastRefillTime == lastRefill
      then t.(lastRefillTime := now, credited := s.credited + Max(refill, 0))
      else t
    case TimeCommitted(current, refill, newTokens) =>
      if s.tokens == current
      then t.(tokens := newTokens - 1, granted := s.granted + 1,
              spilled := s.spilled + current + Max(refill, 0) - newTokens)
      else t.(spilled := s.spilled + Max(refill, 0))
    case _ => t
  }

  /** A schedule: which goroutine moves next, and what the clock shows it. */
  type Schedule = seq<(nat, Int64)>

  predicate Fits(schedule: Schedule, goroutines: nat) {
    forall i | 0 <= i < |schedule| :: schedule[i].0 < goroutines
  }

  function Run(s: State, schedule: Schedule): (t: State)
    requires Fits(schedule, |s.frames|)
    ensures |t.frames| == |s.frames|
    decreases |schedule|
  {
    if schedule == [] then s else Run(Step(s, schedule[0].0, schedule[0].1), schedule[1..])
  }

  // ---------- Invariants of every interleaving ----------

  ghost predicate FrameSound(capacity: int, frame: Frame) {
    match frame
    case Planned(_, _, current, refill, newTokens) => PlanSound(capacity, current, refill, newTokens)
    case TimeCommitted(current, refill, newTokens) => PlanSound(capacity, current, refill, newTokens)
    case _ => true
  }

  ghost predicate PlanSound(capacity: int, current: int, refill: int, newTokens: int) {
    0 <= current <= capacity && 1 <= newTokens <= capacity && newTokens <= current + Max(refill, 0)
  }

  /** Refill that goroutines between their two swaps have credited but not yet put into the bucket. */
  function Claim(frame: Frame): nat {
    if frame.TimeCommitted? then Max(frame.refill, 0) else 0
  }

  function Claimed(frames: seq<Frame>): nat {
    if frames == [] then 0 else Claim(frames[0]) + Claimed(frames[1..])
  }

  lemma {:induction false} ClaimedUpdate(frames: seq<Frame>, g: nat, frame: Frame)
    requires g < |frames|
    ensures Claimed(frames[g := frame]) + Claim(frames[g]) == Claimed(frames) + Claim(frame)
  {
    if g == 0 {
      assert frames[0 := frame][1..] == frames[1..];
    } else {
      assert frames[g := frame][1..] == frames[1..][g - 1 := frame];
      ClaimedUpdate(frames[1..], g - 1, frame);
    }
  }

  /** The bucket is never below zero or above capacity, and every token is accounted for. */
  ghost predicate Accounted(s: State) {
    && 0 <= s.tokens <= s.capacity
    && 0 <= s.spilled
    && (forall g | 0 <= g < |s.frames| :: FrameSound(s.capacity, s.frames[g]))
    && s.granted + s.tokens + Claimed(s.frames) + s.spilled == s.capacity + s.credited
  }

  /** Even when the sum overflows 64 bits, the planned level is at most what was there plus the refill. */
  lemma PlanIsSound(s: State, now: Int64, lastRefill: Int64)
    requires 0 <= s.tokens <= s.capacity
    ensures var refill := Refill(s.rate, now, lastRefill);
            var newTokens := NewTokens(s.capacity, s.tokens, refill);
            newTokens >= 1 ==> PlanSound(s.capacity, s.tokens, refill, newTokens)
  {
    var refill := Refill(s.rate, now, lastRefill);
    RefillRange(s.rate, now, lastRefill);
    WrapNotAbove(s.tokens + refill);
  }

  lemma WrapNotAbove(x: int)
    requires x >= -TWO_63
    ensures Wrap(x) <= x
  {
  }

  lemma RefillRange(rate: Int64, now: Int64, lastRefill: Int64)
    ensures -TWO_63 <= Refill(rate, now, lastRefill) < TWO_63
  {
  }

  lemma StepAccounts(s: State, g: nat, clock: Int64)
    requires g < |s.frames| && Accounted(s)
    ensures Accounted(Step(s, g, clock))
  {
    var frame := s.frames[g];
    ClaimedUpdate(s.frames, g, NextFrame(s, frame, clock));
    assert FrameSound(s.capacity, frame);
    if frame.TimeRead? {
      PlanIsSound(s, frame.now, frame.lastRefill);
    }
  }

  lemma {:induction false} ClaimedAllReady(n: nat)
    ensures Claimed(seq(n, _ => Ready)) == 0
  {
    if n > 0 {
      assert seq(n, _ => Ready)[1..] == seq(n - 1, _ => Ready);
      ClaimedAllReady(n - 1);
    }
  }

  lemma {:induction false} RunAccountsFrom(s: State, schedule: Schedule)
    requires Fits(schedule, |s.frames|) && Accounted(s)
    ensures Accounted(Run(s, schedule))
    decreases |schedule|
  {
    if schedule != [] {
      StepAccounts(s, schedule[0].0, schedule[0].1);
      RunAccountsFrom(Step(s, schedule[0].0, schedule[0].1), schedule[1..]);
    }
  }

  /**
   Token accounting, for every number of goroutines and every interleaving, ABA on either word
   included: the bucket stays between 0 and capacity, and grants + tokens + claimed refill +
   spilled refill is exactly capacity + credited refill.
   */
  lemma RunAccounts(rate: Int64, capacity: Int64, start: Int64, goroutines: nat, schedule: Schedule)
    requires capacity >= 0 && Fits(schedule, goroutines)
    ensures Accounted(Run(Initial(rate, capacity, start, goroutines), schedule))
  {
    ClaimedAllReady(goroutines);
    RunAccountsFrom(Initial(rate, capacity, start, goroutines), schedule);
  }

  // ---------- The rate bound ----------

  /** Goroutine g is about to swap in its clock reading. */
  predicate CommitsTime(s: State, g: nat)
    requires g < |s.frames|
  {
    s.frames[g].Planned? && s.frames[g].lastRefill == s.lastRefillTime
  }

  /** The time that the successful time swaps of a run take to have passed; a move back counts as none. */
  function Forward(s: State, schedule: Schedule): nat
    requires Fits(schedule, |s.frames|)
    decreases |schedule|
  {
    if schedule == [] then 0
    else
      var (g, clock) := schedule[0];
      (if CommitsTime(s, g) then Elapsed(s.frames[g].now, s.lastRefillTime) else 0)
      + Forward(Step(s, g, clock), schedule[1..])
  }

  /** No time swap of the run puts the time back. */
  predicate TimesNeverGoBack(s: State, schedule: Schedule)
    requires Fits(schedule, |s.frames|)
    decreases |schedule|
  {
    schedule == [] ||
    (&& (CommitsTime(s, schedule[0].0) ==> s.frames[schedule[0].0].now >= s.lastRefillTime)
     && TimesNeverGoBack(Step(s, schedule[0].0, schedule[0].1), schedule[1..]))
  }

  /** Credited refill is backed by time moved forward; a plan's refill is what its two readings give. */
  ghost predicate Backed(s: State, forward: nat) {
    && s.credited * SECOND <= s.rate * forward
    && forall g | 0 <= g < |s.frames| && s.frames[g].Planned? ::
         s.frames[g].refill == Refill(s.rate, s.frames[g].now, s.frames[g].lastRefill)
  }

  /** A refill never exceeds rate times elapsed time, not even when the product wraps around. */
  lemma RefillBacked(rate: Int64, now: Int64, lastRefill: Int64)
    requires rate >= 0
    ensures Max(Refill(rate, now, lastRefill), 0) * SECOND <= rate * Elapsed(now, lastRefill)
  {
  }

  lemma StepBacked(s: State, g: nat, clock: Int64, forward: nat)
    requires g < |s.frames| && s.rate >= 0 && Backed(s, forward)
    ensures Backed(Step(s, g, clock),
                   forward + if CommitsTime(s, g) then Elapsed(s.frames[g].now, s.lastRefillTime) else 0)
  {
    if CommitsTime(s, g) {
      var elapsed := Elapsed(s.frames[g].now, s.lastRefillTime);
      RefillBacked(s.rate, s.frames[g].now, s.lastRefillTime);
      assert s.rate * forward + s.rate * elapsed == s.rate * (forward + elapsed);
    }
  }

  lemma {:induction false} RunBacked(s: State, schedule: Schedule, forward: nat)
    requires Fits(schedule, |s.frames|) && s.rate >= 0 && Backed(s, forward)
    ensures Backed(Run(s, schedule), forward + Forward(s, schedule))
    decreases |schedule|
  {
    if schedule != [] {
      var (g, clock) := schedule[0];
      StepBacked(s, g, clock, forward);
      RunBacked(Step(s, g, clock), schedule[1..],
                forward + if CommitsTime(s, g) then Elapsed(s.frames[g].now, s.lastRefillTime) else 0);
    }
  }

  /** In every run, grants never exceed capacity plus rate times the seconds taken to have passed. */
  lemma GrantsWithinForwardTime(rate: Int64, capacity: Int64, start: Int64, goroutines: nat, schedule: Schedule)
    requires rate >= 0 && capacity >= 0 && Fits(schedule, goroutines)
    ensures var s := Initial(rate, capacity, start, goroutines);
            Run(s, schedule).granted <= capacity + rate * Forward(s, schedule) / SECOND
  {
    var s := Initial(rate, capacity, start, goroutines);
    RunAccounts(rate, capacity, start, goroutines, schedule);
    RunKeepsConstants(s, schedule);
    RunBacked(s, schedule, 0);
    DivideBound(Run(s, schedule).credited, rate * Forward(s, schedule));
  }

  lemma DivideBound(a: int, b: int)
    requires a * SECOND <= b
    ensures a <= b / SECOND
  {
  }

  /** When no swap puts the time back, the time that passes is at most the distance covered. */
  lemma {:induction false} ForwardTelescopes(s: State, schedule: Schedule)
    requires Fits(schedule, |s.frames|) && TimesNeverGoBack(s, schedule)
    ensures Forward(s, schedule) <= Run(s, schedule).lastRefillTime - s.lastRefillTime
    decreases |schedule|
  {
    if schedule != [] {
      var (g, clock) := schedule[0];
      ForwardTelescopes(Step(s, g, clock), schedule[1..]);
      if CommitsTime(s, g) { WrapNotAbove(s.frames[g].now - s.lastRefillTime); }
    }
  }

  /** If committed times never go back, grants never exceed capacity + rate * elapsed seconds. */
  lemma GrantsWithinRate(rate: Int64, capacity: Int64, start: Int64, goroutines: nat, schedule: Schedule)
    requires rate >= 0 && capacity >= 0 && Fits(schedule, goroutines)
    requires TimesNeverGoBack(Initial(rate, capacity, start, goroutines), schedule)
    ensures var t := Run(Initial(rate, capacity, start, goroutines), schedule);
            t.lastRefillTime >= start && t.granted <= capacity + rate * (t.lastRefillTime - start) / SECOND
  {
    var s := Initial(rate, capacity, start, goroutines);
    var t := Run(s, schedule);
    GrantsWithinForwardTime(rate, capacity, start, goroutines, schedule);
    ForwardTelescopes(s, schedule);
    ProductMonotone(Forward(s, schedule), t.lastRefillTime - start, rate);
  }

  lemma ProductMonotone(a: nat, b: nat, rate: nat)
    requires a <= b
    ensures rate * a / SECOND <= rate * b / SECOND
  {
  }

  lemma {:induction false} RunKeepsConstants(s: State, schedule: Schedule)
    requires Fits(schedule, |s.frames|)
    ensures Run(s, schedule).capacity == s.capacity && Run(s, schedule).rate == s.rate
    decreases |schedule|
  {
    if schedule != [] { RunKeepsConstants(Step(s, schedule[0].0, schedule[0].1), schedule[1..]); }
  }

  // ---------- Lock-freedom ----------

  /** The goroutine is about to swap in its token level, and is granted. */
  predicate IsGranted(s: State, g: nat)
    requires g < |s.frames|
  {
    s.frames[g].TimeCommitted? && s.frames[g].current == s.tokens
  }

  /** The goroutine is about to fail a swap and to start its loop again. */
  predicate FallsBack(s: State, g: nat)
    requires g < |s.frames|
  {
    || (s.frames[g].Planned? && s.frames[g].lastRefill != s.lastRefillTime)
    || (s.frames[g].TimeCommitted? && s.frames[g].current != s.tokens)
  }

  /** What the goroutine has read, and still relies on, is what the shared words hold. */
  predicate UpToDate(s: State, g: nat)
    requires g < |s.frames|
  {
    match s.frames[g]
    case TimeRead(_, lastRefill) => lastRefill == s.lastRefillTime
    case Planned(_, lastRefill, current, _, _) => lastRefill == s.lastRefillTime && current == s.tokens
    case TimeCommitted(current, _, _) => current == s.tokens
    case _ => true
  }

  /** How often a goroutine starts its loop again during a run. */
  function Retries(s: State, schedule: Schedule, g: nat): nat
    requires Fits(schedule, |s.frames|) && g < |s.frames|
    decreases |schedule|
  {
    if schedule == [] then 0
    else
      (if schedule[0].0 == g && FallsBack(s, g) then 1 else 0)
      + Retries(Step(s, schedule[0].0, schedule[0].1), schedule[1..], g)
  }

  function TimeCommits(s: State, schedule: Schedule): nat
    requires Fits(schedule, |s.frames|)
    decreases |schedule|
  {
    if schedule == [] then 0
    else
      (if CommitsTime(s, schedule[0].0) then 1 else 0)
      + TimeCommits(Step(s, schedule[0].0, schedule[0].1), schedule[1..])
  }

  predicate GrantFree(s: State, schedule: Schedule)
    requires Fits(schedule, |s.frames|)
    decreases |schedule|
  {
    schedule == [] ||
    (!IsGranted(s, schedule[0].0) && GrantFree(Step(s, schedule[0].0, schedule[0].1), schedule[1..]))
  }

  /** The number of grants stands still exactly in the runs without a successful token swap. */
  lemma {:induction false} GrantsCounted(s: State, schedule: Schedule)
    requires Fits(schedule, |s.frames|)
    ensures Run(s, schedule).granted >= s.granted
    ensures Run(s, schedule).granted == s.granted <==> GrantFree(s, schedule)
    decreases |schedule|
  {
    if schedule != [] { GrantsCounted(Step(s, schedule[0].0, schedule[0].1), schedule[1..]); }
  }

  /** How often a goroutine can still commit its time while the tokens stay as they are. */
  function Chances(frame: Frame, tokens: int): nat {
    match frame
    case Planned(_, _, current, _, _) => if current == tokens then 1 else 2
    case TimeCommitted(current, _, _) => if current == tokens then 0 else 1
    case _ => 1
  }

  function AllChances(frames: seq<Frame>, tokens: int): (n: nat)
    ensures n <= 2 * |frames|
  {
    if frames == [] then 0 else Chances(frames[0], tokens) + AllChances(frames[1..], tokens)
  }

  lemma {:induction false} ChancesUpdate(frames: seq<Frame>, g: nat, frame: Frame, tokens: int)
    requires g < |frames|
    ensures AllChances(frames[g := frame], tokens) + Chances(frames[g], tokens)
         == AllChances(frames, tokens) + Chances(frame, tokens)
  {
    if g == 0 {
      assert frames[0 := frame][1..] == frames[1..];
    } else {
      assert frames[g := frame][1..] == frames[1..][g - 1 := frame];
      ChancesUpdate(frames[1..], g - 1, frame, tokens);
    }
  }

  /** Without grants, every time commit uses up a chance. */
  lemma {:induction false} CommitsBounded(s: State, schedule: Schedule)
    requires Fits(schedule, |s.frames|) && GrantFree(s, schedule)
    ensures TimeCommits(s, schedule) <= AllChances(s.frames, s.tokens)
    decreases |schedule|
  {
    if schedule != [] {
      var (g, clock) := schedule[0];
      ChancesUpdate(s.frames, g, NextFrame(s, s.frames[g], clock), s.tokens);
      CommitsBounded(Step(s, g, clock), schedule[1..]);
    }
  }

  /** A goroutine that is up to date starts again only after another one has committed its time. */
  lemma {:induction false} RetriesBounded(s: State, schedule: Schedule, g: nat)
    requires Fits(schedule, |s.frames|) && g < |s.frames| && GrantFree(s, schedule)
    ensures Retries(s, schedule, g) <= TimeCommits(s, schedule) + if UpToDate(s, g) then 0 else 1
    decreases |schedule|
  {
    if schedule != [] {
      RetriesBounded(Step(s, schedule[0].0, schedule[0].1), schedule[1..], g);
    }
  }

  /**
   Allow is lock-free: while no request is granted, none of n goroutines starts its loop again more
   than 2n + 1 times, however they are interleaved and whatever state they start from. So when one
   goroutine keeps retrying, others keep being granted.
   */
  lemma LockFree(s: State, schedule: Schedule, g: nat)
    requires Fits(schedule, |s.frames|) && g < |s.frames|
    requires Run(s, schedule).granted == s.granted
    ensures Retries(s, schedule, g) <= 2 * |s.frames| + 1
  {
    GrantsCounted(s, schedule);
    CommitsBounded(s, schedule);
    RetriesBounded(s, schedule, g);
  }

  // ---------- The limiter ----------

  class TokenBucketLimiter {
    const rate: Int64
    const capacity: Int64
    var tokens: int
    var lastRefillTime: Int64
    var frames: seq<Frame>   // the local variables of the goroutines inside Allow
    ghost var granted: nat
    ghost var credited: nat
    ghost var spilled: int

    ghost function Snapshot(): State
      reads this
    {
      State(rate, capacity, tokens, lastRefillTime, frames, granted, credited, spilled)
    }

    constructor (rate: Int64, capacity: Int64, now: Int64, goroutines: nat)
      ensures Snapshot() == Initial(rate, capacity, now, goroutines)
    {
      this.rate, this.capacity := rate, capacity;
      tokens, lastRefillTime := capacity, now;
      frames := seq(goroutines, _ => Ready);
      granted, credited, spilled := 0, 0, 0;
    }

    method CompareAndSwapTime(expected: Int64, now: Int64) returns (swapped: bool)
      modifies this`lastRefillTime
      ensures swapped == (old(lastRefillTime) == expected)
      ensures lastRefillTime == if swapped then now else old(lastRefillTime)
    {
      swapped := lastRefillTime == expected;
      if swapped { lastRefillTime := now; }
    }

    method CompareAndSwapTokens(expected: int, level: int) returns (swapped: bool)
      modifies this`tokens
      ensures swapped == (old(tokens) == expected)
      ensures tokens == if swapped then level else old(tokens)
    {
      swapped := tokens == expected;
      if swapped { tokens := level; }
    }

    /** One atomic step of goroutine g through the body of Allow. */
    method Advance(g: nat, clock: Int64)
      requires g < |frames|
      modifies this
      ensures Snapshot() == Step(old(Snapshot()), g, clock)
    {
      match frames[g]
      case Ready =>
        frames := frames[g := Clocked(clock)];
      case Clocked(now) =>
        frames := frames[g := TimeRead(now, lastRefillTime)];
      case TimeRead(now, lastRefill) =>
        var current := tokens;
        var elapsed := Wrap(now - lastRefill);
        if elapsed < 0 { elapsed := 0; }
        var refill := Quotient(Wrap(elapsed * rate), SECOND);
        var newTokens := Wrap(current + refill);
        if newTokens > capacity { newTokens := capacity; }
        if newTokens < 1 {
          frames := frames[g := Done(false)];
        } else {
          frames := frames[g := Planned(now, lastRefill, current, refill, newTokens)];
        }
      case Planned(now, lastRefill, current, refill, newTokens) =>
        var swapped := CompareAndSwapTime(lastRefill, now);
        if swapped {
          credited := credited + Max(refill, 0);
          frames := frames[g := TimeCommitted(current, refill, newTokens)];
        } else {
          frames := frames[g := Ready];
        }
      case TimeCommitted(current, refill, newTokens) =>
        var swapped := CompareAndSwapTokens(current, newTokens - 1);
        if swapped {
          granted := granted + 1;
          spilled := spilled + current + Max(refill, 0) - newTokens;
          frames := frames[g := Done(true)];
        } else {
          spilled := spilled + Max(refill, 0);
          frames := frames[g := Ready];
        }
      case Done(_) =>
        frames := frames[g := Ready];
    }

    /**
     Allow while no other goroutine moves: the retry loop ends in its first round, and the call is
     allowed exactly when the refilled bucket holds a token.
     */
    method AllowUndisturbed(g: nat, clock: Int64) returns (allowed: bool)
      requires g < |frames| && frames[g] == Ready
      modifies this
      ensures var level := NewTokens(capacity, old(tokens), Refill(rate, clock, old(lastRefillTime)));
              && allowed == (level >= 1)
              && tokens == (if allowed then level - 1 else old(tokens))
              && lastRefillTime == (if allowed then clock else old(lastRefillTime))
      ensures frames == old(frames)[g := Done(allowed)]
      ensures InRange(rate, capacity, old(tokens), old(lastRefillTime), clock) ==>
                var held := Min(capacity, old(tokens) + Earned(rate, clock - old(lastRefillTime)));
                (allowed <==> held >= 1) && tokens == if allowed then held - 1 else old(tokens)
    {
      if InRange(rate, capacity, tokens, lastRefillTime, clock) {
        LevelInRange(rate, capacity, tokens, lastRefillTime, clock);
      }
      ghost var level := NewTokens(capacity, tokens, Refill(rate, clock, lastRefillTime));
      ghost var left := 4;
      while !frames[g].Done?
        invariant g < |frames| && frames == old(frames)[g := frames[g]]
        invariant match frames[g]
          case Ready => left == 4 && tokens == old(tokens) && lastRefillTime == old(lastRefillTime)
          case Clocked(now) => left == 3 && now == clock && tokens == old(tokens) && lastRefillTime == old(lastRefillTime)
          case TimeRead(now, last) =>
            left == 2 && now == clock && last == lastRefillTime == old(lastRefillTime) && tokens == old(tokens)
          case Planned(now, last, current, refill, newTokens) =>
            && left == 1 && now == clock && last == lastRefillTime == old(lastRefillTime)
            && current == tokens == old(tokens) && newTokens == level >= 1
          case TimeCommitted(current, _, newTokens) =>
            left == 0 && lastRefillTime == clock && current == tokens == old(tokens) && newTokens == level >= 1
          case Done(ok) =>
            && ok == (level >= 1)
            && tokens == (if ok then level - 1 else old(tokens))
            && lastRefillTime == (if ok then clock else old(lastRefillTime))
        decreases !frames[g].Done?, left
      {
        ghost var s := Snapshot();
        Advance(g, clock);
        assert frames[g] == NextFrame(s, s.frames[g], clock) && Snapshot() == Step(s, g, clock);
        if left > 0 { left := left - 1; }
      }
      allowed := frames[g].allowed;
    }
  }
}
