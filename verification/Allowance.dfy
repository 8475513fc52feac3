/** What the limiter lets through: exactly what was in the bucket and what has been earned since. */
module Allowance {
  import opened Numbers
  import opened TokenBucket

  /** How many calls of goroutine g come to an end in the run. */
  function Completed(s: State, schedule: Schedule, g: nat): nat
    requires Fits(schedule, |s.frames|) && g < |s.frames|
    decreases |schedule|
  {
    if schedule == [] then 0
    else
      var t := Step(s, schedule[0].0, schedule[0].1);
      (if !s.frames[g].Done? && t.frames[g].Done? then 1 else 0) + Completed(t, schedule[1..], g)
  }

  /** Only goroutine g moves, and the clock stands still. */
  predicate Alone(schedule: Schedule, g: nat, clock: Int64) {
    forall i | 0 <= i < |schedule| :: schedule[i] == (g, clock)
  }

  /** How far the frame is within a call of at most six steps. */
  function Phase(f: Frame): nat {
    match f
    case Done(_) => 0
    case Ready => 1
    case Clocked(_) => 2
    case TimeRead(_, _) => 3
    case Planned(_, _, _, _, _) => 4
    case TimeCommitted(_, _, _) => 5
  }

  /** What is left of the allowance after some grants, with goroutine g anywhere in its next call. */
  predicate Spending(t: State, g: nat, clock: Int64, start: State, allowance: nat, grants: nat)
    requires g < |t.frames|
  {
    && t.rate == start.rate && t.capacity == start.capacity && t.granted == start.granted + grants
    && grants <= allowance <= t.capacity
    && InRange(start.rate, start.capacity, start.tokens, start.lastRefillTime, clock)
    && allowance == Min(start.capacity, start.tokens + Earned(start.rate, clock - start.lastRefillTime))
    && t.tokens == (if grants == 0 then start.tokens else allowance - grants)
    && t.lastRefillTime == (if grants == 0 && !t.frames[g].TimeCommitted? then start.lastRefillTime else clock)
    && match t.frames[g]
       case Clocked(now) => now == clock
       case TimeRead(now, last) => now == clock && last == t.lastRefillTime
       case Planned(now, last, current, _, level) =>
         now == clock && last == t.lastRefillTime && current == t.tokens && level == allowance - grants >= 1
       case TimeCommitted(current, _, level) => current == t.tokens && level == allowance - grants >= 1
       case _ => true
  }

  /** The level that the call finds is what is left of the allowance. */
  lemma LevelIsLeft(t: State, g: nat, clock: Int64, start: State, allowance: nat, grants: nat)
    requires g < |t.frames| && Spending(t, g, clock, start, allowance, grants) && t.frames[g].TimeRead?
    ensures NewTokens(t.capacity, t.tokens, Refill(t.rate, clock, t.lastRefillTime)) == allowance - grants
  {
    if grants == 0 {
      LevelInRange(start.rate, start.capacity, start.tokens, start.lastRefillTime, clock);
    } else {
      assert t.rate * (clock - clock) == 0;
      LevelInRange(t.rate, t.capacity, t.tokens, clock, clock);
    }
  }

  /** A step of a call spends one token of the allowance, or is denied when nothing is left of it. */
  lemma StepSpends(t: State, g: nat, clock: Int64, start: State, allowance: nat, grants: nat)
    requires g < |t.frames| && Spending(t, g, clock, start, allowance, grants)
    ensures var u := Step(t, g, clock);
            var more := if t.frames[g].TimeCommitted? then 1 else 0;
            && Spending(u, g, clock, start, allowance, grants + more)
            && (if !t.frames[g].Done? && u.frames[g].Done? then more == 1 || grants == allowance
                else more == 0 && Phase(u.frames[g]) == Phase(t.frames[g]) + 1)
  {
    if t.frames[g].TimeRead? { LevelIsLeft(t, g, clock, start, allowance, grants); }
    hide NewTokens, Refill, InRange, Earned;
  }

  lemma {:induction false} RunSpends(t: State, g: nat, clock: Int64, start: State, allowance: nat, calls: nat, schedule: Schedule)
    requires g < |t.frames| && Fits(schedule, |t.frames|) && Alone(schedule, g, clock)
    requires Spending(t, g, clock, start, allowance, Min(calls, allowance))
    ensures var u, more := Run(t, schedule), Completed(t, schedule, g);
            && Spending(u, g, clock, start, allowance, Min(calls + more, allowance))
            && Phase(t.frames[g]) + |schedule| <= 6 * more + Phase(u.frames[g])
    decreases |schedule|
  {
    if schedule != [] {
      var u := Step(t, g, clock);
      StepSpends(t, g, clock, start, allowance, Min(calls, allowance));
      var done := if !t.frames[g].Done? && u.frames[g].Done? then 1 else 0;
      hide Spending, Step;
      RunSpends(u, g, clock, start, allowance, calls + done, schedule[1..]);
    }
  }

  /**
   A goroutine that calls Allow again and again at one instant, with nobody else about, is granted
   exactly its first calls, as many as there are tokens in the bucket and earned since the last refill,
   up to the capacity. Every six steps complete a call.
   */
  lemma BurstIsExact(s: State, g: nat, clock: Int64, schedule: Schedule)
    requires g < |s.frames| && (s.frames[g].Ready? || s.frames[g].Done?)
    requires Fits(schedule, |s.frames|) && Alone(schedule, g, clock)
    requires InRange(s.rate, s.capacity, s.tokens, s.lastRefillTime, clock)
    ensures var calls := Completed(s, schedule, g);
            && Run(s, schedule).granted == s.granted
                 + Min(calls, Min(s.capacity, s.tokens + s.rate * (clock - s.lastRefillTime) / 1_000_000_000))
            && |schedule| <= 6 * calls + 5
  {
    ProductNotNegative(s.rate, clock - s.lastRefillTime);
    var allowance: nat := Min(s.capacity, s.tokens + Earned(s.rate, clock - s.lastRefillTime));
    RunSpends(s, g, clock, s, allowance, 0, schedule);
  }

  /** An emptied bucket that has been left alone for k tokens' time lets exactly k calls through. */
  lemma RefilledBucket(s: State, g: nat, clock: Int64, schedule: Schedule, k: nat)
    requires g < |s.frames| && (s.frames[g].Ready? || s.frames[g].Done?)
    requires Fits(schedule, |s.frames|) && Alone(schedule, g, clock)
    requires s.tokens == 0 && k <= s.capacity && s.rate >= 0
    requires k * 1_000_000_000 <= s.rate * (clock - s.lastRefillTime) < (k + 1) * 1_000_000_000 <= TWO_63
    requires s.lastRefillTime <= clock < s.lastRefillTime + TWO_63
    ensures Run(s, schedule).granted == s.granted + Min(Completed(s, schedule, g), k)
  {
    assert s.rate * (clock - s.lastRefillTime) / 1_000_000_000 == k;
    BurstIsExact(s, g, clock, schedule);
  }

  // ---------- How a call ends ----------

  /** The goroutine reads the tokens and finds less than one in the refilled bucket. */
  predicate FindsTooLittle(s: State, g: nat)
    requires g < |s.frames|
  {
    && s.frames[g].TimeRead?
    && NewTokens(s.capacity, s.tokens, Refill(s.rate, s.frames[g].now, s.frames[g].lastRefill)) < 1
  }

  /** The last step of the goroutine, the i-th of the schedule, swaps the tokens, or finds too little. */
  predicate EndsAt(s: State, schedule: Schedule, g: nat, allowed: bool, i: nat)
    requires Fits(schedule, |s.frames|) && g < |s.frames| && i < |schedule|
  {
    && schedule[i].0 == g && (forall j | i < j < |schedule| :: schedule[j].0 != g)
    && if allowed then IsGranted(Run(s, schedule[..i]), g) else FindsTooLittle(Run(s, schedule[..i]), g)
  }

  predicate Ends(s: State, schedule: Schedule, g: nat, allowed: bool)
    requires Fits(schedule, |s.frames|) && g < |s.frames|
  {
    exists i :: 0 <= i < |schedule| && EndsAt(s, schedule, g, allowed, i)
  }

  lemma {:induction false} RunLast(s: State, schedule: Schedule)
    requires Fits(schedule, |s.frames|) && schedule != []
    ensures var n := |schedule| - 1;
            Run(s, schedule) == Step(Run(s, schedule[..n]), schedule[n].0, schedule[n].1)
    decreases |schedule|
  {
    if |schedule| > 1 {
      assert schedule[1..][..|schedule| - 2] == schedule[..|schedule| - 1][1..];
      RunLast(Step(s, schedule[0].0, schedule[0].1), schedule[1..]);
    }
  }

  lemma EndsLast(s: State, schedule: Schedule, g: nat, allowed: bool)
    requires Fits(schedule, |s.frames|) && g < |s.frames| && schedule != [] && schedule[|schedule| - 1].0 == g
    ensures Ends(s, schedule, g, allowed) <==>
            var t := Run(s, schedule[..|schedule| - 1]);
            if allowed then IsGranted(t, g) else FindsTooLittle(t, g)
  {
    hide FindsTooLittle, IsGranted, Run;
    if i :| 0 <= i < |schedule| && EndsAt(s, schedule, g, allowed, i) {
      assert i == |schedule| - 1;
    }
    var t := Run(s, schedule[..|schedule| - 1]);
    if if allowed then IsGranted(t, g) else FindsTooLittle(t, g) {
      assert EndsAt(s, schedule, g, allowed, |schedule| - 1);
    }
  }

  lemma EndsEarlier(s: State, schedule: Schedule, g: nat, allowed: bool)
    requires Fits(schedule, |s.frames|) && g < |s.frames| && schedule != [] && schedule[|schedule| - 1].0 != g
    ensures Ends(s, schedule, g, allowed) <==> Ends(s, schedule[..|schedule| - 1], g, allowed)
  {
    hide FindsTooLittle, IsGranted, Run;
    var front := schedule[..|schedule| - 1];
    forall i: nat | i < |front| ensures EndsAt(s, schedule, g, allowed, i) <==> EndsAt(s, front, g, allowed, i) {
      assert front[..i] == schedule[..i];
    }
    assert !EndsAt(s, schedule, g, allowed, |front|);
  }

  /**
   In every interleaving a call has ended denied exactly if the goroutine's last step found too little in
   the bucket, and granted exactly if it swapped the tokens. A lost swap ends no call.
   */
  lemma {:induction false} CallOutcome(s: State, schedule: Schedule, g: nat, allowed: bool)
    requires Fits(schedule, |s.frames|) && g < |s.frames| && !s.frames[g].Done?
    ensures Run(s, schedule).frames[g] == Done(allowed) <==> Ends(s, schedule, g, allowed)
    decreases |schedule|
  {
    if schedule != [] {
      var n := |schedule| - 1;
      RunLast(s, schedule);
      if schedule[n].0 == g {
        EndsLast(s, schedule, g, allowed);
      } else {
        EndsEarlier(s, schedule, g, allowed);
        CallOutcome(s, schedule[..n], g, allowed);
      }
      hide Ends, Run, Refill, NewTokens;
    }
  }
}
