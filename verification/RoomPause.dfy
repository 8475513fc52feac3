/**
 Pauses are compensated exactly: the deadline of a room moves by the total length of its completed
 pauses, whichever command ends them.
 */
module RoomPause {
  import opened Wrappers
  import opened RoomDeadline
  import opened RoomMachine
  import opened RoomWatch
  import Schedule

  /** An independent stopwatch for one room: when the pause began, if it is on, and completed pauses. */
  datatype Meter = Meter(since: Option<int>, total: int)

  /** SET_PAUSE starts or stops the stopwatch; RESUME_CONFERENCE stops it if it is running. */
  function Metered(m: Meter, now: int, e: Event, id: string): Meter {
    var presses := e.Command? && e.id == id && e.code == PAUSE_CODE;
    var releases := e.Resume? && e.id == id;
    match m.since
    case None => if presses then Meter(Some(now), m.total) else m
    case Some(start) => if presses || releases then Meter(None, m.total + (now - start)) else m
  }

  function MeteredRun(m: Meter, run: seq<Timed>, id: string): Meter
    decreases |run|
  {
    if run == [] then m else MeteredRun(Metered(m, run[0].now, run[0].event, id), run[1..], id)
  }

  /** The moderator's join frame sets a new deadline, and CreateRoom a new room. */
  predicate Recalibrates(e: Event, id: string) {
    || (e.Join? && e.id == id && e.isModerator && e.minutes.Some? && 1 <= e.minutes.value <= 300)
    || (e.Create? && e.id == id)
  }

  /** The room stays in the cache and keeps its deadline apart from pauses. */
  predicate OnlyPauses(s: Shard, run: seq<Timed>, id: string)
    requires Legal(s, run)
    decreases |run|
  {
    Found(s, id).Some? &&
    (run == [] ||
     (!Recalibrates(run[0].event, id) && OnlyPauses(Step(s, run[0].now, run[0].event), run[1..], id)))
  }

  /** The pause flag and the pause state agree, and a pause is dated by createdAt. */
  predicate ReadsMeter(room: Room, base: int, m: Meter) {
    && room.isPaused == On(room.states, PAUSE_CODE) == m.since.Some?
    && (m.since.Some? ==> room.createdAt == m.since.value)
    && room.updatedAt == base + m.total
  }

  lemma StepReadsMeter(s: Shard, now: int, e: Event, id: string, base: int, m: Meter)
    requires WellFormed(s) && Enabled(s, e) && !Recalibrates(e, id)
    requires Found(s, id).Some? && Found(Step(s, now, e), id).Some?
    requires ReadsMeter(Found(s, id).value, base, m)
    ensures ReadsMeter(Found(Step(s, now, e), id).value, base, Metered(m, now, e, id))
  {
    FoundAfter(s, now, e, id);
  }

  /**
   From any moment on and until the next calibration, the deadline is what it was plus the total
   length of the pauses completed since, and the pause flag equals the pause state throughout.
   */
  lemma {:induction false} DeadlineTracksPauses(s: Shard, run: seq<Timed>, id: string, base: int, m: Meter)
    requires WellFormed(s) && Legal(s, run) && OnlyPauses(s, run, id)
    requires ReadsMeter(Found(s, id).value, base, m)
    ensures Found(Run(s, run), id).Some?
    ensures ReadsMeter(Found(Run(s, run), id).value, base, MeteredRun(m, run, id))
    decreases |run|
  {
    if run != [] {
      var t := Step(s, run[0].now, run[0].event);
      assert Found(t, id).Some?;
      StepWellFormed(s, run[0].now, run[0].event);
      StepReadsMeter(s, run[0].now, run[0].event, id, base, m);
      DeadlineTracksPauses(t, run[1..], id, base, Metered(m, run[0].now, run[0].event, id));
    }
  }

  /** In every reachable state the pause flag of a cached room equals its pause state. */
  ghost predicate FlagsAgree(s: Shard) {
    forall id :: var room := Found(s, id);
      room.Some? ==> room.value.isPaused == On(room.value.states, PAUSE_CODE)
  }

  lemma StepFlagsAgree(s: Shard, now: int, e: Event)
    requires WellFormed(s) && Enabled(s, e) && FlagsAgree(s)
    ensures FlagsAgree(Step(s, now, e))
  {
    forall id ensures var room := Found(Step(s, now, e), id);
                      room.Some? ==> room.value.isPaused == On(room.value.states, PAUSE_CODE)
    {
      FoundAfter(s, now, e, id);
      var room := Found(s, id);
      assert room.Some? ==> room.value.isPaused == On(room.value.states, PAUSE_CODE);
    }
  }

  lemma {:induction false} RunFlagsAgree(s: Shard, run: seq<Timed>)
    requires WellFormed(s) && FlagsAgree(s) && Legal(s, run)
    ensures WellFormed(Run(s, run)) && FlagsAgree(Run(s, run))
    decreases |run|
  {
    if run != [] {
      StepWellFormed(s, run[0].now, run[0].event);
      StepFlagsAgree(s, run[0].now, run[0].event);
      RunFlagsAgree(Step(s, run[0].now, run[0].event), run[1..]);
    }
  }

  /** In every run of a new shard the pause flag of a cached room equals its pause state. */
  lemma FlagsAgreeInEveryRun(capacity: int, run: seq<Timed>)
    requires capacity >= 1 && Legal(Initial(capacity), run)
    ensures FlagsAgree(Run(Initial(capacity), run))
  {
    RunFlagsAgree(Initial(capacity), run);
  }

  /**
   After a calibration at time `now` for so many minutes, until the next one: the deadline is
   now + minutes + completed pauses. A pause that was already on counts from its own beginning.
   */
  lemma CalibrationThenPauses(s: Shard, now: int, e: Event, run: seq<Timed>, id: string)
    requires WellFormed(s) && FlagsAgree(s) && Found(s, id).Some?
    requires e.Join? && e.id == id && e.isModerator && ValidMinutes(e.minutes)
    requires Legal(Step(s, now, e), run) && OnlyPauses(Step(s, now, e), run, id)
    ensures var before := Found(s, id).value;
            var m := Meter(if before.isPaused then Some(before.createdAt) else None, 0);
            var after := Found(Run(Step(s, now, e), run), id);
            after.Some? && ReadsMeter(after.value, now + e.minutes.value * MINUTE, MeteredRun(m, run, id))
  {
    StepWellFormed(s, now, e);
    FoundAfter(s, now, e, id);
    var before := Found(s, id).value;
    assert before.isPaused == On(before.states, PAUSE_CODE);
    var m := Meter(if before.isPaused then Some(before.createdAt) else None, 0);
    DeadlineTracksPauses(Step(s, now, e), run, id, now + e.minutes.value * MINUTE, m);
  }

  /**
   From its first connection on, until the first calibration, a room has thirty minutes plus its
   completed pauses; a room made by CreateRoom has no time but those.
   */
  lemma CreationThenPauses(s: Shard, now: int, e: Event, run: seq<Timed>, id: string)
    requires WellFormed(s) && ((e.Connect? && Found(s, id).None?) || e.Create?) && e.id == id
    requires Legal(Step(s, now, e), run) && OnlyPauses(Step(s, now, e), run, id)
    ensures var base := if e.Connect? then now + 30 * 60 * 1_000_000_000 else ZERO_TIME;
            var after := Found(Run(Step(s, now, e), run), id);
            after.Some? && ReadsMeter(after.value, base, MeteredRun(Meter(None, 0), run, id))
  {
    StepWellFormed(s, now, e);
    FoundAfter(s, now, e, id);
    DeadlineTracksPauses(Step(s, now, e), run, id, if e.Connect? then now + 30 * MINUTE else ZERO_TIME, Meter(None, 0));
  }

  /** Some event of the run ends the pause that is on when it starts. */
  predicate Released(run: seq<Timed>, id: string) {
    exists i :: 0 <= i < |run| && Releases(run[i].event, id)
  }

  predicate Releases(e: Event, id: string) {
    (e.Command? && e.id == id && e.code == PAUSE_CODE) || (e.Resume? && e.id == id)
  }

  /** What has been measured before a run carries over to its end. */
  lemma {:induction false} EarlierPausesCarryOver(m: Meter, earlier: int, run: seq<Timed>, id: string)
    ensures var end := MeteredRun(m, run, id);
            MeteredRun(Meter(m.since, m.total + earlier), run, id) == Meter(end.since, end.total + earlier)
    decreases |run|
  {
    if run != [] {
      EarlierPausesCarryOver(Metered(m, run[0].now, run[0].event, id), earlier, run[1..], id);
    }
  }

  /** A pause that began at `start` measures longer than one from `now` on by exactly the difference. */
  lemma {:induction false} LongerPause(start: int, now: int, run: seq<Timed>, id: string)
    requires Released(run, id)
    ensures var end := MeteredRun(Meter(Some(now), 0), run, id);
            MeteredRun(Meter(Some(start), 0), run, id) == Meter(end.since, end.total + (now - start))
    decreases |run|
  {
    var e := run[0].event;
    if Releases(e, id) {
      EarlierPausesCarryOver(Meter(None, run[0].now - now), now - start, run[1..], id);
    } else {
      var i :| 0 <= i < |run| && Releases(run[i].event, id);
      assert Releases(run[1..][i - 1].event, id);
      LongerPause(start, now, run[1..], id);
    }
  }

  /**
   A room calibrated while paused is compensated exactly, that is for the pauses from the calibration
   on, if and only if its pause began at that very moment; otherwise the earlier part counts as well.
   So it is at every moment after the pause has ended and before the next calibration.
   */
  lemma PausedCalibrationOvercounts(s: Shard, now: int, e: Event, run: seq<Timed>, id: string)
    requires WellFormed(s) && FlagsAgree(s) && Found(s, id).Some? && Found(s, id).value.isPaused
    requires e.Join? && e.id == id && e.isModerator && ValidMinutes(e.minutes)
    requires Legal(Step(s, now, e), run) && OnlyPauses(Step(s, now, e), run, id) && Released(run, id)
    ensures var end := Found(Run(Step(s, now, e), run), id);
            var exact := now + e.minutes.value * MINUTE + MeteredRun(Meter(Some(now), 0), run, id).total;
            && end.Some?
            && end.value.updatedAt == exact + (now - Found(s, id).value.createdAt)
            && (end.value.updatedAt == exact <==> Found(s, id).value.createdAt == now)
  {
    CalibrationThenPauses(s, now, e, run, id);
    LongerPause(Found(s, id).value.createdAt, now, run, id);
  }

  // ---------- A paused room is left alone for 299 ticks ----------

  /** The room's only entry is the one with i + 1 ticks left, and the janitor does not hold its id. */
  ghost predicate SoleEntry(s: Shard, id: string, i: nat) {
    && i < Schedule.SLOTS
    && id !in s.pending
    && forall j | 0 <= j < Schedule.SLOTS :: id in s.wheel.due[j] <==> j == i
  }

  /** No event of the run touches the wheel entries of the room. */
  predicate LeftAlone(s: Shard, run: seq<Timed>, id: string)
    requires Legal(s, run)
    decreases |run|
  {
    run == [] ||
    (&& (!run[0].event.Examine? ==>
           forall op | op in WheelOps(s, run[0].now, run[0].event) :: !Schedule.Mentions(op, id))
     && LeftAlone(Step(s, run[0].now, run[0].event), run[1..], id))
  }

  /** Pausing a room whose entry is unique leaves it with one entry, 300 ticks away. */
  lemma PauseSchedules(s: Shard, now: int, id: string, stale: Room)
    requires Found(s, id).Some? && !On(Found(s, id).value.states, PAUSE_CODE)
    requires Schedule.Entries(s.wheel, id) <= 1 && id !in s.pending
    ensures SoleEntry(Step(s, now, Command(id, PAUSE_CODE, stale)), id, 299)
  {
    var e := Command(id, PAUSE_CODE, stale);
    RunShort(s.wheel, WheelOps(s, now, e));
    Schedule.UniqueMove(s.wheel, id, 300);
  }

  lemma StepLeavesAlone(s: Shard, now: int, e: Event, id: string, i: nat)
    requires Enabled(s, e) && SoleEntry(s, id, i)
    requires !e.Examine? ==> forall op | op in WheelOps(s, now, e) :: !Schedule.Mentions(op, id)
    requires e.Rotate? ==> i > 0
    ensures SoleEntry(Step(s, now, e), id, if e.Rotate? then i - 1 else i)
  {
    var ops := WheelOps(s, now, e);
    OpsShape(s, now, e);
    RunShort(s.wheel, ops);
    if e.Rotate? {
      RotationMoves(s, now, e.order, e.started, id);
      var t := Step(s, now, e);
      forall j | 0 <= j < Schedule.SLOTS ensures id in t.wheel.due[j] <==> j == i - 1 {
        if j < Schedule.SLOTS - 1 { assert id in t.wheel.due[j + 1 - 1] <==> id in s.wheel.due[j + 1]; }
      }
    } else if ops != [] {
      assert ops[0] in ops;
      if e.Examine? { assert ops[0].key == s.pending[0] != id; }
      Schedule.OthersUntouched(s.wheel, ops[0], id);
      if |ops| == 2 {
        assert ops[1] in ops;
        Schedule.OthersUntouched(Schedule.Step(s.wheel, ops[0]), ops[1], id);
      }
    }
  }

  /** Until its one entry runs out, the janitor neither gets nor examines the room. */
  lemma {:induction false} SoleEntryNotReported(s: Shard, run: seq<Timed>, id: string, i: nat)
    requires Legal(s, run) && LeftAlone(s, run, id) && SoleEntry(s, id, i) && Rotations(run) <= i
    ensures SoleEntry(Run(s, run), id, i - Rotations(run))
    ensures !TakesUp(s, run, id)
    decreases |run|
  {
    if run != [] {
      var e := run[0].event;
      StepLeavesAlone(s, run[0].now, e, id, i);
      SoleEntryNotReported(Step(s, run[0].now, e), run[1..], id, if e.Rotate? then i - 1 else i);
    }
  }

  /**
   A room whose wheel entry is unique when it is paused, and which is then left alone, is not
   reported or examined during the next 299 ticks.
   */
  lemma PausedRoomNotReported(s: Shard, now: int, id: string, stale: Room, run: seq<Timed>)
    requires Found(s, id).Some? && !On(Found(s, id).value.states, PAUSE_CODE)
    requires Schedule.Entries(s.wheel, id) <= 1 && id !in s.pending
    requires var t := Step(s, now, Command(id, PAUSE_CODE, stale)); Legal(t, run) && LeftAlone(t, run, id)
    requires Rotations(run) <= 299
    ensures var t := Step(s, now, Command(id, PAUSE_CODE, stale));
            !TakesUp(t, run, id) && id !in Run(t, run).pending
  {
    PauseSchedules(s, now, id, stale);
    SoleEntryNotReported(Step(s, now, Command(id, PAUSE_CODE, stale)), run, id, 299);
  }

  // ---------- And is closed by the 300th, if its old deadline has come ----------

  /** The room, as long as it is cached, is paused and has this deadline. */
  predicate PausedUntil(s: Shard, id: string, deadline: int) {
    var room := Found(s, id);
    room.Some? ==> room.value.isPaused && On(room.value.states, PAUSE_CODE) && room.value.updatedAt == deadline
  }

  lemma {:induction false} LeftAloneStaysPaused(s: Shard, run: seq<Timed>, id: string, deadline: int)
    requires WellFormed(s) && Legal(s, run) && LeftAlone(s, run, id) && PausedUntil(s, id, deadline)
    ensures WellFormed(Run(s, run)) && PausedUntil(Run(s, run), id, deadline)
    decreases |run|
  {
    if run != [] {
      StepWellFormed(s, run[0].now, run[0].event);
      StepStaysPaused(s, run[0].now, run[0].event, id, deadline);
      LeftAloneStaysPaused(Step(s, run[0].now, run[0].event), run[1..], id, deadline);
    }
  }

  lemma StepStaysPaused(s: Shard, now: int, e: Event, id: string, deadline: int)
    requires WellFormed(s) && Enabled(s, e) && PausedUntil(s, id, deadline)
    requires !e.Examine? ==> forall op | op in WheelOps(s, now, e) :: !Schedule.Mentions(op, id)
    ensures PausedUntil(Step(s, now, e), id, deadline)
  {
    FoundAfter(s, now, e, id);
    var ops := WheelOps(s, now, e);
    if !e.Examine? && ops != [] {
      assert ops[0] in ops;
    }
  }

  /**
   The janitor does not look at the pause flag. A room that is paused at `now` with a unique entry and
   then left alone is still paused when the 300th tick comes, and that tick closes it if and only if it
   is empty or the deadline that it had when it was paused has come.
   */
  lemma PausedRoomAt300thTick(s: Shard, now: int, id: string, stale: Room, run: seq<Timed>, order: seq<string>, at: int)
    requires WellFormed(s) && Found(s, id).Some? && !On(Found(s, id).value.states, PAUSE_CODE)
    requires Schedule.Entries(s.wheel, id) <= 1 && id !in s.pending
    requires var t := Step(s, now, Command(id, PAUSE_CODE, stale)); Legal(t, run) && LeftAlone(t, run, id)
    requires Rotations(run) == 299
    requires var u := Run(Step(s, now, Command(id, PAUSE_CODE, stale)), run);
             Found(u, id).Some? && Enabled(u, Rotate(order, at))
    ensures var u := Run(Step(s, now, Command(id, PAUSE_CODE, stale)), run);
            var room := Found(u, id).value;
            && room.isPaused && room.updatedAt == Found(s, id).value.updatedAt
            && (Found(Cascade(u, order, at), id).None? <==> room.peers == {} || at >= room.updatedAt)
  {
    var e := Command(id, PAUSE_CODE, stale);
    var t := Step(s, now, e);
    var u := Run(t, run);
    StepWellFormed(s, now, e);
    FoundAfter(s, now, e, id);
    LeftAloneStaysPaused(t, run, id, Found(s, id).value.updatedAt);
    PauseSchedules(s, now, id, stale);
    SoleEntryNotReported(t, run, id, 299);
    assert id in u.wheel.due[0];
    CascadeRoom(u, order, at, id);
  }
}
