/** Runs of a new shard in which pauses go wrong. */
module RoomPauseCases {
  import opened Wrappers
  import opened RoomMachine
  import opened RoomWatch
  import opened RoomDeadline
  import opened RoomPause
  import opened RoomCases
  import opened RoomExamined
  import Schedule

  // ---------- A calibration during a pause ----------

  /** Paused at 0, calibrated for ten minutes at minute 1, resumed at minute 2. */
  function CalibratedInPause(id: string, peer: string, stale: Room): seq<Timed> {
    [At(0, Connect(id, peer, true)),
     At(0, Command(id, PAUSE_CODE, stale)),
     At(MINUTE, Join(id, peer, true, None, Some(10))),
     At(2 * MINUTE, Command(id, PAUSE_CODE, stale))]
  }

  /**
   The pause lasts for one minute after the calibration, so the deadline should be at minute 12. The
   minute before the calibration counts as well, and the deadline is at minute 13.
   */
  lemma PausedCalibrationHappens(capacity: int, id: string, peer: string, stale: Room)
    requires capacity >= 1
    ensures var run := CalibratedInPause(id, peer, stale);
            && Legal(Initial(capacity), run)
            && var room := Found(Run(Initial(capacity), run), id);
            && room.Some? && !room.value.isPaused && room.value.updatedAt == 13 * MINUTE
            && MeteredRun(Meter(Some(MINUTE), 0), run[3..], id).total == MINUTE
  {
    var run := CalibratedInPause(id, peer, stale);
    var s0 := Initial(capacity);
    var s1 := Opened(capacity, 0, id, peer);
    var s2 := Next(s1, run[1], id);
    var made := Then(s0, [], s0, 0, run[0].event);
    made := Then(s0, made, s1, 0, run[1].event);
    FlagsAgreeInEveryRun(capacity, made);
    var s3 := CalibrationCountsTwice(s2, id, peer, stale);
    assert run[3..] == [run[3]];
    hide Step;
    made := Then(s0, made, s2, MINUTE, run[2].event);
    made := Then(s0, made, s3, 2 * MINUTE, run[3].event);
    assert made == run;
  }

  /** From the pause at 0 on. */
  lemma CalibrationCountsTwice(s: Shard, id: string, peer: string, stale: Room) returns (t: Shard)
    requires WellFormed(s) && FlagsAgree(s) && Found(s, id).Some?
    requires Found(s, id).value.isPaused && Found(s, id).value.createdAt == 0
    ensures t == Step(s, MINUTE, Join(id, peer, true, None, Some(10)))
    ensures var release := At(2 * MINUTE, Command(id, PAUSE_CODE, stale));
            var room := Found(Step(t, release.now, release.event), id);
            && room.Some? && !room.value.isPaused && room.value.updatedAt == 13 * MINUTE
            && MeteredRun(Meter(Some(MINUTE), 0), [release], id).total == MINUTE
  {
    var join := Join(id, peer, true, None, Some(10));
    var release := At(2 * MINUTE, Command(id, PAUSE_CODE, stale));
    var run := [release];
    t := Next(s, At(MINUTE, join), id);
    var u := Next(t, release, id);
    assert run[1..] == [];
    assert Releases(run[0].event, id);
    assert Run(t, run) == u;
    PausedCalibrationOvercounts(s, MINUTE, join, run, id);
  }

  lemma Next(s: Shard, b: Timed, id: string) returns (t: Shard)
    requires WellFormed(s) && Enabled(s, b.event)
    ensures t == Step(s, b.now, b.event) && WellFormed(t) && Found(t, id) == RoomAfter(s, b.now, b.event, id)
  {
    t := Step(s, b.now, b.event);
    StepWellFormed(s, b.now, b.event);
    FoundAfter(s, b.now, b.event, id);
  }

  // ---------- A pause of three hundred minutes ----------

  /** So many ticks, a minute apart, that report nothing. */
  lemma {:induction false} IdleTicks(s: Shard, now: int, id: string, i: nat, n: nat) returns (run: seq<Timed>, t: Shard)
    requires Quiet(s, id, i) && i < Schedule.SLOTS && n <= i
    ensures Legal(s, run) && t == Run(s, run) && LeftAlone(s, run, id) && Rotations(run) == n
    ensures Quiet(t, id, i - n) && Found(t, id) == Found(s, id)
    decreases n
  {
    run, t := [], s;
    if n > 0 {
      var b := At(now + MINUTE, Rotate([], now + MINUTE));
      Schedule.SoleAdvanced(s.wheel, id, i);
      RunShort(s.wheel, [Schedule.Tick]);
      var u := Next(s, b, id);
      var rest;
      rest, t := IdleTicks(u, now + MINUTE, id, i - 1, n - 1);
      run := [b] + rest;
      assert run[1..] == rest;
    }
  }

  /** A moderator opens a room, calibrates it for ten minutes and pauses it, all at time 0. */
  lemma PausedAtOnce(capacity: int, id: string, peer: string, stale: Room) returns (run: seq<Timed>, s: Shard, t: Shard)
    requires capacity >= 1
    ensures Legal(Initial(capacity), run) && t == Run(Initial(capacity), run) && Rotations(run) == 0
    ensures Quiet(s, id, 9) && t == Step(s, 0, Command(id, PAUSE_CODE, stale)) && Quiet(t, id, 299)
    ensures Found(s, id).Some? && !On(Found(s, id).value.states, PAUSE_CODE)
    ensures Found(s, id).value.updatedAt == 10 * MINUTE
    ensures Found(t, id).Some? && Found(t, id).value.peers == {peer}
  {
    var s0 := Initial(capacity);
    var s1 := Opened(capacity, 0, id, peer);
    s := Calibrated(s1, 0, id, peer, 10, 29);
    var e := Command(id, PAUSE_CODE, stale);
    t := Next(s, At(0, e), id);
    RunShort(s.wheel, WheelOps(s, 0, e));
    Schedule.SoleMoved(s.wheel, id, 9, 300);
    hide Step, RoomAfter, WheelOps, Quiet;
    run := Then(s0, [], s0, 0, Connect(id, peer, true));
    run := Then(s0, run, s1, 0, Join(id, peer, true, None, Some(10)));
    run := Then(s0, run, s, 0, e);
    ThreeWithoutTick(At(0, Connect(id, peer, true)), At(0, Join(id, peer, true, None, Some(10))), At(0, e));
  }

  lemma ThreeWithoutTick(a: Timed, b: Timed, c: Timed)
    requires !a.event.Rotate? && !b.event.Rotate? && !c.event.Rotate?
    ensures Rotations([] + [a] + [b] + [c]) == 0
  {
    var run := [] + [a] + [b] + [c];
    assert run[1..] == [b, c] && [b, c][1..] == [c] && [c][1..] == [];
    assert Rotations([c]) == Rotations([]);
    assert Rotations([b, c]) == Rotations([c]);
    assert Rotations(run) == Rotations([b, c]);
  }

  /**
   A room is opened and calibrated for ten minutes, joined by its moderator, and paused at once. It is
   still paused and its moderator still there when the 300th tick comes, which closes it.
   */
  lemma PausedRoomIsClosed(capacity: int, id: string, peer: string, stale: Room) returns (run: seq<Timed>)
    requires capacity >= 1
    ensures Legal(Initial(capacity), run) && Rotations(run) == 299
    ensures var t := Run(Initial(capacity), run);
            && Found(t, id).Some? && Found(t, id).value.isPaused && Found(t, id).value.peers == {peer}
            && Enabled(t, Rotate([id], 300 * MINUTE))
            && Found(Cascade(t, [id], 300 * MINUTE), id).None?
  {
    var before, s, paused := PausedAtOnce(capacity, id, peer, stale);
    var idle, t := IdleTicks(paused, 0, id, 299, 299);
    IdleRoomIsClosed(s, id, stale, idle);
    hide Step, Cascade, LeftAlone, Quiet, Enabled;
    RunsJoin(Initial(capacity), before, idle, id);
    run := before + idle;
  }

  lemma IdleRoomIsClosed(s: Shard, id: string, stale: Room, idle: seq<Timed>)
    requires Quiet(s, id, 9) && Found(s, id).Some? && !On(Found(s, id).value.states, PAUSE_CODE)
    requires Found(s, id).value.updatedAt == 10 * MINUTE
    requires var t := Step(s, 0, Command(id, PAUSE_CODE, stale));
             && Legal(t, idle) && LeftAlone(t, idle, id) && Rotations(idle) == 299
             && Quiet(Run(t, idle), id, 0) && Found(Run(t, idle), id).Some?
    ensures var u := Run(Step(s, 0, Command(id, PAUSE_CODE, stale)), idle);
            && Found(u, id).value.isPaused && Enabled(u, Rotate([id], 300 * MINUTE))
            && Found(Cascade(u, [id], 300 * MINUTE), id).None?
  {
    Schedule.SoleIsSingle(s.wheel, id, 9);
    Schedule.SoleFront(Run(Step(s, 0, Command(id, PAUSE_CODE, stale)), idle).wheel, id);
    hide Step, Cascade, LeftAlone;
    PausedRoomAt300thTick(s, 0, id, stale, idle, [id], 300 * MINUTE);
  }
}
