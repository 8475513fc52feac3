/**
 No immortal room: in every interleaving of sessions, room creation, extension, forced closing and
 the janitor, a cached room is on the wheel or in the janitor's hands, and so is re-examined.
 */
module RoomWatch {
  import opened Wrappers
  import opened RoomMachine
  import Schedule

  // ---------- Wheel operations of one event ----------

  predicate OnWheel(t: Schedule.Timetable, id: string) {
    !Schedule.Absent(t, id)
  }

  lemma RunShort(t: Schedule.Timetable, ops: seq<Schedule.Op>)
    requires |ops| <= 2
    ensures Schedule.Run(t, ops) ==
            if ops == [] then t
            else if |ops| == 1 then Schedule.Step(t, ops[0])
            else Schedule.Step(Schedule.Step(t, ops[0]), ops[1])
  {
    if |ops| == 1 {
      assert ops[1..] == [];
    } else if |ops| == 2 {
      var u := Schedule.Step(t, ops[0]);
      assert Schedule.Run(t, ops) == Schedule.Run(u, ops[1..]);
      assert Schedule.Run(u, ops[1..]) == Schedule.Run(Schedule.Step(u, ops[1]), ops[1..][1..]);
    }
  }

  /** The shapes that the wheel operations of an event can take: each concerns one id, or is a tick. */
  lemma OpsShape(s: Shard, now: int, e: Event)
    requires Enabled(s, e)
    ensures var ops := WheelOps(s, now, e);
            || ops == []
            || (|ops| == 1 && (ops[0].Tick? <==> e.Rotate?) && (ops[0].Remove? <==> e.ForceClose?))
            || (|ops| == 2 && ops[0].Remove? && ops[1].Add? && ops[0].key == ops[1].key && !e.Rotate? && !e.ForceClose?)
  {
  }

  lemma AddPuts(t: Schedule.Timetable, key: string, minutes: int)
    ensures key in Schedule.AddKey(t, key, minutes).due[Schedule.Ahead(minutes)]
    ensures OnWheel(Schedule.AddKey(t, key, minutes), key)
  {
  }

  /** Only a forced closing or a tick can take an id off the wheel altogether. */
  lemma StaysOnWheel(s: Shard, now: int, e: Event, id: string)
    requires Enabled(s, e) && OnWheel(s.wheel, id) && !e.Rotate? && !(e.ForceClose? && e.id == id)
    ensures OnWheel(Step(s, now, e).wheel, id)
  {
    var ops := WheelOps(s, now, e);
    OpsShape(s, now, e);
    RunShort(s.wheel, ops);
    var i :| 0 <= i < Schedule.SLOTS && id in s.wheel.due[i];
    if ops != [] {
      var last := ops[|ops| - 1];
      if last.key != id {
        Schedule.OthersUntouched(s.wheel, ops[0], id);
        if |ops| == 2 { Schedule.OthersUntouched(Schedule.Step(s.wheel, ops[0]), ops[1], id); }
        assert id in Step(s, now, e).wheel.due[i];
      } else if last.Add? {
        AddPuts(if |ops| == 2 then Schedule.Step(s.wheel, ops[0]) else s.wheel, id, last.minutes);
      } else if last.Move? {
        AddPuts(Schedule.RemoveKey(s.wheel, id), id, last.minutes);
      }
    }
  }

  // ---------- Every cached room is watched ----------

  ghost predicate Watched(s: Shard, id: string) {
    Found(s, id).Some? ==> OnWheel(s.wheel, id) || id in s.pending || s.closing == Some(id)
  }

  lemma StepWatches(s: Shard, now: int, e: Event, id: string)
    requires WellFormed(s) && Enabled(s, e) && Watched(s, id)
    ensures Watched(Step(s, now, e), id)
  {
    FoundAfter(s, now, e, id);
    var t := Step(s, now, e);
    RunShort(s.wheel, WheelOps(s, now, e));
    if t.cache == [] || Found(t, id).None? {
    } else if Found(s, id).None? {
      AddPuts(s.wheel, id, DEFAULT_MINUTES);
    } else if s.closing == Some(id) {
    } else if id in s.pending {
      if e.Examine? && s.pending[0] == id { AddPuts(s.wheel, id, 1); }
    } else if e.Rotate? {
      RotationMoves(s, now, e.order, e.started, id);
    } else {
      StaysOnWheel(s, now, e, id);
    }
  }

  /** A rotation hands the ids of the front slot to the janitor and moves every other entry up. */
  lemma RotationMoves(s: Shard, now: int, order: seq<string>, started: int, id: string)
    requires Enabled(s, Rotate(order, started))
    ensures var t := Step(s, now, Rotate(order, started));
            && (id in t.pending <==> id in s.wheel.due[0])
            && (forall i | 0 < i < Schedule.SLOTS :: id in t.wheel.due[i - 1] <==> id in s.wheel.due[i])
            && id !in t.wheel.due[Schedule.SLOTS - 1]
            && (OnWheel(s.wheel, id) ==> id in t.pending || OnWheel(t.wheel, id))
  {
    var t := Step(s, now, Rotate(order, started));
    RunShort(s.wheel, [Schedule.Tick]);
    assert id in order <==> id in multiset(order);
    assert forall i | 0 < i < Schedule.SLOTS :: t.wheel.due[i - 1] == s.wheel.due[i];
    if OnWheel(s.wheel, id) && id !in t.pending {
      var i :| 0 <= i < Schedule.SLOTS && id in s.wheel.due[i];
      assert id in t.wheel.due[i - 1];
    }
  }

  lemma {:induction false} RunWatchesFrom(s: Shard, run: seq<Timed>, id: string)
    requires WellFormed(s) && Legal(s, run) && Watched(s, id)
    ensures WellFormed(Run(s, run)) && Watched(Run(s, run), id)
    decreases |run|
  {
    if run != [] {
      StepWellFormed(s, run[0].now, run[0].event);
      StepWatches(s, run[0].now, run[0].event, id);
      RunWatchesFrom(Step(s, run[0].now, run[0].event), run[1..], id);
    }
  }

  /** Every cached room is on the wheel, or waiting for the janitor, or being closed by it. */
  lemma NoImmortalRoom(capacity: int, run: seq<Timed>)
    requires capacity >= 1 && Legal(Initial(capacity), run)
    ensures forall id :: Watched(Run(Initial(capacity), run), id)
  {
    forall id ensures Watched(Run(Initial(capacity), run), id) {
      RunWatchesFrom(Initial(capacity), run, id);
    }
  }

  // ---------- And so it is re-examined within 300 ticks ----------

  function Rotations(run: seq<Timed>): nat {
    if run == [] then 0 else (if run[0].event.Rotate? then 1 else 0) + Rotations(run[1..])
  }

  /** Somewhere in the run the janitor examines the room. */
  predicate TakesUp(s: Shard, run: seq<Timed>, id: string)
    requires Legal(s, run)
    decreases |run|
  {
    run != [] &&
    (|| (run[0].event.Examine? && s.pending[0] == id)
     || TakesUp(Step(s, run[0].now, run[0].event), run[1..], id))
  }

  /** Nothing in the run takes an entry of the room off the wheel: no recalibration, pause or the like. */
  predicate NeverRescheduled(s: Shard, run: seq<Timed>, id: string)
    requires Legal(s, run)
    decreases |run|
  {
    run == [] ||
    (&& (forall op | op in WheelOps(s, run[0].now, run[0].event) :: !Schedule.Reschedules(op, id))
     && NeverRescheduled(Step(s, run[0].now, run[0].event), run[1..], id))
  }

  lemma {:induction false} PendingIsTakenUp(s: Shard, run: seq<Timed>, id: string)
    requires Legal(s, run) && id in s.pending && Rotations(run) >= 1
    ensures TakesUp(s, run, id)
    decreases |run|
  {
    var e := run[0].event;
    if !(e.Examine? && s.pending[0] == id) {
      PendingIsTakenUp(Step(s, run[0].now, e), run[1..], id);
    }
  }

  lemma EntrySurvives(s: Shard, now: int, e: Event, id: string, i: nat)
    requires Enabled(s, e) && !e.Rotate? && i < Schedule.SLOTS && id in s.wheel.due[i]
    requires forall op | op in WheelOps(s, now, e) :: !Schedule.Reschedules(op, id)
    ensures id in Step(s, now, e).wheel.due[i]
  {
    var ops := WheelOps(s, now, e);
    OpsShape(s, now, e);
    RunShort(s.wheel, ops);
    if ops != [] {
      assert ops[0] in ops;
      Schedule.EntryStays(s.wheel, ops[0], id, i);
      if |ops| == 2 {
        assert ops[1] in ops;
        Schedule.EntryStays(Schedule.Step(s.wheel, ops[0]), ops[1], id, i);
      }
    }
  }

  lemma {:induction false} ScheduledIsTakenUp(s: Shard, run: seq<Timed>, id: string, i: nat)
    requires Legal(s, run) && NeverRescheduled(s, run, id)
    requires i < Schedule.SLOTS && id in s.wheel.due[i] && Rotations(run) >= i + 2
    ensures TakesUp(s, run, id)
    decreases |run|
  {
    var now, e := run[0].now, run[0].event;
    var t := Step(s, now, e);
    if !e.Rotate? {
      EntrySurvives(s, now, e, id, i);
      ScheduledIsTakenUp(t, run[1..], id, i);
    } else {
      RotationMoves(s, now, e.order, e.started, id);
      if i == 0 {
        PendingIsTakenUp(t, run[1..], id);
      } else {
        ScheduledIsTakenUp(t, run[1..], id, i - 1);
      }
    }
  }

  /**
   A cached room that is not being closed already is examined by the time of the 301st tick from now,
   that is in the round of one of the next 300 ticks, unless it is rescheduled before.
   */
  lemma ExaminedWithin300(s: Shard, run: seq<Timed>, id: string)
    requires Watched(s, id) && Found(s, id).Some? && s.closing != Some(id)
    requires Legal(s, run) && NeverRescheduled(s, run, id) && Rotations(run) >= 301
    ensures TakesUp(s, run, id)
  {
    if id in s.pending {
      PendingIsTakenUp(s, run, id);
    } else {
      var i :| 0 <= i < Schedule.SLOTS && id in s.wheel.due[i];
      ScheduledIsTakenUp(s, run, id, i);
    }
  }
}
