/**
 Rooms close on time. Ticks come one minute apart and the janitor's round is handled in one go; the
 sessions act at any time in between.
 */
module RoomDeadline {
  import opened Wrappers
  import opened RoomMachine
  import opened RoomWatch
  import Schedule

  // ---------- The janitor's round in one go ----------

  /** The janitor works its list off: examine each id, and finish each closing at once. */
  function Drain(s: Shard, now: int): (u: Shard)
    requires s.closing.None?
    ensures u.closing.None? && u.pending == []
    decreases |s.pending|
  {
    if s.pending == [] then s
    else
      var t := Step(s, now, Examine);
      Drain(if t.closing.Some? then Step(t, now, FinishClose) else t, now)
  }

  function Cascade(s: Shard, order: seq<string>, now: int): (u: Shard)
    requires Enabled(s, Rotate(order, now))
    ensures u.closing.None? && u.pending == []
  {
    Drain(Step(s, now, Rotate(order, now)), now)
  }

  /** What working off one id does to a room: closed when it is its turn and it has expired. */
  lemma DrainOne(s: Shard, now: int, id: string)
    requires WellFormed(s) && s.closing.None? && s.pending != []
    ensures var t := Step(s, now, Examine);
            var u := if t.closing.Some? then Step(t, now, FinishClose) else t;
            var room := Found(s, id);
            var mine := s.pending[0] == id && room.Some?;
            && WellFormed(u) && u.closing.None? && u.pending == s.pending[1..] && u.janitorNow == s.janitorNow
            && Found(u, id) == (if mine && Expired(room.value, s.janitorNow) then None else room)
            && (forall i | 0 <= i < Schedule.SLOTS ::
                  id in u.wheel.due[i] <==>
                  id in s.wheel.due[i] || (i == 0 && mine && !Expired(room.value, s.janitorNow)))
  {
    var t := Step(s, now, Examine);
    StepWellFormed(s, now, Examine);
    FoundAfter(s, now, Examine, id);
    FoundAfter(s, now, Examine, s.pending[0]);
    RunShort(s.wheel, WheelOps(s, now, Examine));
    if t.closing.Some? {
      StepWellFormed(t, now, FinishClose);
      FoundAfter(t, now, FinishClose, id);
      RunShort(t.wheel, []);
    }
  }

  /** The whole round, seen from one room. */
  lemma {:induction false} DrainRoom(s: Shard, now: int, id: string)
    requires WellFormed(s) && s.closing.None?
    ensures var u := Drain(s, now);
            var room := Found(s, id);
            var mine := id in s.pending && room.Some?;
            && WellFormed(u)
            && Found(u, id) == (if mine && Expired(room.value, s.janitorNow) then None else room)
            && (forall i | 0 <= i < Schedule.SLOTS ::
                  id in u.wheel.due[i] <==>
                  id in s.wheel.due[i] || (i == 0 && mine && !Expired(room.value, s.janitorNow)))
    decreases |s.pending|
  {
    if s.pending != [] {
      DrainOne(s, now, id);
      var t := Step(s, now, Examine);
      DrainRoom(if t.closing.Some? then Step(t, now, FinishClose) else t, now, id);
    }
  }

  /** A tick, seen from one room: reported ids are examined, and a room that stays is put one tick ahead. */
  lemma CascadeRoom(s: Shard, order: seq<string>, now: int, id: string)
    requires WellFormed(s) && Enabled(s, Rotate(order, now))
    ensures var u := Cascade(s, order, now);
            var room := Found(s, id);
            var mine := id in s.wheel.due[0] && room.Some?;
            && WellFormed(u)
            && Found(u, id) == (if mine && Expired(room.value, now) then None else room)
            && (mine && !Expired(room.value, now) ==> id in u.wheel.due[0])
            && (forall i | 0 < i < Schedule.SLOTS :: id in s.wheel.due[i] ==> id in u.wheel.due[i - 1])
  {
    var e := Rotate(order, now);
    StepWellFormed(s, now, e);
    FoundAfter(s, now, e, id);
    RotationMoves(s, now, order, now, id);
    DrainRoom(Step(s, now, e), now, id);
  }

  // ---------- Deadlines ----------

  /**
   A running room has an entry that the janitor examines at the next tick, or at the latest at the
   first tick at or after the room's deadline. `next` is the time of the next tick.
   */
  ghost predicate OnTime(s: Shard, id: string, next: int) {
    var room := Found(s, id);
    room.Some? && !room.value.isPaused ==>
      exists i :: 0 <= i < Schedule.SLOTS && id in s.wheel.due[i] && ExaminedInTime(i, next, room.value.updatedAt)
  }

  predicate ExaminedInTime(i: nat, next: int, deadline: int) {
    i == 0 || next + i * MINUTE < deadline + MINUTE
  }

  /** What a session may do between two ticks. */
  predicate ByASession(e: Event) {
    !e.Rotate? && !e.Examine? && !e.FinishClose?
  }

  /** CreateRoom leaves the deadline unset, and ExtendRoomDuration moves the slot without the deadline. */
  predicate SetsNoDeadline(e: Event, id: string) {
    (e.Create? || e.Extend?) && e.id == id
  }

  /** Adding a room so many minutes ahead of `now` is in time for a deadline that is as far away. */
  lemma AddedInTime(minutes: nat, now: int, next: int, deadline: int)
    requires minutes >= 1 && next - MINUTE <= now <= next
    requires minutes == 1 || now + minutes * MINUTE <= deadline
    ensures ExaminedInTime(Schedule.Ahead(minutes), next, deadline)
  {
  }

  /** The remaining minutes are the whole minutes to the deadline, but at least one. */
  lemma RemainingInTime(deadline: int, now: int)
    ensures var m := RemainingMinutes(deadline, now);
            && (m == 1 || now + m * MINUTE <= deadline)
            && deadline < now + (m + 1) * MINUTE
  {
  }

  lemma SessionKeepsOnTime(s: Shard, now: int, e: Event, id: string, next: int)
    requires WellFormed(s) && ByASession(e) && !SetsNoDeadline(e, id)
    requires next - MINUTE <= now <= next
    requires OnTime(s, id, next)
    ensures OnTime(Step(s, now, e), id, next)
  {
    FoundAfter(s, now, e, id);
    var t := Step(s, now, e);
    var room := Found(t, id);
    var ops := WheelOps(s, now, e);
    RunShort(s.wheel, ops);
    OpsShape(s, now, e);
    if room.Some? && !room.value.isPaused {
      if ops != [] && ops[|ops| - 1].key == id {
        LastAddInTime(s, now, e, id, next);
      } else {
        var i :| 0 <= i < Schedule.SLOTS && id in s.wheel.due[i]
                 && ExaminedInTime(i, next, Found(s, id).value.updatedAt);
        if ops != [] {
          Schedule.OthersUntouched(s.wheel, ops[0], id);
          if |ops| == 2 { Schedule.OthersUntouched(Schedule.Step(s.wheel, ops[0]), ops[1], id); }
        }
        assert id in t.wheel.due[i];
      }
    }
  }

  /** Whenever a session puts a running room on the wheel, it is in time for the room's deadline. */
  lemma LastAddInTime(s: Shard, now: int, e: Event, id: string, next: int)
    requires WellFormed(s) && ByASession(e) && !SetsNoDeadline(e, id)
    requires next - MINUTE <= now <= next
    requires WheelOps(s, now, e) != [] && WheelOps(s, now, e)[|WheelOps(s, now, e)| - 1].key == id
    requires var room := Found(Step(s, now, e), id); room.Some? && !room.value.isPaused
    ensures OnTime(Step(s, now, e), id, next)
  {
    FoundAfter(s, now, e, id);
    var ops := WheelOps(s, now, e);
    var room := Found(Step(s, now, e), id).value;
    RunShort(s.wheel, ops);
    var op := ops[|ops| - 1];
    assert op.Add? && op.key == id && op.minutes >= 1;
    AddPuts(if |ops| == 2 then Schedule.Step(s.wheel, ops[0]) else s.wheel, id, op.minutes);
    RemainingInTime(room.updatedAt, now);
    assert op.minutes == 1 || now + op.minutes * MINUTE <= room.updatedAt;
    AddedInTime(op.minutes, now, next, room.updatedAt);
  }

  lemma TickKeepsOnTime(s: Shard, order: seq<string>, id: string, next: int)
    requires WellFormed(s) && Enabled(s, Rotate(order, next)) && OnTime(s, id, next)
    ensures OnTime(Cascade(s, order, next), id, next + MINUTE)
  {
    CascadeRoom(s, order, next, id);
    var u := Cascade(s, order, next);
    if Found(u, id).Some? && !Found(u, id).value.isPaused {
      var i :| 0 <= i < Schedule.SLOTS && id in s.wheel.due[i]
               && ExaminedInTime(i, next, Found(s, id).value.updatedAt);
      if i == 0 {
        assert id in u.wheel.due[0];
      } else {
        assert id in u.wheel.due[i - 1];
        assert ExaminedInTime(i - 1, next + MINUTE, Found(u, id).value.updatedAt);
      }
    }
  }

  // ---------- Runs with a clock ----------

  datatype Beat = Session(now: int, event: Event) | Tick(order: seq<string>)

  /** Sessions act within the minute before the next tick; ticks come one minute apart. */
  predicate InTime(s: Shard, next: int, beats: seq<Beat>)
    requires s.closing.None? && s.pending == []
    decreases |beats|
  {
    beats == [] ||
    match beats[0]
    case Session(now, e) =>
      && ByASession(e) && next - MINUTE <= now <= next
      && InTime(Step(s, now, e), next, beats[1..])
    case Tick(order) =>
      && Enabled(s, Rotate(order, next))
      && InTime(Cascade(s, order, next), next + MINUTE, beats[1..])
  }

  /** The shard at the end of a run, and the time of the tick that comes next. */
  function Play(s: Shard, next: int, beats: seq<Beat>): (end: (Shard, int))
    requires s.closing.None? && s.pending == [] && InTime(s, next, beats)
    ensures end.0.closing.None? && end.0.pending == []
    decreases |beats|
  {
    if beats == [] then (s, next)
    else match beats[0]
      case Session(now, e) => Play(Step(s, now, e), next, beats[1..])
      case Tick(order) => Play(Cascade(s, order, next), next + MINUTE, beats[1..])
  }

  lemma {:induction false} PlayKeepsOnTime(s: Shard, next: int, beats: seq<Beat>, id: string)
    requires WellFormed(s) && s.closing.None? && s.pending == [] && InTime(s, next, beats)
    requires OnTime(s, id, next)
    requires forall b | b in beats && b.Session? :: !SetsNoDeadline(b.event, id)
    ensures var (t, after) := Play(s, next, beats);
            WellFormed(t) && OnTime(t, id, after)
    decreases |beats|
  {
    if beats != [] {
      assert beats[0] in beats;
      match beats[0]
      case Session(now, e) =>
        StepWellFormed(s, now, e);
        SessionKeepsOnTime(s, now, e, id, next);
        PlayKeepsOnTime(Step(s, now, e), next, beats[1..], id);
      case Tick(order) =>
        CascadeRoom(s, order, next, id);
        TickKeepsOnTime(s, order, id, next);
        PlayKeepsOnTime(Cascade(s, order, next), next + MINUTE, beats[1..], id);
    }
  }

  /**
   Take any run that starts while the room is not cached and in which the room is not touched by
   CreateRoom or ExtendRoomDuration. The next tick, at time `after`, then decides as follows.
   - A running room whose deadline has come is gone after that tick.
   - A room with a joined peer, paused or not, whose deadline has not come is still there, unchanged.
   */
  lemma ClosesOnTime(s: Shard, next: int, beats: seq<Beat>, id: string, order: seq<string>)
    requires WellFormed(s) && s.closing.None? && s.pending == [] && Found(s, id).None?
    requires InTime(s, next, beats)
    requires forall b | b in beats && b.Session? :: !SetsNoDeadline(b.event, id)
    requires Enabled(Play(s, next, beats).0, Rotate(order, Play(s, next, beats).1))
    ensures var (t, after) := Play(s, next, beats);
            var room := Found(t, id);
            var end := Found(Cascade(t, order, after), id);
            room.Some? ==>
              && (!room.value.isPaused && after >= room.value.updatedAt ==> end.None?)
              && (room.value.peers != {} && after < room.value.updatedAt ==> end == room)
  {
    PlayKeepsOnTime(s, next, beats, id);
    var (t, after) := Play(s, next, beats);
    CascadeRoom(t, order, after, id);
    if Found(t, id).Some? && !Found(t, id).value.isPaused && after >= Found(t, id).value.updatedAt {
      var i :| 0 <= i < Schedule.SLOTS && id in t.wheel.due[i]
               && ExaminedInTime(i, after, Found(t, id).value.updatedAt);
      assert i * MINUTE < MINUTE ==> i == 0;
    }
  }
}
