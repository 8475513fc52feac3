/** Which wheel entries each event sets, in minutes and deadlines rather than in wheel operations. */
module RoomTimers {
  import opened Wrappers
  import opened RoomMachine
  import opened RoomWatch
  import RoomDeadline
  import Schedule

  const HOUR: int := 60 * 60 * 1_000_000_000

  /** Only the entry with i + 1 ticks left differs, and now it is there. */
  ghost predicate EntryAdded(t: Schedule.Timetable, u: Schedule.Timetable, id: string, i: int) {
    forall j | 0 <= j < Schedule.SLOTS :: id in u.due[j] <==> j == i || id in t.due[j]
  }

  lemma WheelAfter(s: Shard, now: int, e: Event)
    requires Enabled(s, e)
    ensures var ops, t := WheelOps(s, now, e), Step(s, now, e).wheel;
            && |ops| <= 2
            && (ops == [] ==> t == s.wheel)
            && (|ops| == 1 ==> t == Schedule.Step(s.wheel, ops[0]))
            && (|ops| == 2 ==> t == Schedule.Step(Schedule.Step(s.wheel, ops[0]), ops[1]))
  {
    OpsShape(s, now, e);
    RunShort(s.wheel, WheelOps(s, now, e));
  }

  /** No event but a rotation changes the entries of another room. */
  lemma OtherRoomsKeepTheirs(s: Shard, now: int, e: Event, id: string)
    requires Enabled(s, e) && !e.Rotate? && !(if e.Examine? then s.pending[0] == id else !e.FinishClose? && e.id == id)
    ensures forall j | 0 <= j < Schedule.SLOTS :: id in Step(s, now, e).wheel.due[j] <==> id in s.wheel.due[j]
  {
    var ops := WheelOps(s, now, e);
    OpsShape(s, now, e);
    RunShort(s.wheel, ops);
    if ops != [] {
      Schedule.OthersUntouched(s.wheel, ops[0], id);
      if |ops| == 2 { Schedule.OthersUntouched(Schedule.Step(s.wheel, ops[0]), ops[1], id); }
    }
  }

  /** A first connection, and every CreateRoom, adds an entry thirty minutes ahead. */
  lemma CreationTimer(s: Shard, now: int, e: Event)
    requires Enabled(s, e) && (e.Create? || (e.Connect? && Found(s, e.id).None?))
    ensures EntryAdded(s.wheel, Step(s, now, e).wheel, e.id, 29)
  {
    WheelAfter(s, now, e);
    hide Step;
  }

  /** A moderator's number of minutes from 1 to 300 puts a cached room exactly that far ahead. */
  lemma JoinTimer(s: Shard, now: int, e: Event)
    requires e.Join? && Schedule.Entries(s.wheel, e.id) <= 1
    ensures var t := Step(s, now, e).wheel;
            if Found(s, e.id).Some? && e.isModerator && e.minutes.Some? && 1 <= e.minutes.value <= 300
            then Schedule.OnlyAt(t, e.id, e.minutes.value - 1) else t == s.wheel
  {
    WheelAfter(s, now, e);
    hide Step;
    if e.minutes.Some? && 1 <= e.minutes.value <= 300 {
      Schedule.UniqueMove(s.wheel, e.id, e.minutes.value);
    }
  }

  /** The whole minutes from now to the deadline, but at least one. */
  predicate MinutesLeft(m: int, now: int, deadline: int) {
    m >= 1 && deadline < now + (m + 1) * MINUTE && (m == 1 || now + m * MINUTE <= deadline)
  }

  /** The room is put as many minutes ahead as are left, counted around the ring. */
  ghost predicate DueAt(t: Schedule.Timetable, id: string, now: int, deadline: int) {
    exists m :: MinutesLeft(m, now, deadline) && Schedule.OnlyAt(t, id, (m - 1) % Schedule.SLOTS)
  }

  lemma Rescheduled(t: Schedule.Timetable, id: string, now: int, deadline: int)
    requires Schedule.Entries(t, id) <= 1
    ensures DueAt(Schedule.MoveKey(t, id, RemainingMinutes(deadline, now)), id, now, deadline)
  {
    var m := RemainingMinutes(deadline, now);
    RoomDeadline.RemainingInTime(deadline, now);
    assert MinutesLeft(m, now, deadline);
    Schedule.UniqueMove(t, id, m);
  }

  lemma CommandMoves(s: Shard, now: int, e: Event)
    requires e.Command?
    ensures var t := Step(s, now, e).wheel;
            var room := if Found(s, e.id).Some? then Found(s, e.id).value else e.stale;
            if e.code != 0 then t == s.wheel
            else if !On(room.states, 0) then t == Schedule.MoveKey(s.wheel, e.id, 300)
            else t == Schedule.MoveKey(s.wheel, e.id, RemainingMinutes(room.updatedAt + (now - room.createdAt), now))
  {
    WheelAfter(s, now, e);
    hide Step;
    hide WholeMinutes, RemainingMinutes, Schedule.AddKey, Schedule.RemoveKey;
  }

  /** SET_PAUSE puts a room five hours ahead, or as far as its compensated deadline; the mutes do nothing. */
  lemma CommandTimer(s: Shard, now: int, e: Event)
    requires e.Command? && Schedule.Entries(s.wheel, e.id) <= 1
    ensures var t := Step(s, now, e).wheel;
            var room := if Found(s, e.id).Some? then Found(s, e.id).value else e.stale;
            if e.code != 0 then t == s.wheel
            else if !On(room.states, 0) then Schedule.OnlyAt(t, e.id, 5 * 60 - 1)
            else DueAt(t, e.id, now, room.updatedAt + (now - room.createdAt))
  {
    hide Step, Schedule.OnlyAt, Schedule.Entries, Schedule.MoveKey, DueAt, RemainingMinutes, On;
    CommandMoves(s, now, e);
    var room := if Found(s, e.id).Some? then Found(s, e.id).value else e.stale;
    Schedule.UniqueMove(s.wheel, e.id, 300);
    Rescheduled(s.wheel, e.id, now, room.updatedAt + (now - room.createdAt));
  }

  lemma ResumeMoves(s: Shard, now: int, id: string)
    ensures var t, room := Step(s, now, Resume(id)).wheel, Found(s, id);
            if room.Some? && room.value.isPaused
            then t == Schedule.MoveKey(s.wheel, id, RemainingMinutes(room.value.updatedAt + (now - room.value.createdAt), now))
            else t == s.wheel
  {
    WheelAfter(s, now, Resume(id));
    hide Step;
    hide WholeMinutes, RemainingMinutes, Schedule.AddKey, Schedule.RemoveKey;
  }

  lemma ResumeTimer(s: Shard, now: int, id: string)
    requires Schedule.Entries(s.wheel, id) <= 1
    ensures var t, room := Step(s, now, Resume(id)).wheel, Found(s, id);
            if room.Some? && room.value.isPaused
            then DueAt(t, id, now, room.value.updatedAt + (now - room.value.createdAt)) else t == s.wheel
  {
    hide Step, DueAt, RemainingMinutes, Schedule.MoveKey, Schedule.Entries;
    ResumeMoves(s, now, id);
    if Found(s, id).Some? {
      var room := Found(s, id).value;
      Rescheduled(s.wheel, id, now, room.updatedAt + (now - room.createdAt));
    }
  }

  /**
   An extension is refused when the room would have lived for five hours by its end. On a clock that has
   gone back behind the room's beginning, one of five hours or more is refused a minute early.
   */
  lemma ExtensionRule(room: Room, extendMinutes: int, now: int)
    ensures var lifetime := now - room.createdAt + extendMinutes * MINUTE;
            ExtensionRefused(room, extendMinutes, now) <==>
            if now >= room.createdAt || extendMinutes < 300 then lifetime >= 5 * HOUR
            else lifetime > 5 * HOUR - MINUTE
  {
    var d := now - room.createdAt;
    var n := if d >= 0 then d else -d;
    assert n == MINUTE * (n / MINUTE) + n % MINUTE;
  }

  lemma ExtendMoves(s: Shard, now: int, e: Event)
    requires e.Extend?
    ensures var t, room := Step(s, now, e).wheel, Found(s, e.id);
            if room.Some? && !ExtensionRefused(room.value, e.extendMinutes, now)
            then t == Schedule.MoveKey(s.wheel, e.id, e.extendMinutes) else t == s.wheel
  {
    WheelAfter(s, now, e);
    hide Step, ExtensionRefused, Schedule.AddKey, Schedule.RemoveKey;
  }

  /** An extension that is not refused puts the room that far ahead, counted around the ring. */
  lemma ExtendTimer(s: Shard, now: int, e: Event)
    requires e.Extend? && Schedule.Entries(s.wheel, e.id) <= 1
    ensures var t, room := Step(s, now, e).wheel, Found(s, e.id);
            if room.Some? && !ExtensionRefused(room.value, e.extendMinutes, now)
            then Schedule.OnlyAt(t, e.id, (e.extendMinutes - 1) % Schedule.SLOTS) else t == s.wheel
  {
    hide Step, ExtensionRefused, Schedule.MoveKey, Schedule.Entries, Schedule.OnlyAt;
    ExtendMoves(s, now, e);
    Schedule.UniqueMove(s.wheel, e.id, e.extendMinutes);
  }

  /** The janitor puts a room that it lets live one minute ahead, and no other. */
  lemma ExamineTimer(s: Shard, now: int)
    requires Enabled(s, Examine)
    ensures var id, t := s.pending[0], Step(s, now, Examine);
            var room := Found(s, id);
            if room.Some? && room.value.peers != {} && s.janitorNow < room.value.updatedAt
            then EntryAdded(s.wheel, t.wheel, id, 0) && t.closing.None?
            else t.wheel == s.wheel && t.closing == if room.Some? then Some(id) else None
  {
    WheelAfter(s, now, Examine);
    hide Step;
  }

  lemma {:induction false} ReadingKept(s: Shard, run: seq<Timed>)
    requires Legal(s, run) && forall b | b in run :: !b.event.Rotate?
    ensures Run(s, run).janitorNow == s.janitorNow
    decreases |run|
  {
    if run != [] {
      var t := Step(s, run[0].now, run[0].event);
      assert run[0] in run && t.janitorNow == s.janitorNow;
      hide Step;
      ReadingKept(t, run[1..]);
    }
  }

  /** However a round is interleaved, the janitor judges every room by the clock reading from the start of the round. */
  lemma JudgedByStartOfRound(s: Shard, now: int, order: seq<string>, started: int, run: seq<Timed>, later: int)
    requires Enabled(s, Rotate(order, started)) && Legal(Step(s, now, Rotate(order, started)), run)
    requires (forall b | b in run :: !b.event.Rotate?)
    requires Enabled(Run(Step(s, now, Rotate(order, started)), run), Examine)
    ensures var t := Run(Step(s, now, Rotate(order, started)), run);
            var room := Found(t, t.pending[0]);
            Step(t, later, Examine).closing.Some? <==>
            room.Some? && (room.value.peers == {} || started >= room.value.updatedAt)
  {
    var u := Step(s, now, Rotate(order, started));
    assert u.janitorNow == started;
    ReadingKept(u, run);
    ExamineTimer(Run(u, run), later);
    hide Step, Run, Legal;
  }

  /** Closing by force erases the room, its connections and, if it has just one, its entry. */
  lemma ForceCloseErases(s: Shard, now: int, id: string)
    requires WellFormed(s) && Schedule.Entries(s.wheel, id) <= 1
    ensures var t := Step(s, now, ForceClose(id));
            Found(t, id).None? && Peers(t, id) == map[] && Schedule.Absent(t.wheel, id)
  {
    FoundAfter(s, now, ForceClose(id), id);
    WheelAfter(s, now, ForceClose(id));
    hide Step;
    Schedule.RemoveClearsIffSingle(s.wheel, id);
  }

  /** Nothing else works the wheel. */
  lemma NoTimer(s: Shard, now: int, e: Event)
    requires Enabled(s, e)
    requires e.Touch? || e.Leave? || e.WaiterGone? || e.FinishClose? || (e.Connect? && Found(s, e.id).Some?)
    ensures Step(s, now, e).wheel == s.wheel
  {
    WheelAfter(s, now, e);
    hide Step;
  }
}
