/** The steps of the room machine one by one, as record updates; the shard's methods refine these. */
module RoomSteps {
  import opened Wrappers
  import opened Recency
  import opened RoomMachine
  import RoomWatch
  import Schedule

  function ConnectStep(s: Shard, now: int, id: string, peer: string, isModerator: bool): Shard {
    if Admission(s, id, peer, isModerator).Full? then LookUpStep(s, now, id)
    else
      var t := s.(conns := s.conns[id := Peers(s, id)[peer := isModerator]]);
      if Found(s, id).Some? then LookUpStep(t, now, id)
      else AddStep(StoreStep(t, now, id, LazyRoom(now)), id, DEFAULT_MINUTES)
  }

  function LookUpStep(s: Shard, now: int, id: string): Shard {
    s.(cache := GetKey(s.cache, id, now))
  }

  function StoreStep(s: Shard, now: int, id: string, room: Room): Shard {
    s.(cache := SetKey(s.cache, s.capacity, id, room, now))
  }

  function DropStep(s: Shard, id: string): Shard {
    s.(cache := Without(s.cache, id), conns := s.conns - {id})
  }

  function AddStep(s: Shard, id: string, minutes: int): Shard {
    s.(wheel := Schedule.AddKey(s.wheel, id, minutes))
  }

  function RescheduleStep(s: Shard, id: string, minutes: int): Shard {
    s.(wheel := Schedule.AddKey(Schedule.RemoveKey(s.wheel, id), id, minutes))
  }

  function HangUpStep(s: Shard, id: string, peer: string): Shard {
    if id in s.conns then s.(conns := s.conns[id := s.conns[id] - {peer}]) else s
  }

  function ChangeStep(s: Shard, now: int, id: string, e: Event): Shard {
    s.(cache := ChangeRoom(s, now, id, e))
  }

  function JoinStep(s: Shard, now: int, id: string, peer: string, isModerator: bool,
                    limit: Option<int>, minutes: Option<int>): Shard
  {
    var t := ChangeStep(s, now, id, Join(id, peer, isModerator, limit, minutes));
    if Found(s, id).Some? && isModerator && ValidMinutes(minutes) then RescheduleStep(t, id, minutes.value) else t
  }

  function CommandStep(s: Shard, now: int, id: string, code: int, stale: Room): Shard {
    var room := CommandRoom(if Found(s, id).Some? then Found(s, id).value else stale, code, now);
    var t := ChangeStep(s, now, id, Command(id, code, stale));
    if code != PAUSE_CODE then t
    else RescheduleStep(t, id, if room.isPaused then 300 else RemainingMinutes(room.updatedAt, now))
  }

  function ResumeStep(s: Shard, now: int, id: string): Shard {
    var t := ChangeStep(s, now, id, Resume(id));
    match Found(s, id)
    case None => t
    case Some(room) =>
      if room.isPaused
      then RescheduleStep(t, id, RemainingMinutes(ResumeRoom(room, now).updatedAt, now))
      else t
  }

  function CreateStep(s: Shard, now: int, id: string, maxPeers: int): Shard {
    AddStep(StoreStep(s.(conns := s.conns[id := Peers(s, id)]), now, id, CreatedRoom(maxPeers, now)), id, DEFAULT_MINUTES)
  }

  function ExtendStep(s: Shard, now: int, id: string, extendMinutes: int): Shard {
    var t := LookUpStep(s, now, id);
    match Found(s, id)
    case None => t
    case Some(room) =>
      if ExtensionRefused(room, extendMinutes, now) then t
      else t.(wheel := Schedule.MoveKey(s.wheel, id, extendMinutes))
  }

  function ForceCloseStep(s: Shard, id: string): Shard {
    DropStep(s, id).(wheel := Schedule.RemoveKey(s.wheel, id))
  }

  function RotateStep(s: Shard, order: seq<string>, started: int): Shard {
    s.(wheel := Schedule.Advance(s.wheel), pending := order, janitorNow := started)
  }

  function ExamineStep(s: Shard, now: int): Shard
    requires s.pending != []
  {
    var id := s.pending[0];
    var t := LookUpStep(s, now, id).(pending := s.pending[1..], closing := None);
    match Found(s, id)
    case None => t
    case Some(room) =>
      if Expired(room, s.janitorNow) then t.(closing := Some(id)) else AddStep(t, id, 1)
  }

  function FinishStep(s: Shard): Shard
    requires s.closing.Some?
  {
    DropStep(s, s.closing.value).(closing := None)
  }

  /** One by one, these are exactly the steps of the machine. */
  lemma StepByStep(s: Shard, now: int, e: Event)
    requires Enabled(s, e)
    ensures RoomMachine.Step(s, now, e) ==
            match e
            case Connect(id, peer, isModerator) => ConnectStep(s, now, id, peer, isModerator)
            case WaiterGone(id, peer) => HangUpStep(s, id, peer)
            case Leave(id, peer) => ChangeStep(HangUpStep(s, id, peer), now, id, e)
            case Join(id, peer, isModerator, limit, minutes) => JoinStep(s, now, id, peer, isModerator, limit, minutes)
            case Touch(id) => LookUpStep(s, now, id)
            case Command(id, code, stale) => CommandStep(s, now, id, code, stale)
            case Resume(id) => ResumeStep(s, now, id)
            case Create(id, maxPeers) => CreateStep(s, now, id, maxPeers)
            case Extend(id, extendMinutes) => ExtendStep(s, now, id, extendMinutes)
            case ForceClose(id) => ForceCloseStep(s, id)
            case Rotate(order, started) => RotateStep(s, order, started)
            case Examine => ExamineStep(s, now)
            case FinishClose => FinishStep(s)
  {
    RoomWatch.RunShort(s.wheel, WheelOps(s, now, e));
    if e.Command? {
      CommandStepByStep(s, now, e.id, e.code, e.stale);
    } else if e.Resume? {
      ResumeStepByStep(s, now, e.id);
    } else if e.Join? || e.Connect? {
      EntryStepByStep(s, now, e);
    }
  }

  lemma CommandStepByStep(s: Shard, now: int, id: string, code: int, stale: Room)
    ensures RoomMachine.Step(s, now, Command(id, code, stale)) == CommandStep(s, now, id, code, stale)
  {
    hide WholeMinutes, RemainingMinutes, SetKey, Schedule.AddKey, Schedule.RemoveKey;
    RoomWatch.RunShort(s.wheel, WheelOps(s, now, Command(id, code, stale)));
  }

  lemma ResumeStepByStep(s: Shard, now: int, id: string)
    ensures RoomMachine.Step(s, now, Resume(id)) == ResumeStep(s, now, id)
  {
    hide WholeMinutes, RemainingMinutes, SetKey, Schedule.AddKey, Schedule.RemoveKey;
    RoomWatch.RunShort(s.wheel, WheelOps(s, now, Resume(id)));
  }

  lemma EntryStepByStep(s: Shard, now: int, e: Event)
    requires e.Join? || e.Connect?
    ensures RoomMachine.Step(s, now, e) ==
            match e
            case Connect(id, peer, isModerator) => ConnectStep(s, now, id, peer, isModerator)
            case Join(id, peer, isModerator, limit, minutes) => JoinStep(s, now, id, peer, isModerator, limit, minutes)
  {
    RoomWatch.RunShort(s.wheel, WheelOps(s, now, e));
    match e
    case Connect(_, _, _) =>
    case Join(_, _, _, _, _) =>
  }
}
