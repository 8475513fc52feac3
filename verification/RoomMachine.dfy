/**
 The room lifecycle of one shard as a state machine: an LRU cache of rooms, a table of connections,
 a time wheel, and the janitor's list of ids still to process. Every event is one stretch of code
 that holds the shard lock, or one call of the wheel outside it.
 */
module RoomMachine {
  import opened Wrappers
  import opened Recency
  import Schedule

  const MINUTE: int := 60_000_000_000  // times are in nanoseconds

  /** What an unset time reads as: the first instant of year 1, in Unix nanoseconds. */
  const ZERO_TIME: int := -62_135_596_800_000_000_000

  const DEFAULT_PEERS: int := 100
  const DEFAULT_MINUTES: nat := 30

  const PAUSE_CODE: int := 0  // the room state that SET_PAUSE flips

  datatype Room = Room(
    maxPeers: int, isPaused: bool, peers: set<string>, createdAt: int, updatedAt: int, states: map<int, bool>)

  predicate On(states: map<int, bool>, code: int) {
    code in states && states[code]
  }

  /** The room a first connection creates; its deadline is thirty minutes away. */
  function LazyRoom(now: int): Room {
    Room(DEFAULT_PEERS, false, {}, now, now + DEFAULT_MINUTES * MINUTE, map[])
  }

  /** The room CreateRoom makes; it has no deadline. */
  function CreatedRoom(maxPeers: int, now: int): Room {
    Room(maxPeers, false, {}, now, ZERO_TIME, map[])
  }

  datatype Shard = Shard(
    capacity: int,
    cache: seq<Entry<Room>>,
    conns: map<string, map<string, bool>>,  // room -> peer -> is a moderator
    wheel: Schedule.Timetable,
    pending: seq<string>,                   // ids the janitor has taken off the wheel but not examined
    closing: Option<string>,                // the room it is closing while the lock is released
    janitorNow: int)                        // the clock reading of its current round

  function Initial(capacity: int): Shard {
    Shard(capacity, [], map[], Schedule.Empty(), [], None, ZERO_TIME)
  }

  function Found(s: Shard, id: string): Option<Room> {
    Lookup(s.cache, id)
  }

  function Peers(s: Shard, id: string): map<string, bool> {
    if id in s.conns then s.conns[id] else map[]
  }

  datatype Event =
    | Connect(id: string, peer: string, isModerator: bool)
    | WaiterGone(id: string, peer: string)
    | Leave(id: string, peer: string)
    | Join(id: string, peer: string, isModerator: bool, limit: Option<int>, minutes: Option<int>)
    | Touch(id: string)  // chat, speaker and overload requests: they read the room through the cache
    | Command(id: string, code: int, stale: Room)  // stale: the room the handler last saw
    | Resume(id: string)
    | Create(id: string, maxPeers: int)
    | Extend(id: string, extendMinutes: int)
    | ForceClose(id: string)
    | Rotate(order: seq<string>, started: int)
    | Examine
    | FinishClose

  /** The janitor is one goroutine: it turns the wheel only when it is done with the previous round. */
  predicate Enabled(s: Shard, e: Event) {
    match e
    case Rotate(order, _) =>
      s.pending == [] && s.closing.None? && multiset(order) == multiset(s.wheel.due[0])
    case Examine => s.pending != [] && s.closing.None?
    case FinishClose => s.closing.Some?
    case _ => true
  }

  // ---------- What each event does to a room ----------

  /** Whole minutes of a duration, truncated toward zero. */
  function WholeMinutes(d: int): int {
    if d >= 0 then d / MINUTE else -(-d / MINUTE)
  }

  function RemainingMinutes(deadline: int, now: int): (m: nat)
    ensures m >= 1
  {
    var m := WholeMinutes(deadline - now);
    if m < 1 then 1 else m
  }

  predicate ValidLimit(limit: Option<int>) {
    limit.Some? && 1 <= limit.value <= 100
  }

  predicate ValidMinutes(minutes: Option<int>) {
    minutes.Some? && 1 <= minutes.value <= 300
  }

  /** Unpausing moves the deadline by the length of the pause, which began at createdAt. */
  function Unpaused(room: Room, now: int): Room {
    room.(updatedAt := room.updatedAt + (now - room.createdAt))
  }

  function JoinRoom(room: Room, peer: string, isModerator: bool, limit: Option<int>, minutes: Option<int>, now: int): Room {
    var r := room.(peers := room.peers + {peer});
    var r := if isModerator && ValidLimit(limit) then r.(maxPeers := limit.value) else r;
    if isModerator && ValidMinutes(minutes) then r.(updatedAt := now + minutes.value * MINUTE) else r
  }

  function CommandRoom(room: Room, code: int, now: int): Room {
    var on := !On(room.states, code);
    var r := room.(states := room.states[code := on]);
    if code != PAUSE_CODE then r
    else if on then r.(isPaused := true, createdAt := now)
    else Unpaused(r.(isPaused := false), now)
  }

  function ResumeRoom(room: Room, now: int): Room {
    (if room.isPaused then Unpaused(room, now) else room).(isPaused := false, states := room.states[PAUSE_CODE := false])
  }

  /** What a session's event does to its room, once found. */
  function Changed(room: Room, now: int, e: Event): Room {
    match e
    case Leave(_, peer) => room.(peers := room.peers - {peer})
    case Join(_, peer, isModerator, limit, minutes) => JoinRoom(room, peer, isModerator, limit, minutes, now)
    case Command(_, code, _) => CommandRoom(room, code, now)
    case Resume(_) => ResumeRoom(room, now)
    case _ => room
  }

  /** The janitor closes a room that is empty or past its deadline. */
  predicate Expired(room: Room, now: int) {
    room.peers == {} || now >= room.updatedAt
  }

  predicate ExtensionRefused(room: Room, extendMinutes: int, now: int) {
    WholeMinutes(now - room.createdAt) + extendMinutes >= 300
  }

  // ---------- Admission ----------

  datatype Outcome = Full | Waiting | Admitted

  predicate HasModerator(peers: map<string, bool>) {
    exists p :: p in peers && peers[p]
  }

  function Admission(s: Shard, id: string, peer: string, isModerator: bool): Outcome {
    var room := Found(s, id);
    if room.Some? && |Peers(s, id)| >= room.value.maxPeers then Full
    else if !isModerator && (room.None? || !HasModerator(Peers(s, id)[peer := isModerator])) then Waiting
    else Admitted
  }

  // ---------- The step ----------

  function CacheAfter(s: Shard, now: int, e: Event): seq<Entry<Room>>
    requires Enabled(s, e)
  {
    match e
    case Connect(id, _, _) =>
      if Found(s, id).None? then SetKey(s.cache, s.capacity, id, LazyRoom(now), now)
      else GetKey(s.cache, id, now)
    case Leave(id, _) => ChangeRoom(s, now, id, e)
    case Join(id, _, _, _, _) => ChangeRoom(s, now, id, e)
    case Command(id, _, _) => ChangeRoom(s, now, id, e)
    case Resume(id) => ChangeRoom(s, now, id, e)
    case Touch(id) => GetKey(s.cache, id, now)
    case Extend(id, _) => GetKey(s.cache, id, now)
    case Examine => GetKey(s.cache, s.pending[0], now)
    case Create(id, maxPeers) => SetKey(s.cache, s.capacity, id, CreatedRoom(maxPeers, now), now)
    case ForceClose(id) => Without(s.cache, id)
    case FinishClose => Without(s.cache, s.closing.value)
    case WaiterGone(_, _) => s.cache
    case Rotate(_, _) => s.cache
  }

  /** Looks a room up, which makes it the most recent, and changes it in place. */
  function ChangeRoom(s: Shard, now: int, id: string, e: Event): seq<Entry<Room>> {
    match Found(s, id)
    case None => s.cache
    case Some(room) => SetKey(s.cache, s.capacity, id, Changed(room, now, e), now)
  }

  function ConnsAfter(s: Shard, now: int, e: Event): map<string, map<string, bool>>
    requires Enabled(s, e)
  {
    match e
    case Connect(id, peer, isModerator) =>
      if Admission(s, id, peer, isModerator).Full? then s.conns
      else s.conns[id := Peers(s, id)[peer := isModerator]]
    case WaiterGone(id, peer) => if id in s.conns then s.conns[id := s.conns[id] - {peer}] else s.conns
    case Leave(id, peer) => if id in s.conns then s.conns[id := s.conns[id] - {peer}] else s.conns
    case Create(id, _) => s.conns[id := Peers(s, id)]
    case ForceClose(id) => s.conns - {id}
    case FinishClose => s.conns - {s.closing.value}
    case _ => s.conns
  }

  /** The wheel operations an event performs, in order. */
  function WheelOps(s: Shard, now: int, e: Event): seq<Schedule.Op>
    requires Enabled(s, e)
  {
    match e
    case Connect(id, _, _) =>
      if Found(s, id).None? then [Schedule.Add(id, DEFAULT_MINUTES)] else []
    case Join(id, _, isModerator, _, minutes) =>
      if Found(s, id).Some? && isModerator && ValidMinutes(minutes)
      then [Schedule.Remove(id), Schedule.Add(id, minutes.value)] else []
    case Command(id, code, stale) =>
      var room := if Found(s, id).Some? then Found(s, id).value else stale;
      if code != PAUSE_CODE then []
      else if On(room.states, code)
      then [Schedule.Remove(id), Schedule.Add(id, RemainingMinutes(Unpaused(room, now).updatedAt, now))]
      else [Schedule.Remove(id), Schedule.Add(id, 300)]
    case Resume(id) =>
      var room := Found(s, id);
      if room.Some? && room.value.isPaused
      then [Schedule.Remove(id), Schedule.Add(id, RemainingMinutes(Unpaused(room.value, now).updatedAt, now))]
      else []
    case Create(id, _) => [Schedule.Add(id, DEFAULT_MINUTES)]
    case Extend(id, extendMinutes) =>
      var room := Found(s, id);
      if room.Some? && !ExtensionRefused(room.value, extendMinutes, now)
      then [Schedule.Move(id, extendMinutes)] else []
    case ForceClose(id) => [Schedule.Remove(id)]
    case Rotate(_, _) => [Schedule.Tick]
    case Examine =>
      var room := Found(s, s.pending[0]);
      if room.Some? && !Expired(room.value, s.janitorNow) then [Schedule.Add(s.pending[0], 1)] else []
    case _ => []
  }

  function Step(s: Shard, now: int, e: Event): Shard
    requires Enabled(s, e)
  {
    var pending := match e
      case Rotate(order, _) => order
      case Examine => s.pending[1..]
      case _ => s.pending;
    var closing := match e
      case Examine =>
        var room := Found(s, s.pending[0]);
        if room.Some? && Expired(room.value, s.janitorNow) then Some(s.pending[0]) else None
      case FinishClose => None
      case _ => s.closing;
    Shard(s.capacity, CacheAfter(s, now, e), ConnsAfter(s, now, e),
          Schedule.Run(s.wheel, WheelOps(s, now, e)), pending, closing,
          if e.Rotate? then e.started else s.janitorNow)
  }

  // ---------- Runs ----------

  datatype Timed = At(now: int, event: Event)

  predicate Legal(s: Shard, run: seq<Timed>)
    decreases |run|
  {
    run == [] || (Enabled(s, run[0].event) && Legal(Step(s, run[0].now, run[0].event), run[1..]))
  }

  function Run(s: Shard, run: seq<Timed>): Shard
    requires Legal(s, run)
    decreases |run|
  {
    if run == [] then s else Run(Step(s, run[0].now, run[0].event), run[1..])
  }

  lemma {:induction false} RunAppend(s: Shard, run: seq<Timed>, now: int, e: Event)
    requires Legal(s, run) && Enabled(Run(s, run), e)
    ensures Legal(s, run + [At(now, e)]) && Run(s, run + [At(now, e)]) == Step(Run(s, run), now, e)
    decreases |run|
  {
    var all := run + [At(now, e)];
    if run == [] {
      assert all[1..] == [];
    } else {
      assert all[1..] == run[1..] + [At(now, e)];
      RunAppend(Step(s, run[0].now, run[0].event), run[1..], now, e);
    }
  }

  ghost predicate WellFormed(s: Shard) {
    s.capacity >= 1 && Distinct(s.cache) && |s.cache| <= s.capacity
  }

  /**
   What becomes of one room in one step: it is created, changed by an event that names it, evicted by
   another room's creation, removed, or left as it is.
   */
  function RoomAfter(s: Shard, now: int, e: Event, id: string): Option<Room>
    requires Enabled(s, e)
  {
    var room := Found(s, id);
    match e
    case Connect(i, _, _) =>
      if room.None? then (if i == id then Some(LazyRoom(now)) else None)
      else if Found(s, i).None? && |s.cache| == s.capacity && Evicted(s.cache, s.capacity, i) == id then None
      else room
    case Create(i, maxPeers) =>
      if i == id then Some(CreatedRoom(maxPeers, now))
      else if Found(s, i).None? && |s.cache| == s.capacity && Evicted(s.cache, s.capacity, i) == id then None
      else room
    case ForceClose(i) => if i == id then None else room
    case FinishClose => if s.closing.value == id then None else room
    case WaiterGone(_, _) => room
    case Rotate(_, _) => room
    case Examine => room
    case _ => if e.id == id && room.Some? then Some(Changed(room.value, now, e)) else room
  }

  lemma FoundAfter(s: Shard, now: int, e: Event, id: string)
    requires WellFormed(s) && Enabled(s, e)
    ensures Found(Step(s, now, e), id) == RoomAfter(s, now, e, id)
  {
    match e
    case Connect(i, _, _) =>
      LookupStep(s.cache, s.capacity, Set(i, LazyRoom(now), now), id);
      LookupStep(s.cache, s.capacity, Get(i, now), id);
    case Create(i, maxPeers) => LookupStep(s.cache, s.capacity, Set(i, CreatedRoom(maxPeers, now), now), id);
    case Leave(i, _) => ChangeInPlace(s, now, i, e, id);
    case Join(i, _, _, _, _) => ChangeInPlace(s, now, i, e, id);
    case Command(i, _, _) => ChangeInPlace(s, now, i, e, id);
    case Resume(i) => ChangeInPlace(s, now, i, e, id);
    case Touch(i) => LookupStep(s.cache, s.capacity, Get(i, now), id);
    case Extend(i, _) => LookupStep(s.cache, s.capacity, Get(i, now), id);
    case Examine => LookupStep(s.cache, s.capacity, Get(s.pending[0], now), id);
    case ForceClose(i) => LookupStep(s.cache, s.capacity, Remove(i), id);
    case FinishClose => LookupStep(s.cache, s.capacity, Remove(s.closing.value), id);
    case WaiterGone(_, _) =>
    case Rotate(_, _) =>
  }

  lemma ChangeInPlace(s: Shard, now: int, i: string, e: Event, id: string)
    requires WellFormed(s)
    ensures Lookup(ChangeRoom(s, now, i, e), id)
         == if i == id && Found(s, i).Some? then Some(Changed(Found(s, i).value, now, e)) else Found(s, id)
  {
    if Found(s, i).Some? {
      LookupStep(s.cache, s.capacity, Set(i, Changed(Found(s, i).value, now, e), now), id);
    }
  }

  lemma StepWellFormed(s: Shard, now: int, e: Event)
    requires WellFormed(s) && Enabled(s, e)
    ensures WellFormed(Step(s, now, e))
  {
    var t := Step(s, now, e);
    if e.Connect? || e.Create? {
      var room := if e.Connect? then LazyRoom(now) else CreatedRoom(e.maxPeers, now);
      Recency.StepWellFormed(s.cache, s.capacity, Set(e.id, room, now));
      Recency.StepWellFormed(s.cache, s.capacity, Get(e.id, now));
    } else if (e.Leave? || e.Join? || e.Command? || e.Resume?) && Found(s, e.id).Some? {
      Recency.StepWellFormed(s.cache, s.capacity, Set(e.id, Changed(Found(s, e.id).value, now, e), now));
    } else if e.Touch? || e.Extend? {
      Recency.StepWellFormed(s.cache, s.capacity, Get(e.id, now));
    } else if e.Examine? {
      Recency.StepWellFormed(s.cache, s.capacity, Get(s.pending[0], now));
    } else if e.ForceClose? || e.FinishClose? {
      Recency.StepWellFormed(s.cache, s.capacity, Remove(if e.ForceClose? then e.id else s.closing.value));
    }
  }
}
