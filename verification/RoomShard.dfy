/** One shard of the signaling gateway: rooms on the heap, behind the cache, the table and the wheel. */
module RoomShard {
  import opened Wrappers
  import opened Recency
  import opened LruCache
  import opened TimeWheel
  import M = RoomMachine
  import S = RoomSteps
  import D = RoomDeadline
  import Schedule

  class VideoRoom {
    const roomID: string
    var maxPeers: int
    var isPaused: bool
    var peers: set<string>
    var createdAt: int
    var updatedAt: int
    var roomStates: map<int, bool>

    function Value(): M.Room
      reads this
    {
      M.Room(maxPeers, isPaused, peers, createdAt, updatedAt, roomStates)
    }

    /** The parts of the session handler that change the room they have looked up. */
    method Apply(e: M.Event, now: int)
      modifies this
      ensures Value() == M.Changed(old(Value()), now, e)
    {
      match e
      case Leave(_, peer) =>
        peers := peers - {peer};
      case Join(_, peer, isModerator, limit, minutes) =>
        peers := peers + {peer};
        if isModerator {
          if limit.Some? && 1 <= limit.value <= 100 { maxPeers := limit.value; }
          if minutes.Some? && 1 <= minutes.value <= 300 { updatedAt := now + minutes.value * M.MINUTE; }
        }
      case Command(_, code, _) =>
        var isActiveNow := !(code in roomStates && roomStates[code]);
        roomStates := roomStates[code := isActiveNow];
        if code == M.PAUSE_CODE {
          isPaused := isActiveNow;
          if isPaused {
            createdAt := now;
          } else {
            updatedAt := updatedAt + (now - createdAt);
          }
        }
      case Resume(_) =>
        if isPaused { updatedAt := updatedAt + (now - createdAt); }
        roomStates := roomStates[M.PAUSE_CODE := false];
        isPaused := false;
      case _ =>
    }

    constructor (id: string, maxPeers: int, createdAt: int, updatedAt: int)
      ensures roomID == id && Value() == M.Room(maxPeers, false, {}, createdAt, updatedAt, map[])
    {
      roomID, this.maxPeers, isPaused, peers := id, maxPeers, false, {};
      this.createdAt, this.updatedAt, roomStates := createdAt, updatedAt, map[];
    }
  }

  // ---------- From room objects to room values ----------

  /** What the rooms that a handler or the cache can reach currently contain. */
  type Memory = map<VideoRoom, M.Room>

  /** Every cached room sits under its own id, and its contents are known. */
  ghost predicate Holds(es: seq<Entry<VideoRoom>>, memory: Memory) {
    es == [] ||
    (es[0].value in memory && es[0].value.roomID == es[0].key && Holds(es[1..], memory))
  }

  /** The cache's list with every room object replaced by its contents. */
  ghost function Image(es: seq<Entry<VideoRoom>>, memory: Memory): (rs: seq<Entry<M.Room>>)
    requires Holds(es, memory)
    ensures |rs| == |es|
  {
    if es == [] then []
    else [Entry(es[0].key, memory[es[0].value], es[0].lastAccess)] + Image(es[1..], memory)
  }

  lemma {:induction false} ImageLookup(es: seq<Entry<VideoRoom>>, memory: Memory, key: string)
    requires Holds(es, memory)
    ensures match Lookup(es, key)
            case None => Lookup(Image(es, memory), key) == None
            case Some(room) =>
              room in memory && room.roomID == key && Lookup(Image(es, memory), key) == Some(memory[room])
  {
    if es != [] && es[0].key != key {
      ImageLookup(es[1..], memory, key);
      assert Image(es, memory)[1..] == Image(es[1..], memory);
    }
  }

  lemma {:induction false} ImageWithout(es: seq<Entry<VideoRoom>>, memory: Memory, key: string)
    requires Holds(es, memory)
    ensures Holds(Without(es, key), memory)
    ensures Image(Without(es, key), memory) == Without(Image(es, memory), key)
  {
    if es != [] {
      assert Image(es, memory)[1..] == Image(es[1..], memory);
      ImageWithout(es[1..], memory, key);
      assert Without(es, key) == es[1..] || Without(es, key)[1..] == Without(es[1..], key);
    }
  }

  lemma {:induction false} ImageFront(es: seq<Entry<VideoRoom>>, memory: Memory)
    requires Holds(es, memory)
    ensures Holds(Front(es), memory) && Image(Front(es), memory) == Front(Image(es, memory))
  {
    if |es| > 1 {
      ImageFront(es[1..], memory);
      assert Front(es)[1..] == Front(es[1..]);
      assert Front(Image(es, memory))[1..] == Front(Image(es[1..], memory));
    }
  }

  lemma ImageCons(e: Entry<VideoRoom>, es: seq<Entry<VideoRoom>>, memory: Memory)
    requires Holds(es, memory) && e.value in memory && e.value.roomID == e.key
    ensures Holds([e] + es, memory)
    ensures Image([e] + es, memory) == [Entry(e.key, memory[e.value], e.lastAccess)] + Image(es, memory)
  {
  }

  lemma ImageGet(es: seq<Entry<VideoRoom>>, memory: Memory, key: string, now: int)
    requires Holds(es, memory)
    ensures var after := GetKey(es, key, now);
            Holds(after, memory) && Image(after, memory) == GetKey(Image(es, memory), key, now)
  {
    ImageLookup(es, memory, key);
    ImageWithout(es, memory, key);
    if Lookup(es, key).Some? {
      ImageCons(Entry(key, Lookup(es, key).value, now), Without(es, key), memory);
    }
  }

  lemma ImageSet(es: seq<Entry<VideoRoom>>, memory: Memory, capacity: int, room: VideoRoom, now: int)
    requires Holds(es, memory) && room in memory
    ensures var after := SetKey(es, capacity, room.roomID, room, now);
            && Holds(after, memory)
            && Image(after, memory) == SetKey(Image(es, memory), capacity, room.roomID, memory[room], now)
  {
    ImageLookup(es, memory, room.roomID);
    ImageWithout(es, memory, room.roomID);
    ImageFront(es, memory);
    var rest := if Lookup(es, room.roomID).Some? then Without(es, room.roomID)
                else if |es| >= capacity then Front(es) else es;
    ImageCons(Entry(room.roomID, room, now), rest, memory);
  }

  /** Rooms that do not occur in the list can change without changing what it shows. */
  lemma {:induction false} ImageUnaffected(es: seq<Entry<VideoRoom>>, memory: Memory, room: VideoRoom, value: M.Room)
    requires Holds(es, memory) && Lookup(es, room.roomID).None?
    ensures Holds(es, memory[room := value])
    ensures Image(es, memory[room := value]) == Image(es, memory)
  {
    if es != [] { ImageUnaffected(es[1..], memory, room, value); }
  }

  lemma {:induction false} RememberNew(es: seq<Entry<VideoRoom>>, memory: Memory, room: VideoRoom, value: M.Room)
    requires Holds(es, memory) && room !in memory
    ensures Holds(es, memory[room := value])
    ensures Image(es, memory[room := value]) == Image(es, memory)
  {
    if es != [] { RememberNew(es[1..], memory, room, value); }
  }

  /** Changing the room just looked up is what the machine calls changing it in place. */
  lemma ImagePoke(es: seq<Entry<VideoRoom>>, memory: Memory, capacity: int, room: VideoRoom, value: M.Room)
    requires Holds(es, memory) && Distinct(es) && es != [] && es[0].value == room
    ensures Holds(es, memory[room := value])
    ensures Image(es, memory[room := value])
         == SetKey(Image(es, memory), capacity, room.roomID, value, es[0].lastAccess)
  {
    LookupMeansHasKey(es[1..], room.roomID);
    ImageUnaffected(es[1..], memory, room, value);
    assert Image(es, memory)[1..] == Image(es[1..], memory);
  }

  class RoomShard {
    const lruCache: ReactiveLruCache<VideoRoom>
    var conns: map<string, map<string, bool>>
    const wheel: BitmappedTimeWheel

    // The janitor's local variables while it processes this shard.
    var expiredRoomIDs: seq<string>
    var closing: Option<string>
    var janitorNow: int

    ghost var memory: Memory

    ghost predicate Mirrors()
      reads this`memory, memory.Keys
    {
      forall r | r in memory :: r.Value() == memory[r]
    }

    ghost predicate Valid()
      reads this, lruCache, lruCache.nodes, wheel, wheel.slots, memory.Keys
    {
      && lruCache.Valid() && lruCache.capacity >= 1 && wheel.Valid()
      && Holds(lruCache.Contents, memory)
      && Mirrors()
    }

    /** The shard's state as the room machine sees it. */
    ghost function State(): M.Shard
      requires Valid()
      reads this, lruCache, lruCache.nodes, wheel, wheel.slots, memory.Keys
    {
      M.Shard(lruCache.capacity, Image(lruCache.Contents, memory), conns, wheel.Timetable(),
              expiredRoomIDs, closing, janitorNow)
    }

    lemma StateFields()
      requires Valid()
      ensures State().capacity == lruCache.capacity && State().conns == conns
      ensures State().pending == expiredRoomIDs && State().closing == closing && State().janitorNow == janitorNow
    {
    }

    /** The shard comes to own no objects but new ones. */
    twostate predicate Grows()
      reads this, lruCache
    {
      && fresh(lruCache.Footprint() - old(lruCache.Footprint()))
      && fresh(memory.Keys - old(memory.Keys))
    }

    constructor (capacity: int)
      requires capacity >= 1
      ensures Valid() && State() == M.Initial(capacity)
      ensures fresh(lruCache) && fresh(wheel) && fresh(wheel.slots)
    {
      lruCache := new ReactiveLruCache<VideoRoom>(capacity);
      conns := map[];
      wheel := new BitmappedTimeWheel();
      expiredRoomIDs, closing, janitorNow := [], None, M.ZERO_TIME;
      memory := map[];
    }

    // ---------- Building blocks ----------

    /**
     Looks a room up, as chat, speaker and overload requests also do; what is found is the room object
     that is now at the head of the cache.
     */
    method LookUp(id: string, now: int) returns (room: Option<VideoRoom>)
      requires Valid()
      modifies lruCache, lruCache.Footprint()
      ensures Valid() && Grows()
      ensures State() == old(State()).(cache := GetKey(old(State()).cache, id, now))
      ensures room.None? <==> M.Found(old(State()), id).None?
      ensures room.Some? ==>
                && AtHead(room.value, id, now)
                && M.Found(old(State()), id) == Some(room.value.Value())
    {
      hide ReactiveLruCache.Valid, BitmappedTimeWheel.Valid;
      ImageGet(lruCache.Contents, memory, id, now);
      ImageLookup(lruCache.Contents, memory, id);
      room := lruCache.Get(id, now);
    }

    ghost predicate AtHead(room: VideoRoom, id: string, now: int)
      reads this, lruCache
    {
      && lruCache.Contents != [] && lruCache.Contents[0] == Entry(id, room, now)
      && room in memory && room.roomID == id
    }

    /** Lets an event change the room that was just looked up. */
    method ChangeFound(room: VideoRoom, id: string, e: M.Event, now: int)
      requires Valid() && AtHead(room, id, now)
      modifies this`memory, room
      ensures Valid() && memory.Keys == old(memory.Keys)
      ensures room.Value() == M.Changed(old(room.Value()), now, e)
      ensures State() == old(State()).(cache :=
                SetKey(old(State()).cache, lruCache.capacity, id, M.Changed(old(room.Value()), now, e), now))
    {
      hide ReactiveLruCache.Valid, BitmappedTimeWheel.Valid;
      lruCache.ContentsWellFormed();
      ImagePoke(lruCache.Contents, memory, lruCache.capacity, room, M.Changed(room.Value(), now, e));
      room.Apply(e, now);
      memory := memory[room := room.Value()];
    }

    /** Lets an event change a room that is no longer cached; nobody else sees it. */
    method ChangeStale(room: VideoRoom, e: M.Event, now: int)
      requires Valid() && room in memory && M.Found(State(), room.roomID).None?
      modifies this`memory, room
      ensures Valid() && memory.Keys == old(memory.Keys)
      ensures room.Value() == M.Changed(old(room.Value()), now, e)
      ensures State() == old(State())
    {
      hide ReactiveLruCache.Valid, BitmappedTimeWheel.Valid;
      ImageLookup(lruCache.Contents, memory, room.roomID);
      ImageUnaffected(lruCache.Contents, memory, room, M.Changed(room.Value(), now, e));
      room.Apply(e, now);
      memory := memory[room := room.Value()];
    }

    /** Creates a room object and puts it into the cache; the evicted id is ignored. */
    method StoreRoom(id: string, maxPeers: int, createdAt: int, updatedAt: int, now: int)
      requires Valid()
      modifies this`memory, lruCache, lruCache.Footprint()
      ensures Valid() && Grows()
      ensures State() == old(State()).(cache :=
                SetKey(old(State()).cache, lruCache.capacity, id,
                       M.Room(maxPeers, false, {}, createdAt, updatedAt, map[]), now))
    {
      hide ReactiveLruCache.Valid, BitmappedTimeWheel.Valid;
      var room := new VideoRoom(id, maxPeers, createdAt, updatedAt);
      Remember(room);
      Store(room, now);
    }

    method Store(room: VideoRoom, now: int)
      requires Valid() && room in memory
      modifies lruCache, lruCache.Footprint()
      ensures Valid() && Grows()
      ensures State() == old(State()).(cache :=
                SetKey(old(State()).cache, lruCache.capacity, room.roomID, old(room.Value()), now))
    {
      hide ReactiveLruCache.Valid, BitmappedTimeWheel.Valid;
      ImageSet(lruCache.Contents, memory, lruCache.capacity, room, now);
      var _ := lruCache.Set(room.roomID, room, now);
    }

    ghost method Remember(room: VideoRoom)
      requires Valid() && room !in memory
      modifies this`memory
      ensures Valid() && memory == old(memory)[room := room.Value()] && State() == old(State())
    {
      hide ReactiveLruCache.Valid, BitmappedTimeWheel.Valid;
      RememberNew(lruCache.Contents, memory, room, room.Value());
      memory := memory[room := room.Value()];
    }

    method DropRoom(id: string)
      requires Valid()
      modifies lruCache, lruCache.Footprint()
      ensures Valid() && Grows()
      ensures State() == old(State()).(cache := Without(old(State()).cache, id))
    {
      hide ReactiveLruCache.Valid, BitmappedTimeWheel.Valid;
      ImageWithout(lruCache.Contents, memory, id);
      lruCache.Remove(id);
    }

    method AddToWheel(id: string, minutes: nat)
      requires Valid()
      modifies wheel, wheel.slots
      ensures Valid()
      ensures State() == old(State()).(wheel := Schedule.AddKey(old(State()).wheel, id, minutes))
    {
      assert wheel.pointer >= 0;
      hide ReactiveLruCache.Valid, BitmappedTimeWheel.Valid;
      var _ := wheel.Add(id, minutes);
    }

    method RemoveFromWheel(id: string)
      requires Valid()
      modifies wheel, wheel.slots
      ensures Valid()
      ensures State() == old(State()).(wheel := Schedule.RemoveKey(old(State()).wheel, id))
    {
      hide ReactiveLruCache.Valid, BitmappedTimeWheel.Valid;
      wheel.Remove(id);
    }

    method Put(id: string, peers: map<string, bool>)
      requires Valid()
      modifies this`conns
      ensures Valid()
      ensures State() == old(State()).(conns := old(State()).conns[id := peers])
    {
      hide ReactiveLruCache.Valid, BitmappedTimeWheel.Valid;
      conns := conns[id := peers];
    }

    method SetPending(ids: seq<string>)
      requires Valid()
      modifies this`expiredRoomIDs
      ensures Valid()
      ensures State() == old(State()).(pending := ids)
    {
      hide ReactiveLruCache.Valid, BitmappedTimeWheel.Valid;
      expiredRoomIDs := ids;
    }

    method SetClosing(id: Option<string>)
      requires Valid()
      modifies this`closing
      ensures Valid()
      ensures State() == old(State()).(closing := id)
    {
      hide ReactiveLruCache.Valid, BitmappedTimeWheel.Valid;
      closing := id;
    }

    /** A connection leaves the table, if the room still has a row there. */
    method HangUp(id: string, peer: string)
      requires Valid()
      modifies this`conns
      ensures Valid()
      ensures State() == S.HangUpStep(old(State()), id, peer)
    {
      hide Valid, State;
      StateFields();
      if id in conns { Put(id, conns[id] - {peer}); }
    }

    // ---------- The events ----------

    /** The admission part of the session handler, up to the first release of the lock. */
    method Connect(id: string, peer: string, isModerator: bool, now: int) returns (outcome: M.Outcome)
      requires Valid()
      modifies this`conns, this`memory, lruCache, lruCache.Footprint(), wheel, wheel.slots
      ensures Valid() && Grows()
      ensures State() == M.Step(old(State()), now, M.Connect(id, peer, isModerator))
      ensures outcome == M.Admission(old(State()), id, peer, isModerator)
    {
      hide Valid, State, M.Step, M.LazyRoom, M.HasModerator;
      StateFields();
      S.EntryStepByStep(State(), now, M.Connect(id, peer, isModerator));
      var peers := PeersOf(id)[peer := isModerator];
      var connected := |PeersOf(id)|;
      var found := LookUp(id, now);
      if found.Some? && connected >= found.value.maxPeers {
        return M.Full;
      }
      Seat(id, peers, found.None?, now);
      var hasActiveModerator := AnyModerator(peers);
      outcome := if !isModerator && (found.None? || !hasActiveModerator) then M.Waiting else M.Admitted;
    }

    /** Enters the connection, and creates the room when there is none. */
    method Seat(id: string, peers: map<string, bool>, create: bool, now: int)
      requires Valid()
      modifies this`conns, this`memory, lruCache, lruCache.Footprint(), wheel, wheel.slots
      ensures Valid() && Grows()
      ensures var s := old(State()).(conns := old(State()).conns[id := peers]);
              State() == if create
                then S.AddStep(S.StoreStep(s, now, id, M.LazyRoom(now)), id, M.DEFAULT_MINUTES) else s
    {
      hide Valid, State;
      StateFields();
      Put(id, peers);
      if create {
        CreateLazily(id, now);
      }
    }

    method CreateLazily(id: string, now: int)
      requires Valid()
      modifies this`memory, lruCache, lruCache.Footprint(), wheel, wheel.slots
      ensures Valid() && Grows()
      ensures State() == old(State()).(
                cache := SetKey(old(State()).cache, lruCache.capacity, id, M.LazyRoom(now), now),
                wheel := Schedule.AddKey(old(State()).wheel, id, M.DEFAULT_MINUTES))
    {
      hide Valid, State;
      StoreRoom(id, M.DEFAULT_PEERS, now, now + M.DEFAULT_MINUTES * M.MINUTE, now);
      AddToWheel(id, M.DEFAULT_MINUTES);
    }

    function PeersOf(id: string): map<string, bool>
      reads this`conns
    {
      if id in conns then conns[id] else map[]
    }

    static method AnyModerator(peers: map<string, bool>) returns (any: bool)
      ensures any == M.HasModerator(peers)
    {
      var rest := peers.Keys;
      while rest != {}
        invariant forall p | p in peers && p !in rest :: !peers[p]
        decreases rest
      {
        var p :| p in rest;
        if p in peers && peers[p] {
          return true;
        }
        rest := rest - {p};
      }
      return false;
    }

    /** A guest who waits for the moderator hangs up. */
    method EndWaiting(id: string, peer: string, now: int)
      requires Valid()
      modifies this`conns
      ensures Valid()
      ensures State() == M.Step(old(State()), now, M.WaiterGone(id, peer))
    {
      hide Valid, State, M.Step;
      S.StepByStep(State(), now, M.WaiterGone(id, peer));
      HangUp(id, peer);
    }

    /** The deferred clean-up of a session. */
    method Leave(id: string, peer: string, now: int)
      requires Valid()
      modifies this`conns, this`memory, lruCache, lruCache.Footprint(), memory.Keys
      ensures Valid() && Grows()
      ensures State() == M.Step(old(State()), now, M.Leave(id, peer))
    {
      hide Valid, State, M.Step;
      ghost var s := State();
      HangUp(id, peer);
      var found := LookUp(id, now);
      if found.Some? {
        ChangeFound(found.value, id, M.Leave(id, peer), now);
      }
      S.StepByStep(s, now, M.Leave(id, peer));
    }

    /** A join frame: register the peer and, from a moderator, calibrate the limits. */
    method Join(id: string, peer: string, isModerator: bool, limit: Option<int>, minutes: Option<int>, now: int)
      requires Valid()
      modifies this`memory, lruCache, lruCache.Footprint(), memory.Keys, wheel, wheel.slots
      ensures Valid() && Grows()
      ensures State() == M.Step(old(State()), now, M.Join(id, peer, isModerator, limit, minutes))
    {
      hide Valid, State, M.Step;
      ghost var s := State();
      var e := M.Join(id, peer, isModerator, limit, minutes);
      var found := LookUp(id, now);
      if found.Some? {
        ChangeFound(found.value, id, e, now);
        if isModerator && minutes.Some? && 1 <= minutes.value <= 300 {
          Reschedule(id, minutes.value);
        }
      }
      S.EntryStepByStep(s, now, e);
    }

    /** Takes the id off its lowest slot and puts it so many minutes ahead. */
    method Reschedule(id: string, minutes: nat)
      requires Valid()
      modifies wheel, wheel.slots
      ensures Valid()
      ensures State() == old(State()).(wheel :=
                Schedule.AddKey(Schedule.RemoveKey(old(State()).wheel, id), id, minutes))
    {
      hide Valid, State;
      RemoveFromWheel(id);
      AddToWheel(id, minutes);
    }

    /** SET_PAUSE and the mute commands; `room` is the room object the handler saw last. */
    method Command(id: string, code: int, room: VideoRoom, now: int)
      requires Valid() && room in memory && room.roomID == id
      modifies this`memory, lruCache, lruCache.Footprint(), memory.Keys, wheel, wheel.slots
      ensures Valid() && Grows()
      ensures State() == M.Step(old(State()), now, M.Command(id, code, old(room.Value())))
    {
      hide Valid, State, M.Step;
      ghost var s := State();
      var e := M.Command(id, code, room.Value());
      var current := FlipState(id, room, e, now);
      if code == M.PAUSE_CODE {
        Reschedule(id, if current.isPaused then 300 else M.RemainingMinutes(current.updatedAt, now));
      }
      S.CommandStepByStep(s, now, id, code, e.stale);
    }

    /** Applies a command to the cached room, or to the handler's own one when there is none. */
    method FlipState(id: string, room: VideoRoom, e: M.Event, now: int) returns (current: VideoRoom)
      requires Valid() && room in memory && room.roomID == id && e.Command? && e.id == id && e.stale == room.Value()
      modifies this`memory, lruCache, lruCache.Footprint(), memory.Keys
      ensures Valid() && Grows()
      ensures var s := old(State());
              && State() == S.ChangeStep(s, now, id, e)
              && current.Value() == M.CommandRoom(
                   if M.Found(s, id).Some? then M.Found(s, id).value else old(room.Value()), e.code, now)
    {
      hide Valid, State;
      var found := LookUp(id, now);
      if found.Some? {
        current := found.value;
        ChangeFound(current, id, e, now);
      } else {
        current := room;
        ChangeStale(room, e, now);
      }
    }

    /** RESUME_CONFERENCE. */
    method Resume(id: string, now: int)
      requires Valid()
      modifies this`memory, lruCache, lruCache.Footprint(), memory.Keys, wheel, wheel.slots
      ensures Valid() && Grows()
      ensures State() == M.Step(old(State()), now, M.Resume(id))
    {
      hide Valid, State, M.Step, M.ResumeRoom, M.RemainingMinutes;
      ghost var s := State();
      var found := LookUp(id, now);
      if found.Some? {
        var wasPaused := found.value.isPaused;
        ChangeFound(found.value, id, M.Resume(id), now);
        if wasPaused {
          Reschedule(id, M.RemainingMinutes(found.value.updatedAt, now));
        }
      }
      S.StepByStep(s, now, M.Resume(id));
    }

    method CreateRoom(id: string, maxPeers: int, now: int)
      requires Valid()
      modifies this`conns, this`memory, lruCache, lruCache.Footprint(), wheel, wheel.slots
      ensures Valid() && Grows()
      ensures State() == M.Step(old(State()), now, M.Create(id, maxPeers))
    {
      hide Valid, State, M.Step;
      ghost var s := State();
      StateFields();
      Put(id, PeersOf(id));
      StoreRoom(id, maxPeers, now, M.ZERO_TIME, now);
      AddToWheel(id, M.DEFAULT_MINUTES);
      S.StepByStep(s, now, M.Create(id, maxPeers));
    }

    method ExtendRoomDuration(id: string, extendMinutes: int, now: int) returns (extended: bool)
      requires Valid()
      requires var room := M.Found(State(), id);
               room.Some? && !M.ExtensionRefused(room.value, extendMinutes, now) ==>
                 Schedule.Reaches(State().wheel.pointer, extendMinutes)
      modifies lruCache, lruCache.Footprint(), wheel, wheel.slots
      ensures Valid() && Grows()
      ensures State() == M.Step(old(State()), now, M.Extend(id, extendMinutes))
      ensures extended <==> M.Found(old(State()), id).Some?
                            && !M.ExtensionRefused(M.Found(old(State()), id).value, extendMinutes, now)
    {
      hide Valid, State, M.Step;
      S.StepByStep(State(), now, M.Extend(id, extendMinutes));
      var found := LookUp(id, now);
      if found.None? || M.WholeMinutes(now - found.value.createdAt) + extendMinutes >= 300 {
        return false;
      }
      MoveOnWheel(id, extendMinutes);
      return true;
    }

    method MoveOnWheel(id: string, minutes: int)
      requires Valid() && Schedule.Reaches(State().wheel.pointer, minutes)
      modifies wheel, wheel.slots
      ensures Valid()
      ensures State() == old(State()).(wheel := Schedule.MoveKey(old(State()).wheel, id, minutes))
    {
      hide ReactiveLruCache.Valid, BitmappedTimeWheel.Valid;
      var _ := wheel.Move(id, minutes);
    }

    method ForceCloseRoom(id: string, now: int)
      requires Valid()
      modifies this`conns, lruCache, lruCache.Footprint(), wheel, wheel.slots
      ensures Valid() && Grows()
      ensures State() == M.Step(old(State()), now, M.ForceClose(id))
    {
      hide Valid, State, M.Step;
      ghost var s := State();
      DropRoom(id);
      DropConns(id);
      RemoveFromWheel(id);
      S.StepByStep(s, now, M.ForceClose(id));
    }

    method DropConns(id: string)
      requires Valid()
      modifies this`conns
      ensures Valid()
      ensures State() == old(State()).(conns := old(State()).conns - {id})
    {
      hide ReactiveLruCache.Valid, BitmappedTimeWheel.Valid;
      conns := conns - {id};
    }

    // ---------- The janitor ----------

    /** The janitor turns the wheel, before it takes the shard lock. */
    method Rotate(now: int)
      requires Valid() && expiredRoomIDs == [] && closing.None?
      modifies this`expiredRoomIDs, this`janitorNow, wheel, wheel.slots
      ensures Valid()
      ensures M.Enabled(old(State()), M.Rotate(expiredRoomIDs, now))
      ensures State() == M.Step(old(State()), now, M.Rotate(expiredRoomIDs, now))
    {
      hide ReactiveLruCache.Valid, BitmappedTimeWheel.Valid, M.Step;
      ghost var s := State();
      var ids, _ := wheel.Tick();
      expiredRoomIDs, janitorNow := ids, now;
      S.StepByStep(s, now, M.Rotate(ids, now));
    }

    /** One id under the lock: decide to close the room, or put it back for one minute. */
    method Examine(now: int)
      requires Valid() && expiredRoomIDs != [] && closing.None?
      modifies this`expiredRoomIDs, this`closing, lruCache, lruCache.Footprint(), wheel, wheel.slots
      ensures Valid() && Grows()
      ensures State() == M.Step(old(State()), now, M.Examine)
    {
      hide Valid, State, M.Step;
      ghost var s := State();
      StateFields();
      var id := expiredRoomIDs[0];
      var found := LookUp(id, now);
      if found.Some? {
        if found.value.peers == {} || janitorNow >= found.value.updatedAt {
          SetClosing(Some(id));
        } else {
          AddToWheel(id, 1);
        }
      }
      SetPending(expiredRoomIDs[1..]);
      S.StepByStep(s, now, M.Examine);
    }

    /** The lock is taken again after the broadcast, and the room goes. */
    method FinishClose(now: int)
      requires Valid() && closing.Some?
      modifies this`conns, this`closing, lruCache, lruCache.Footprint()
      ensures Valid() && Grows()
      ensures State() == M.Step(old(State()), now, M.FinishClose)
    {
      hide Valid, State, M.Step;
      ghost var s := State();
      StateFields();
      var id := closing.value;
      DropRoom(id);
      DropConns(id);
      SetClosing(None);
      S.StepByStep(s, now, M.FinishClose);
    }

    /** The janitor's whole round when nothing interferes. */
    method TickTimeWheelCascade(now: int) returns (order: seq<string>)
      requires Valid() && expiredRoomIDs == [] && closing.None?
      modifies this`conns, this`expiredRoomIDs, this`closing, this`janitorNow
      modifies lruCache, lruCache.Footprint(), wheel, wheel.slots
      ensures Valid() && Grows()
      ensures M.Enabled(old(State()), M.Rotate(order, now))
      ensures State() == D.Cascade(old(State()), order, now)
    {
      hide Valid, State, M.Step;
      StateFields();
      Rotate(now);
      order := expiredRoomIDs;
      StateFields();
      ghost var rotated := State();
      while expiredRoomIDs != []
        invariant Valid() && Grows()
        invariant State().closing.None? && State().pending == expiredRoomIDs && State().closing == closing
        invariant D.Drain(State(), now) == D.Drain(rotated, now)
        decreases |expiredRoomIDs|
      {
        ProcessNext(now);
        StateFields();
      }
    }

    /** Examines the next id and, if its room is to be closed, closes it at once. */
    method ProcessNext(now: int)
      requires Valid() && expiredRoomIDs != [] && closing.None?
      modifies this`conns, this`expiredRoomIDs, this`closing
      modifies lruCache, lruCache.Footprint(), wheel, wheel.slots
      ensures Valid() && Grows()
      ensures State().closing.None? && State().pending == old(State()).pending[1..]
      ensures old(State()).closing.None? && D.Drain(State(), now) == D.Drain(old(State()), now)
    {
      hide Valid, State;
      StateFields();
      Examine(now);
      StateFields();
      if closing.Some? {
        FinishClose(now);
      }
    }
  }
}
