/**
 What a cached room remembers, told by the events alone: who has joined, the limit, the flags and when
 it began. None of the statements below mentions how an event changes a room.
 */
module RoomHistory {
  import opened Wrappers
  import opened RoomMachine
  import opened RoomWatch
  import Recency

  /** The room is cached before, during and after the run. */
  predicate StaysCached(s: Shard, run: seq<Timed>, id: string)
    requires Legal(s, run)
    decreases |run|
  {
    Found(s, id).Some? && (run == [] || StaysCached(Step(s, run[0].now, run[0].event), run[1..], id))
  }

  /** How a room comes into the cache: by a first connection, or by CreateRoom, which also starts a cached room afresh. */
  lemma RoomIsBorn(s: Shard, now: int, e: Event, id: string)
    requires WellFormed(s) && Enabled(s, e) && Found(Step(s, now, e), id).Some?
    requires Found(s, id).None? || (e.Create? && e.id == id)
    ensures (e.Connect? || e.Create?) && e.id == id
    ensures var room := Found(Step(s, now, e), id).value;
            && room.peers == {} && !room.isPaused && (forall code :: !On(room.states, code))
            && room.createdAt == now
            && room.maxPeers == (if e.Connect? then 100 else e.maxPeers)
            && (e.Connect? ==> room.updatedAt == now + 30 * 60 * 1_000_000_000)
  {
    FoundAfter(s, now, e, id);
  }

  // ---------- Who has joined ----------

  predicate Joins(e: Event, id: string, peer: string) {
    e.Join? && e.id == id && e.peer == peer
  }

  /** The peer leaves, or CreateRoom puts a fresh room in the place of the old one. */
  predicate Leaves(e: Event, id: string, peer: string) {
    (e.Leave? && e.id == id && e.peer == peer) || (e.Create? && e.id == id)
  }

  predicate LeavesFrom(run: seq<Timed>, from: nat, id: string, peer: string) {
    exists j :: from <= j < |run| && Leaves(run[j].event, id, peer)
  }

  predicate JoinedSince(run: seq<Timed>, i: nat, id: string, peer: string)
    requires i < |run|
  {
    Joins(run[i].event, id, peer) && !LeavesFrom(run, i, id, peer)
  }

  /** A peer is in the room exactly when it has joined and not left since, or was there and never left. */
  predicate IsIn(was: bool, run: seq<Timed>, id: string, peer: string) {
    (exists i :: 0 <= i < |run| && JoinedSince(run, i, id, peer)) || (was && !LeavesFrom(run, 0, id, peer))
  }

  lemma IsInFirst(was: bool, run: seq<Timed>, id: string, peer: string)
    requires run != []
    ensures var e := run[0].event;
            IsIn(was, run, id, peer) <==> IsIn(Joins(e, id, peer) || (was && !Leaves(e, id, peer)), run[1..], id, peer)
  {
    var e, rest := run[0].event, run[1..];
    forall from: nat | 1 <= from <= |run| ensures LeavesFrom(run, from, id, peer) <==> LeavesFrom(rest, from - 1, id, peer) {
      LeavesShifted(run, from, id, peer);
    }
    assert LeavesFrom(run, 0, id, peer) <==> Leaves(e, id, peer) || LeavesFrom(run, 1, id, peer);
    if i :| 0 <= i < |run| && JoinedSince(run, i, id, peer) {
      if i > 0 { assert LeavesFrom(rest, i - 1, id, peer) <==> LeavesFrom(run, i, id, peer);
                 assert JoinedSince(rest, i - 1, id, peer); }
    }
    if i :| 0 <= i < |rest| && JoinedSince(rest, i, id, peer) {
      assert LeavesFrom(run, i + 1, id, peer) <==> LeavesFrom(rest, i, id, peer);
      assert JoinedSince(run, i + 1, id, peer);
    }
    if Joins(e, id, peer) && !LeavesFrom(rest, 0, id, peer) {
      assert JoinedSince(run, 0, id, peer);
    }
  }

  lemma LeavesShifted(run: seq<Timed>, from: nat, id: string, peer: string)
    requires 1 <= from <= |run|
    ensures LeavesFrom(run, from, id, peer) <==> LeavesFrom(run[1..], from - 1, id, peer)
  {
    if j :| from <= j < |run| && Leaves(run[j].event, id, peer) { assert Leaves(run[1..][j - 1].event, id, peer); }
    if j :| from - 1 <= j < |run[1..]| && Leaves(run[1..][j].event, id, peer) { assert Leaves(run[j + 1].event, id, peer); }
  }

  lemma StepPeers(s: Shard, b: Timed, id: string, peer: string)
    requires WellFormed(s) && Enabled(s, b.event)
    requires Found(s, id).Some? && Found(Step(s, b.now, b.event), id).Some?
    ensures peer in Found(Step(s, b.now, b.event), id).value.peers <==>
            Joins(b.event, id, peer) || (peer in Found(s, id).value.peers && !Leaves(b.event, id, peer))
  {
    FoundAfter(s, b.now, b.event, id);
  }

  /** So long as a room stays cached, those are in it who have joined and not left since. */
  lemma {:induction false} PeersAreWhoJoined(s: Shard, run: seq<Timed>, id: string, peer: string)
    requires WellFormed(s) && Legal(s, run) && StaysCached(s, run, id)
    ensures Found(Run(s, run), id).Some?
    ensures peer in Found(Run(s, run), id).value.peers <==> IsIn(peer in Found(s, id).value.peers, run, id, peer)
    decreases |run|
  {
    if run != [] {
      var t := Step(s, run[0].now, run[0].event);
      assert Found(t, id).Some?;
      StepWellFormed(s, run[0].now, run[0].event);
      StepPeers(s, run[0], id, peer);
      IsInFirst(peer in Found(s, id).value.peers, run, id, peer);
      PeersAreWhoJoined(t, run[1..], id, peer);
    }
  }

  // ---------- The limit ----------

  /** A moderator's join frame with a number from 1 to 100, or CreateRoom with any number. */
  predicate SetsLimit(e: Event, id: string) {
    || (e.Join? && e.id == id && e.isModerator && e.limit.Some? && 1 <= e.limit.value <= 100)
    || (e.Create? && e.id == id)
  }

  function LimitSet(e: Event, id: string): int
    requires SetsLimit(e, id)
  {
    if e.Join? then e.limit.value else e.maxPeers
  }

  predicate LastLimit(run: seq<Timed>, i: nat, id: string)
    requires i < |run|
  {
    SetsLimit(run[i].event, id) && forall j | i < j < |run| :: !SetsLimit(run[j].event, id)
  }

  /** The last limit that was set is in force, and without one the limit at the start. */
  predicate LimitIs(limit: int, before: int, run: seq<Timed>, id: string) {
    && (forall i | 0 <= i < |run| && LastLimit(run, i, id) :: limit == LimitSet(run[i].event, id))
    && ((forall i | 0 <= i < |run| :: !SetsLimit(run[i].event, id)) ==> limit == before)
  }

  lemma LimitFirst(limit: int, before: int, run: seq<Timed>, id: string)
    requires run != []
    requires LimitIs(limit, if SetsLimit(run[0].event, id) then LimitSet(run[0].event, id) else before, run[1..], id)
    ensures LimitIs(limit, before, run, id)
  {
    var rest := run[1..];
    forall i | 0 <= i < |run| && LastLimit(run, i, id) ensures limit == LimitSet(run[i].event, id) {
      if i > 0 {
        assert LastLimit(rest, i - 1, id) by {
          forall j | i - 1 < j < |rest| ensures !SetsLimit(rest[j].event, id) { assert rest[j] == run[j + 1]; }
        }
      } else {
        forall j | 0 <= j < |rest| ensures !SetsLimit(rest[j].event, id) { assert rest[j] == run[j + 1]; }
      }
    }
    if forall i | 0 <= i < |run| :: !SetsLimit(run[i].event, id) {
      forall j | 0 <= j < |rest| ensures !SetsLimit(rest[j].event, id) { assert rest[j] == run[j + 1]; }
    }
  }

  lemma StepLimit(s: Shard, b: Timed, id: string)
    requires WellFormed(s) && Enabled(s, b.event)
    requires Found(s, id).Some? && Found(Step(s, b.now, b.event), id).Some?
    ensures Found(Step(s, b.now, b.event), id).value.maxPeers ==
            if SetsLimit(b.event, id) then LimitSet(b.event, id) else Found(s, id).value.maxPeers
  {
    FoundAfter(s, b.now, b.event, id);
  }

  /** So long as a room stays cached, its limit is the last one that was set. A refused limit changes nothing. */
  lemma {:induction false} LimitIsLastSet(s: Shard, run: seq<Timed>, id: string)
    requires WellFormed(s) && Legal(s, run) && StaysCached(s, run, id)
    ensures Found(Run(s, run), id).Some?
    ensures LimitIs(Found(Run(s, run), id).value.maxPeers, Found(s, id).value.maxPeers, run, id)
    decreases |run|
  {
    if run != [] {
      var t := Step(s, run[0].now, run[0].event);
      assert Found(t, id).Some?;
      StepWellFormed(s, run[0].now, run[0].event);
      StepLimit(s, run[0], id);
      LimitIsLastSet(t, run[1..], id);
      LimitFirst(Found(Run(s, run), id).value.maxPeers, Found(s, id).value.maxPeers, run, id);
    }
  }

  // ---------- The flags, and the beginning ----------

  /** Whether a command with this code was given for the room an odd number of times. */
  predicate PressedOddly(run: seq<Timed>, id: string, code: int) {
    run != [] && Pressed(run[0].event, id, code) != PressedOddly(run[1..], id, code)
  }

  predicate Pressed(e: Event, id: string, code: int) {
    e.Command? && e.id == id && e.code == code
  }

  lemma StepFlips(s: Shard, b: Timed, id: string, code: int)
    requires WellFormed(s) && Enabled(s, b.event) && code != 0 && !(b.event.Create? && b.event.id == id)
    requires Found(s, id).Some? && Found(Step(s, b.now, b.event), id).Some?
    ensures On(Found(Step(s, b.now, b.event), id).value.states, code) ==
            (On(Found(s, id).value.states, code) != Pressed(b.event, id, code))
  {
    FoundAfter(s, b.now, b.event, id);
  }

  /** A mute flag is flipped by every command with its code, and by nothing else. */
  lemma {:induction false} MutesCountPresses(s: Shard, run: seq<Timed>, id: string, code: int)
    requires WellFormed(s) && Legal(s, run) && StaysCached(s, run, id) && code != 0
    requires forall b | b in run :: !(b.event.Create? && b.event.id == id)
    ensures Found(Run(s, run), id).Some?
    ensures On(Found(Run(s, run), id).value.states, code) ==
            (On(Found(s, id).value.states, code) != PressedOddly(run, id, code))
    decreases |run|
  {
    if run != [] {
      var t := Step(s, run[0].now, run[0].event);
      assert Found(t, id).Some? && run[0] in run;
      StepWellFormed(s, run[0].now, run[0].event);
      StepFlips(s, run[0], id, code);
      hide Step, On;
      MutesCountPresses(t, run[1..], id, code);
    }
  }

  /** When the room was last created or paused, and whether it is paused, after one more event. */
  function BeganAfter(began: int, paused: bool, b: Timed, id: string): (int, bool) {
    if b.event.Create? && b.event.id == id then (b.now, false)
    else if b.event.Resume? && b.event.id == id then (began, false)
    else if Pressed(b.event, id, 0) then (if paused then began else b.now, !paused)
    else (began, paused)
  }

  function Began(began: int, paused: bool, run: seq<Timed>, id: string): (int, bool)
    decreases |run|
  {
    if run == [] then (began, paused)
    else
      var (began', paused') := BeganAfter(began, paused, run[0], id);
      Began(began', paused', run[1..], id)
  }

  ghost predicate BeganAt(room: Room, began: (int, bool)) {
    room.createdAt == began.0 && room.isPaused == On(room.states, PAUSE_CODE) == began.1
  }

  lemma StepBegan(s: Shard, b: Timed, id: string, began: int, paused: bool)
    requires WellFormed(s) && Enabled(s, b.event)
    requires Found(s, id).Some? && Found(Step(s, b.now, b.event), id).Some?
    requires BeganAt(Found(s, id).value, (began, paused))
    ensures BeganAt(Found(Step(s, b.now, b.event), id).value, BeganAfter(began, paused, b, id))
  {
    FoundAfter(s, b.now, b.event, id);
  }

  /** So long as a room stays cached, its createdAt is when it was last created or paused. */
  lemma {:induction false} BeganIsKept(s: Shard, run: seq<Timed>, id: string, began: int, paused: bool)
    requires WellFormed(s) && Legal(s, run) && StaysCached(s, run, id)
    requires BeganAt(Found(s, id).value, (began, paused))
    ensures Found(Run(s, run), id).Some?
    ensures BeganAt(Found(Run(s, run), id).value, Began(began, paused, run, id))
    decreases |run|
  {
    if run != [] {
      var t := Step(s, run[0].now, run[0].event);
      assert Found(t, id).Some?;
      StepWellFormed(s, run[0].now, run[0].event);
      StepBegan(s, run[0], id, began, paused);
      hide Step, BeganAt, BeganAfter;
      var (began', paused') := BeganAfter(began, paused, run[0], id);
      BeganIsKept(t, run[1..], id, began', paused');
    }
  }

  // ---------- The order of the cache ----------

  /** The events that look a cached room up. */
  predicate LooksUp(s: Shard, e: Event, id: string)
    requires Enabled(s, e)
  {
    match e
    case Examine => s.pending[0] == id
    case Rotate(_, _) => false
    case FinishClose => false
    case WaiterGone(_, _) => false
    case ForceClose(_) => false
    case _ => e.id == id
  }

  /** A lookup makes a cached room the most recent one, as of now, and keeps the others in their order. */
  lemma LookUpRefreshes(s: Shard, now: int, e: Event, id: string)
    requires WellFormed(s) && Enabled(s, e) && LooksUp(s, e, id) && Found(s, id).Some?
    ensures var t := Step(s, now, e);
            && t.cache != [] && t.cache[0].key == id && t.cache[0].lastAccess == now
            && t.cache[1..] == Recency.Without(s.cache, id)
  {
    Recency.LookupMeansHasKey(s.cache, id);
  }

  /** Everything else leaves the order alone, but for the room it removes. */
  lemma OthersKeepOrder(s: Shard, now: int, e: Event)
    requires WellFormed(s) && Enabled(s, e)
    requires e.Rotate? || e.WaiterGone? || e.FinishClose? || e.ForceClose?
    ensures Step(s, now, e).cache ==
            if e.FinishClose? then Recency.Without(s.cache, s.closing.value)
            else if e.ForceClose? then Recency.Without(s.cache, e.id)
            else s.cache
  {
  }
}
