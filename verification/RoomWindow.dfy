/**
 The janitor's window: while it broadcasts that a room is being closed, it has released the lock, and
 sessions can still reach the room. What they can change about it is decided exactly here.
 */
module RoomWindow {
  import opened Wrappers
  import opened RoomMachine
  import opened RoomCases
  import opened RoomWatch
  import Schedule

  // ---------- Coming back to life ----------

  /**
   The events that give an expired room a peer and a deadline after the time `at`: a join, and the two
   ways to end a pause. The conditions are those under which the handlers change the room.
   */
  predicate Revives(room: Room, now: int, e: Event, at: int) {
    match e
    case Join(_, _, isModerator, _, minutes) =>
      (if isModerator && ValidMinutes(minutes) then now + minutes.value * MINUTE else room.updatedAt) > at
    case Command(_, code, _) =>
      code == PAUSE_CODE && On(room.states, code) && room.peers != {} && room.updatedAt + (now - room.createdAt) > at
    case Resume(_) =>
      room.isPaused && room.peers != {} && room.updatedAt + (now - room.createdAt) > at
    case _ => false
  }

  /** Exactly these events make an expired room live. */
  lemma RevivalIsExact(room: Room, now: int, e: Event, at: int)
    requires Expired(room, at)
    ensures !Expired(Changed(room, now, e), at) <==> Revives(room, now, e, at)
  {
    if e.Join? {
      assert e.peer in Changed(room, now, e).peers;
    }
  }

  /** The event is addressed to the room. */
  predicate Names(e: Event, id: string) {
    !e.Rotate? && !e.Examine? && !e.FinishClose? && e.id == id
  }

  predicate Revived(s: Shard, b: Timed, id: string, at: int) {
    Names(b.event, id) && Found(s, id).Some? && Revives(Found(s, id).value, b.now, b.event, at)
  }

  predicate NeverRevived(s: Shard, run: seq<Timed>, id: string, at: int)
    requires Legal(s, run)
    decreases |run|
  {
    run == [] ||
    (!Revived(s, run[0], id, at) && NeverRevived(Step(s, run[0].now, run[0].event), run[1..], id, at))
  }

  /** Judged at the time `at`, closing the room takes no live room away. */
  predicate Closable(s: Shard, id: string, at: int) {
    Found(s, id).Some? ==> Expired(Found(s, id).value, at)
  }

  predicate StaysClosable(s: Shard, run: seq<Timed>, id: string, at: int)
    requires Legal(s, run)
    decreases |run|
  {
    Closable(s, id, at) && (run == [] || StaysClosable(Step(s, run[0].now, run[0].event), run[1..], id, at))
  }

  /** A closable room stays so in one step, even when it is evicted and created anew, unless it is revived. */
  lemma StepClosable(s: Shard, b: Timed, id: string, at: int)
    requires WellFormed(s) && Enabled(s, b.event) && Closable(s, id, at)
    ensures Closable(Step(s, b.now, b.event), id, at) <==> !Revived(s, b, id, at)
  {
    FoundAfter(s, b.now, b.event, id);
    if Found(s, id).Some? {
      RevivalIsExact(Found(s, id).value, b.now, b.event, at);
    }
  }

  /** However long the window: the room is closable whenever it ends, if and only if no event revives it. */
  lemma {:induction false} WindowIsExact(s: Shard, run: seq<Timed>, id: string, at: int)
    requires WellFormed(s) && Legal(s, run) && Closable(s, id, at)
    ensures StaysClosable(s, run, id, at) <==> NeverRevived(s, run, id, at)
    decreases |run|
  {
    if run != [] {
      StepClosable(s, run[0], id, at);
      if !Revived(s, run[0], id, at) {
        StepWellFormed(s, run[0].now, run[0].event);
        WindowIsExact(Step(s, run[0].now, run[0].event), run[1..], id, at);
      }
    }
  }

  /** The window opens on a closable room, and stays open until the janitor comes back. */
  lemma WindowOpens(s: Shard, now: int, id: string, at: int)
    requires WellFormed(s) && Enabled(s, Examine) && Step(s, now, Examine).closing == Some(id) && at >= s.janitorNow
    ensures WellFormed(Step(s, now, Examine)) && Closable(Step(s, now, Examine), id, at)
  {
    StepWellFormed(s, now, Examine);
    FoundAfter(s, now, Examine, id);
  }

  lemma {:induction false} WindowStaysOpen(s: Shard, run: seq<Timed>)
    requires WellFormed(s) && Legal(s, run) && s.closing.Some?
    requires forall b | b in run :: !b.event.FinishClose?
    ensures WellFormed(Run(s, run)) && Run(s, run).closing == s.closing
    decreases |run|
  {
    if run != [] {
      assert run[0] in run;
      StepWellFormed(s, run[0].now, run[0].event);
      WindowStaysOpen(Step(s, run[0].now, run[0].event), run[1..]);
    }
  }

  /**
   The janitor closes a room that is live at the time `at` in some course of the window, that is after
   some beginning of the run, if and only if some event of the run revives the room.
   */
  lemma ClosesLiveRoomIffRevived(s: Shard, now: int, run: seq<Timed>, id: string, at: int)
    requires WellFormed(s) && Enabled(s, Examine) && Step(s, now, Examine).closing == Some(id) && at >= s.janitorNow
    requires Legal(Step(s, now, Examine), run) && forall b | b in run :: !b.event.FinishClose?
    ensures var t := Step(s, now, Examine);
            (exists k :: 0 <= k <= |run| && TakesLiveRoom(t, run, k, id, at)) <==> !NeverRevived(t, run, id, at)
  {
    var t := Step(s, now, Examine);
    WindowOpens(s, now, id, at);
    WindowIsExact(t, run, id, at);
    StaysClosableAt(t, run, id, at);
    forall k | 0 <= k <= |run| ensures TakesLiveRoom(t, run, k, id, at) <==> !ClosableAt(t, run, k, id, at) {
      Beginning(t, run, k);
      WindowStaysOpen(t, run[..k]);
      var u := Run(t, run[..k]);
      FoundAfter(u, at, FinishClose, id);
    }
  }

  predicate ClosableAt(s: Shard, run: seq<Timed>, k: nat, id: string, at: int)
    requires Legal(s, run) && k <= |run|
  {
    Beginning(s, run, k);
    Closable(Run(s, run[..k]), id, at)
  }

  /** If the janitor comes back after k events, it removes a room that is not expired at the time `at`. */
  predicate TakesLiveRoom(s: Shard, run: seq<Timed>, k: nat, id: string, at: int)
    requires Legal(s, run) && k <= |run|
  {
    Beginning(s, run, k);
    var u := Run(s, run[..k]);
    && Found(u, id).Some? && !Expired(Found(u, id).value, at)
    && Enabled(u, FinishClose) && Found(Step(u, at, FinishClose), id).None?
  }

  lemma {:induction false} Beginning(s: Shard, run: seq<Timed>, k: nat)
    requires Legal(s, run) && k <= |run|
    ensures Legal(s, run[..k])
    decreases |run|
  {
    if k > 0 {
      assert run[..k][1..] == run[1..][..k - 1];
      Beginning(Step(s, run[0].now, run[0].event), run[1..], k - 1);
    }
  }

  lemma {:induction false} StaysClosableAt(s: Shard, run: seq<Timed>, id: string, at: int)
    requires Legal(s, run)
    ensures StaysClosable(s, run, id, at) <==> forall k | 0 <= k <= |run| :: ClosableAt(s, run, k, id, at)
    decreases |run|
  {
    assert run[..0] == [];
    if run == [] {
      assert ClosableAt(s, run, 0, id, at) <==> Closable(s, id, at);
    } else {
      var t := Step(s, run[0].now, run[0].event);
      StaysClosableAt(t, run[1..], id, at);
      assert ClosableAt(s, run, 0, id, at) <==> Closable(s, id, at);
      forall k | 1 <= k <= |run| ensures ClosableAt(s, run, k, id, at) <==> ClosableAt(t, run[1..], k - 1, id, at) {
        assert run[..k][1..] == run[1..][..k - 1];
      }
      if forall k | 0 <= k <= |run| :: ClosableAt(s, run, k, id, at) {
        forall k | 0 <= k <= |run[1..]| ensures ClosableAt(t, run[1..], k, id, at) {
          assert ClosableAt(s, run, k + 1, id, at);
        }
      }
    }
  }

  // ---------- It happens ----------

  /** The tick that reports the single entry, while the room is empty: the janitor opens the window. */
  lemma EmptyRoomReported(s: Shard, now: int, id: string) returns (t: Shard)
    requires Quiet(s, id, 0) && Found(s, id).Some? && Found(s, id).value.peers == {}
    ensures Enabled(s, Rotate([id], now)) && Enabled(Step(s, now, Rotate([id], now)), Examine)
    ensures t == Step(Step(s, now, Rotate([id], now)), now, Examine)
    ensures WellFormed(t) && t.closing == Some(id) && Found(t, id) == Found(s, id)
  {
    Schedule.SoleFront(s.wheel, id);
    var e := Rotate([id], now);
    var u := Step(s, now, e);
    FoundAfter(s, now, e, id);
    FoundAfter(u, now, Examine, id);
    StepWellFormed(s, now, e);
    StepWellFormed(u, now, Examine);
    t := Step(u, now, Examine);
  }

  /** A room opened for a minute, which its moderator has left and a guest has not joined yet. */
  lemma Deserted(capacity: int, id: string, moderator: string, guest: string) returns (run: seq<Timed>, s: Shard)
    requires capacity >= 1
    ensures Legal(Initial(capacity), run) && s == Run(Initial(capacity), run) && Quiet(s, id, 0)
    ensures Found(s, id).Some? && Found(s, id).value.peers == {} && Found(s, id).value.updatedAt == MINUTE
  {
    var s0 := Initial(capacity);
    var s1 := Opened(capacity, 0, id, moderator);
    StaysQuiet(s1, 0, Connect(id, guest, false), id, 29);
    var s2 := Step(s1, 0, Connect(id, guest, false));
    var s3 := Calibrated(s2, 0, id, moderator, 1, 29);
    StaysQuiet(s3, 0, Leave(id, moderator), id, 0);
    s := Step(s3, 0, Leave(id, moderator));
    hide Step, Enabled;
    run := [];
    run := Then(s0, run, s0, 0, Connect(id, moderator, true));
    run := Then(s0, run, s1, 0, Connect(id, guest, false));
    run := Then(s0, run, s2, 0, Join(id, moderator, true, None, Some(1)));
    run := Then(s0, run, s3, 0, Leave(id, moderator));
  }

  /**
   The moderator of a room with one minute to go leaves; at the next tick the empty room is to be
   closed; the join frame of a guest who was admitted before arrives in the window. The guest's room
   is live, and is closed.
   */
  lemma GuestLosesRoom(capacity: int, id: string, moderator: string, guest: string) returns (run: seq<Timed>)
    requires capacity >= 1 && moderator != guest
    ensures Legal(Initial(capacity), run) && run != [] && run[|run| - 1] == At(1, FinishClose)
    ensures Legal(Initial(capacity), run[..|run| - 1])
    ensures var s := Run(Initial(capacity), run[..|run| - 1]);
            && Found(s, id).Some? && Found(s, id).value.peers == {guest} && Found(s, id).value.updatedAt == MINUTE
            && Found(Run(Initial(capacity), run), id).None?
  {
    var s0 := Initial(capacity);
    var before, s := Deserted(capacity, id, moderator, guest);
    var t := EmptyRoomReported(s, 1, id);
    var e := Join(id, guest, false, None, None);
    var u := JoinedTooLate(t, 1, id, guest);
    hide Step, Enabled;
    before := Then(s0, before, s, 1, Rotate([id], 1));
    before := Then(s0, before, Step(s, 1, Rotate([id], 1)), 1, Examine);
    before := Then(s0, before, t, 1, e);
    run := Then(s0, before, u, 1, FinishClose);
    assert run[..|run| - 1] == before;
  }

  /** A guest's join frame in the window, before the janitor comes back. */
  lemma JoinedTooLate(s: Shard, now: int, id: string, guest: string) returns (t: Shard)
    requires WellFormed(s) && s.closing == Some(id) && Found(s, id).Some?
    ensures Enabled(s, Join(id, guest, false, None, None)) && t == Step(s, now, Join(id, guest, false, None, None))
    ensures Found(t, id) == Some(Found(s, id).value.(peers := Found(s, id).value.peers + {guest}))
    ensures Enabled(t, FinishClose) && Found(Step(t, now, FinishClose), id).None?
  {
    var e := Join(id, guest, false, None, None);
    t := Step(s, now, e);
    FoundAfter(s, now, e, id);
    StepWellFormed(s, now, e);
    FoundAfter(t, now, FinishClose, id);
  }

  // ---------- Connections, and the end of the round ----------

  /** Who connects in the window, and is not turned away, loses the connection when the janitor comes back. */
  lemma ConnectedTooLate(s: Shard, now: int, id: string, peer: string, isModerator: bool, later: int)
    requires s.closing == Some(id) && !Admission(s, id, peer, isModerator).Full?
    ensures var t := Step(s, now, Connect(id, peer, isModerator));
            peer in Peers(t, id) && Enabled(t, FinishClose) && Peers(Step(t, later, FinishClose), id) == map[]
  {
  }

  /** At some moment of the run the room is not cached. */
  predicate Gone(s: Shard, run: seq<Timed>, id: string)
    requires Legal(s, run)
    decreases |run|
  {
    Found(s, id).None? || (run != [] && Gone(Step(s, run[0].now, run[0].event), run[1..], id))
  }

  predicate Creates(e: Event, id: string) {
    (e.Connect? || e.Create?) && e.id == id
  }

  /**
   The interleaved round: a reported room that is expired, and that no event revives before the janitor
   is done, is gone by then, and if nobody creates it anew it stays so.
   */
  lemma {:induction false} ReportedRoomIsClosed(s: Shard, run: seq<Timed>, id: string)
    requires WellFormed(s) && Legal(s, run) && (id in s.pending || s.closing == Some(id))
    requires Closable(s, id, s.janitorNow) && NeverRevived(s, run, id, s.janitorNow)
    requires forall b | b in run :: !b.event.Rotate?
    requires Run(s, run).pending == [] && Run(s, run).closing.None?
    ensures Gone(s, run, id)
    ensures (forall b | b in run :: !Creates(b.event, id)) ==> Found(Run(s, run), id).None?
    decreases |run|
  {
    var b := run[0];
    assert b in run;
    var t := Step(s, b.now, b.event);
    FoundAfter(s, b.now, b.event, id);
    StepWellFormed(s, b.now, b.event);
    StepClosable(s, b, id, s.janitorNow);
    if id in t.pending || t.closing == Some(id) {
      ReportedRoomIsClosed(t, run[1..], id);
    } else if forall b | b in run :: !Creates(b.event, id) {
      StaysGone(t, run[1..], id);
    }
  }

  lemma {:induction false} StaysGone(s: Shard, run: seq<Timed>, id: string)
    requires WellFormed(s) && Legal(s, run) && Found(s, id).None? && forall b | b in run :: !Creates(b.event, id)
    ensures Found(Run(s, run), id).None?
    decreases |run|
  {
    if run != [] {
      assert run[0] in run;
      FoundAfter(s, run[0].now, run[0].event, id);
      StepWellFormed(s, run[0].now, run[0].event);
      StaysGone(Step(s, run[0].now, run[0].event), run[1..], id);
    }
  }
}
