/** Particular runs of the room machine, built step by step, that show where its guarantees end. */
module RoomCases {
  import opened Wrappers
  import opened RoomMachine
  import opened RoomWatch
  import Schedule

  // ---------- A shard with one room ----------

  /** The shard waits for the next tick, and holds nothing but this wheel entry. */
  ghost predicate Quiet(s: Shard, id: string, i: nat) {
    WellFormed(s) && s.pending == [] && s.closing.None? && Schedule.Sole(s.wheel, id, i)
  }

  /** A moderator's first connection creates the room, with a single wheel entry. */
  lemma Opened(capacity: int, now: int, id: string, peer: string) returns (s: Shard)
    requires capacity >= 1
    ensures s == Step(Initial(capacity), now, Connect(id, peer, true))
    ensures Found(s, id) == Some(LazyRoom(now)) && Quiet(s, id, 29)
  {
    var e := Connect(id, peer, true);
    s := Step(Initial(capacity), now, e);
    StepWellFormed(Initial(capacity), now, e);
    FoundAfter(Initial(capacity), now, e, id);
    RunShort(Schedule.Empty(), WheelOps(Initial(capacity), now, e));
    Schedule.SoleAdded(id, DEFAULT_MINUTES);
  }

  /** A moderator's join frame moves the single entry. */
  lemma Calibrated(s: Shard, now: int, id: string, peer: string, minutes: int, i: nat) returns (t: Shard)
    requires Quiet(s, id, i) && i < Schedule.SLOTS && Found(s, id).Some? && 1 <= minutes <= 300
    ensures t == Step(s, now, Join(id, peer, true, None, Some(minutes)))
    ensures Found(t, id) == Some(JoinRoom(Found(s, id).value, peer, true, None, Some(minutes), now))
    ensures Quiet(t, id, minutes - 1)
  {
    var e := Join(id, peer, true, None, Some(minutes));
    t := Step(s, now, e);
    StepWellFormed(s, now, e);
    FoundAfter(s, now, e, id);
    RunShort(s.wheel, WheelOps(s, now, e));
    Schedule.SoleMoved(s.wheel, id, i, minutes);
  }

  /** A session's event that does not work the wheel. */
  lemma StaysQuiet(s: Shard, now: int, e: Event, id: string, i: nat)
    requires Quiet(s, id, i) && !e.Rotate? && !e.Examine? && !e.FinishClose? && WheelOps(s, now, e) == []
    ensures Quiet(Step(s, now, e), id, i) && Found(Step(s, now, e), id) == RoomAfter(s, now, e, id)
  {
    StepWellFormed(s, now, e);
    FoundAfter(s, now, e, id);
  }

  lemma Then(s: Shard, run: seq<Timed>, t: Shard, now: int, e: Event) returns (more: seq<Timed>)
    requires Legal(s, run) && t == Run(s, run) && Enabled(t, e)
    ensures more == run + [At(now, e)] && Legal(s, more) && Run(s, more) == Step(t, now, e)
  {
    RunAppend(s, run, now, e);
    more := run + [At(now, e)];
  }

  // ---------- What an evicted room leaves behind ----------

  /** Evicting a room leaves its wheel entries and its connections as they are. */
  lemma EvictionLeavesTraces(s: Shard, now: int, e: Event, id: string)
    requires WellFormed(s) && (e.Connect? || e.Create?) && e.id != id
    requires Found(s, id).Some? && Found(Step(s, now, e), id).None?
    ensures var t := Step(s, now, e);
            && Peers(t, id) == Peers(s, id)
            && (forall i | 0 <= i < Schedule.SLOTS :: id in t.wheel.due[i] <==> id in s.wheel.due[i])
  {
    FoundAfter(s, now, e, id);
    RunShort(s.wheel, WheelOps(s, now, e));
    if WheelOps(s, now, e) != [] {
      Schedule.OthersUntouched(s.wheel, WheelOps(s, now, e)[0], id);
    }
  }

  /** With room for one, a second room evicts the first, which keeps its entry and its connection. */
  lemma EvictionHappens(id: string, other: string, peer: string)
    requires id != other
    ensures var s := Step(Step(Initial(1), 0, Connect(id, peer, true)), 0, Connect(other, peer, true));
            Found(s, id).None? && id in s.wheel.due[29] && Peers(s, id) == map[peer := true]
  {
    var s := Opened(1, 0, id, peer);
    FoundAfter(s, 0, Connect(other, peer, true), id);
    FoundAfter(Initial(1), 0, Connect(id, peer, true), other);
    EvictionLeavesTraces(s, 0, Connect(other, peer, true), id);
  }
}
