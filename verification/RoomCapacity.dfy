/** The capacity shield over whole runs: a room's connections never outgrow the limits in force. */
module RoomCapacity {
  import opened Numbers
  import opened Wrappers
  import opened RoomMachine

  /** How many connections a room has, waiting guests included. */
  function Connections(s: Shard, id: string): nat {
    |Peers(s, id)|
  }

  /**
   Who gets in: a full room turns everybody away, and a guest needs a room and a moderator in it. A
   guest who takes over the moderator's peer id does not count as one.
   */
  lemma AdmissionRule(s: Shard, id: string, peer: string, isModerator: bool)
    ensures var outcome, room, row := Admission(s, id, peer, isModerator), Found(s, id), Peers(s, id);
            && (outcome.Full? <==> room.Some? && |row| >= room.value.maxPeers)
            && (outcome.Admitted? <==>
                  && !outcome.Full?
                  && (isModerator || (room.Some? && exists p :: p in row && p != peer && row[p])))
  {
    var row := Peers(s, id);
    var joined := row[peer := isModerator];
    if p :| p in row && p != peer && row[p] { assert joined[p]; }
    if HasModerator(joined) && !isModerator {
      var p :| p in joined && joined[p];
      assert p != peer && row[p];
    }
  }

  /** The room stays in the cache, and only join frames set its limit. */
  predicate Lives(s: Shard, run: seq<Timed>, id: string)
    requires Legal(s, run)
    decreases |run|
  {
    Found(s, id).Some? &&
    (run == [] ||
     (!(run[0].event.Create? && run[0].event.id == id)
      && Lives(Step(s, run[0].now, run[0].event), run[1..], id)))
  }

  /** The largest limit in force from the start of the run to its end, and at least p. */
  function PeakLimit(s: Shard, run: seq<Timed>, id: string, p: int): int
    requires Legal(s, run) && Lives(s, run, id)
    decreases |run|
  {
    var q := Max(p, Found(s, id).value.maxPeers);
    if run == [] then q else PeakLimit(Step(s, run[0].now, run[0].event), run[1..], id, q)
  }

  /** What a step does to a room's row of connections, cached or not. */
  lemma RowAfter(s: Shard, now: int, e: Event, id: string)
    requires Enabled(s, e)
    ensures var row, after := Peers(s, id), Peers(Step(s, now, e), id);
            match e
            case Connect(i, peer, isModerator) =>
              after == if i == id && !(Found(s, id).Some? && |row| >= Found(s, id).value.maxPeers)
                       then row[peer := isModerator] else row
            case WaiterGone(i, peer) => after == if i == id then row - {peer} else row
            case Leave(i, peer) => after == if i == id then row - {peer} else row
            case ForceClose(i) => after == if i == id then map[] else row
            case FinishClose => after == if s.closing.value == id then map[] else row
            case _ => after == row
  {
  }

  /** A room that stays grows exactly when a new peer connects below the limit in force, and then by one. */
  lemma StepGrowth(s: Shard, now: int, e: Event, id: string)
    requires WellFormed(s) && Enabled(s, e) && Found(s, id).Some? && Found(Step(s, now, e), id).Some?
    ensures var before, after := Connections(s, id), Connections(Step(s, now, e), id);
            && (after > before <==>
                  e.Connect? && e.id == id && e.peer !in Peers(s, id) && before < Found(s, id).value.maxPeers)
            && after <= before + 1
            && after <= Max(before, Found(s, id).value.maxPeers)
  {
    RowAfter(s, now, e, id);
    FoundAfter(s, now, e, id);
    match e
    case Connect(_, peer, isModerator) => OneMorePeer(Peers(s, id), peer, isModerator);
    case WaiterGone(_, peer) => OneLessPeer(Peers(s, id), peer);
    case Leave(_, peer) => OneLessPeer(Peers(s, id), peer);
    case _ =>
  }

  lemma OneMorePeer(row: map<string, bool>, peer: string, isModerator: bool)
    ensures |row[peer := isModerator]| == if peer in row then |row| else |row| + 1
  {
    assert row[peer := isModerator].Keys == row.Keys + {peer};
  }

  lemma OneLessPeer(row: map<string, bool>, peer: string)
    ensures |row - {peer}| <= |row|
  {
    assert (row - {peer}).Keys == row.Keys - {peer};
  }

  lemma {:induction false} RunWithinPeak(s: Shard, run: seq<Timed>, id: string, p: int)
    requires WellFormed(s) && Legal(s, run) && Lives(s, run, id) && Connections(s, id) <= p
    ensures Connections(Run(s, run), id) <= PeakLimit(s, run, id, p)
    decreases |run|
  {
    if run != [] {
      var t := Step(s, run[0].now, run[0].event);
      assert Found(t, id).Some?;
      StepWellFormed(s, run[0].now, run[0].event);
      StepGrowth(s, run[0].now, run[0].event, id);
      RunWithinPeak(t, run[1..], id, Max(p, Found(s, id).value.maxPeers));
    }
  }

  /** Join frames keep every limit between 1 and 100. */
  lemma {:induction false} PeakAtMost100(s: Shard, run: seq<Timed>, id: string, p: int)
    requires WellFormed(s) && Legal(s, run) && Lives(s, run, id)
    requires Found(s, id).value.maxPeers <= 100 && p <= 100
    ensures PeakLimit(s, run, id, p) <= 100
    decreases |run|
  {
    if run != [] {
      var t := Step(s, run[0].now, run[0].event);
      assert Found(t, id).Some?;
      StepWellFormed(s, run[0].now, run[0].event);
      FoundAfter(s, run[0].now, run[0].event, id);
      PeakAtMost100(t, run[1..], id, Max(p, Found(s, id).value.maxPeers));
    }
  }

  /**
   From a room's lazy creation with no leftover connections until it leaves the cache, its
   connections never exceed the largest limit in force so far, and hence never 100.
   */
  lemma ConnectionsWithinLimits(s: Shard, now: int, id: string, peer: string, isModerator: bool, run: seq<Timed>)
    requires WellFormed(s) && Found(s, id).None? && Connections(s, id) == 0
    requires var t := Step(s, now, Connect(id, peer, isModerator)); Legal(t, run) && Lives(t, run, id)
    ensures var t := Step(s, now, Connect(id, peer, isModerator));
            Connections(Run(t, run), id) <= PeakLimit(t, run, id, 1) <= 100
  {
    var e := Connect(id, peer, isModerator);
    var t := Step(s, now, e);
    FoundAfter(s, now, e, id);
    StepWellFormed(s, now, e);
    RunWithinPeak(t, run, id, 1);
    PeakAtMost100(t, run, id, 1);
  }
}
