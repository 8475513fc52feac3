/** Exactly which rooms are sure to be examined: the janitor must hold the id already. */
module RoomExamined {
  import opened Wrappers
  import opened RoomMachine
  import opened RoomWatch
  import opened RoomCases
  import Schedule

  // ---------- Runs one after another ----------

  lemma {:induction false} RunsJoin(s: Shard, a: seq<Timed>, b: seq<Timed>, id: string)
    requires Legal(s, a) && Legal(Run(s, a), b)
    ensures Legal(s, a + b) && Run(s, a + b) == Run(Run(s, a), b)
    ensures Rotations(a + b) == Rotations(a) + Rotations(b)
    ensures TakesUp(s, a + b, id) <==> TakesUp(s, a, id) || TakesUp(Run(s, a), b, id)
    decreases |a|
  {
    if a == [] {
      assert a + b == b;
    } else {
      assert (a + b)[1..] == a[1..] + b;
      RunsJoin(Step(s, a[0].now, a[0].event), a[1..], b, id);
    }
  }

  /** A run that leaves the room cached, and in which the janitor never examines it. */
  predicate Avoids(s: Shard, run: seq<Timed>, t: Shard, id: string) {
    && Legal(s, run) && t == Run(s, run) && !TakesUp(s, run, id)
    && Found(t, id).Some? && id !in t.pending && t.closing != Some(id)
  }

  lemma Joined(s: Shard, a: seq<Timed>, t: Shard, b: seq<Timed>, u: Shard, id: string) returns (run: seq<Timed>)
    requires Avoids(s, a, t, id) && Avoids(t, b, u, id)
    ensures Avoids(s, run, u, id) && Rotations(run) == Rotations(a) + Rotations(b)
  {
    RunsJoin(s, a, b, id);
    run := a + b;
  }

  lemma Single(s: Shard, now: int, e: Event, id: string) returns (run: seq<Timed>, t: Shard)
    requires WellFormed(s) && Enabled(s, e) && !(e.Examine? && s.pending[0] == id)
    ensures t == Step(s, now, e) && WellFormed(t) && Legal(s, run) && t == Run(s, run) && !TakesUp(s, run, id)
    ensures Rotations(run) == if e.Rotate? then 1 else 0
    ensures Found(t, id) == RoomAfter(s, now, e, id)
  {
    run, t := [At(now, e)], Step(s, now, e);
    assert run[1..] == [];
    assert Run(s, run) == Run(t, []);
    StepWellFormed(s, now, e);
    FoundAfter(s, now, e, id);
  }

  // ---------- Keeping a room from being examined ----------

  /** The janitor works off the other ids that it holds. */
  lemma {:induction false} OthersDrained(s: Shard, now: int, id: string) returns (run: seq<Timed>, t: Shard)
    requires WellFormed(s) && Found(s, id).Some? && id !in s.pending && s.closing != Some(id)
    ensures WellFormed(t) && Avoids(s, run, t, id) && Rotations(run) == 0 && t.pending == [] && t.closing.None?
    decreases |s.pending|, s.closing.Some?
  {
    run, t := [], s;
    if s.closing.Some? || s.pending != [] {
      var e := if s.closing.Some? then FinishClose else Examine;
      var first, u := Single(s, now, e, id);
      var rest;
      rest, t := OthersDrained(u, now, id);
      run := Joined(s, first, u, rest, t, id);
    }
  }

  /** A moderator's join frame moves the lowest entry of its room. */
  lemma EntryMoved(s: Shard, now: int, id: string, peer: string, minutes: int) returns (run: seq<Timed>, t: Shard)
    requires WellFormed(s) && Found(s, id).Some? && s.pending == [] && s.closing.None? && 1 <= minutes <= 300
    ensures WellFormed(t) && Avoids(s, run, t, id) && Rotations(run) == 0 && t.pending == [] && t.closing.None?
    ensures t.wheel == Schedule.MoveKey(s.wheel, id, minutes)
  {
    var e := Join(id, peer, true, None, Some(minutes));
    run, t := Single(s, now, e, id);
    RunShort(s.wheel, WheelOps(s, now, e));
  }

  /** As long as there are several entries, the lowest can be moved onto another one. */
  lemma {:induction false} EntriesMerged(s: Shard, now: int, id: string, peer: string) returns (run: seq<Timed>, t: Shard)
    requires WellFormed(s) && Found(s, id).Some? && s.pending == [] && s.closing.None?
    ensures WellFormed(t) && Avoids(s, run, t, id) && Rotations(run) == 0 && t.pending == [] && t.closing.None?
    ensures Schedule.Entries(t.wheel, id) <= 1
    decreases Schedule.Entries(s.wheel, id)
  {
    run, t := [], s;
    if Schedule.Entries(s.wheel, id) > 1 {
      var minutes := AnotherEntry(s.wheel, id);
      var first, u := EntryMoved(s, now, id, peer, minutes);
      var rest;
      rest, t := EntriesMerged(u, now, id, peer);
      run := Joined(s, first, u, rest, t, id);
    }
  }

  lemma AnotherEntry(t: Schedule.Timetable, id: string) returns (minutes: int)
    requires Schedule.Entries(t, id) > 1
    ensures 1 <= minutes <= 300
    ensures Schedule.Entries(Schedule.MoveKey(t, id, minutes), id) == Schedule.Entries(t, id) - 1
  {
    Schedule.RemoveClearsIffSingle(t, id);
    var i :| 0 <= i < Schedule.SLOTS && id in Schedule.RemoveKey(t, id).due[i];
    minutes := i + 1;
    Schedule.RemoveTakesOne(t, id, id);
    Schedule.PutBringsOne(Schedule.RemoveKey(t, id), i, id, id);
    Schedule.CountPositive(t.due, id);
  }

  lemma {:induction false} Listed(ids: set<string>) returns (order: seq<string>)
    ensures multiset(order) == multiset(ids)
  {
    order := [];
    if ids != {} {
      var id :| id in ids;
      var rest := Listed(ids - {id});
      order := [id] + rest;
      assert multiset(ids) == multiset{id} + multiset(ids - {id});
    }
  }

  /** One more tick, after the room has been put as far away as can be. */
  lemma TickAvoided(s: Shard, now: int, id: string, peer: string) returns (run: seq<Timed>, t: Shard)
    requires WellFormed(s) && Found(s, id).Some? && id !in s.pending && s.closing != Some(id)
    ensures WellFormed(t) && Avoids(s, run, t, id) && Rotations(run) == 1
  {
    var u, v, w;
    var a, b, c, d;
    a, u := OthersDrained(s, now, id);
    b, v := EntriesMerged(u, now, id, peer);
    c, w := EntryMoved(v, now, id, peer, 300);
    Schedule.UniqueMove(v.wheel, id, 300);
    var order := Listed(w.wheel.due[0]);
    d, t := Single(w, now, Rotate(order, now), id);
    RotationMoves(w, now, order, now, id);
    run := Joined(s, a, u, b, v, id);
    run := Joined(s, run, v, c, w, id);
    run := Joined(s, run, w, d, t, id);
  }

  lemma {:induction false} TicksAvoided(s: Shard, now: int, id: string, peer: string, n: nat)
    returns (run: seq<Timed>, t: Shard)
    requires WellFormed(s) && Found(s, id).Some? && id !in s.pending && s.closing != Some(id)
    ensures WellFormed(t) && Avoids(s, run, t, id) && Rotations(run) == n
    decreases n
  {
    run, t := [], s;
    if n > 0 {
      var first, u := TickAvoided(s, now, id, peer);
      var rest;
      rest, t := TicksAvoided(u, now + MINUTE, id, peer, n - 1);
      run := Joined(s, first, u, rest, t, id);
    }
  }

  // ---------- The exact condition ----------

  /** However it goes on, the janitor examines the room before n rotations have passed. */
  ghost predicate SurelyExamined(s: Shard, id: string, n: nat) {
    forall run: seq<Timed> | Legal(s, run) && Rotations(run) >= n :: TakesUp(s, run, id)
  }

  /**
   Whatever number of ticks one is ready to wait: that a cached room which is not being closed is
   examined by then is certain if and only if the janitor holds its id already. Otherwise its sessions
   can keep it away from the janitor, whatever the wheel and the other rooms look like.
   */
  lemma ExaminedIffPending(s: Shard, id: string, n: nat)
    requires WellFormed(s) && Found(s, id).Some? && s.closing != Some(id) && n >= 1
    ensures SurelyExamined(s, id, n) <==> id in s.pending
  {
    if id in s.pending {
      forall run: seq<Timed> | Legal(s, run) && Rotations(run) >= n ensures TakesUp(s, run, id) {
        PendingIsTakenUp(s, run, id);
      }
    } else {
      var run, t := TicksAvoided(s, 0, id, "", n);
      assert !TakesUp(s, run, id);
    }
  }

  /** For any number of ticks there is a run of a new shard in which a cached room is never examined. */
  lemma NeverExamined(capacity: int, id: string, peer: string, n: nat) returns (run: seq<Timed>)
    requires capacity >= 1
    ensures Legal(Initial(capacity), run) && Rotations(run) == n
    ensures !TakesUp(Initial(capacity), run, id) && Found(Run(Initial(capacity), run), id).Some?
  {
    var s := Opened(capacity, 0, id, peer);
    var rest, t := TicksAvoided(s, 0, id, peer, n);
    run := [At(0, Connect(id, peer, true))] + rest;
    assert run[1..] == rest;
  }
}
