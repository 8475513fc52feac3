/**
 What the bitmapped time wheel means: for every scheduled key, the number of ticks that are
 left until it is reported. The ring of 300 slots becomes a queue of 300 key sets; a tick pops the
 front. Slot numbers survive only because Move and Remove search them in ascending order.
 */
module Schedule {

  const SLOTS: int := 300

  type Key = string

  /** due[i] holds the keys reported by the (i+1)-th next tick; pointer is the slot last reported. */
  datatype Dial = Dial(pointer: int, due: seq<set<Key>>)

  type Timetable = d: Dial | 0 <= d.pointer < SLOTS && |d.due| == SLOTS
    witness Dial(0, seq(SLOTS, _ => {}))

  /** The timetable of a new wheel. */
  function Empty(): Timetable {
    Dial(0, seq(SLOTS, _ => {}))
  }

  // ---------- Positions ----------

  /**
   Queue position of a key added so many minutes ahead. 0 minutes is a full turn, like 300; a negative
   count goes back as many slots.
   */
  function Ahead(minutes: int): (i: nat)
    ensures i < SLOTS && (minutes == 0 ==> i == SLOTS - 1)
    ensures i == (minutes - 1) % SLOTS
    ensures 1 <= minutes <= SLOTS ==> i == minutes - 1
  {
    (minutes + SLOTS - 1) % SLOTS
  }

  /** The remainder in the code truncates, and a negative slot number is out of range there. */
  predicate Reaches(pointer: int, minutes: int) {
    pointer + minutes >= 0 || (pointer + minutes) % SLOTS == 0
  }

  function SlotOf(pointer: int, i: nat): int {
    (pointer + 1 + i) % SLOTS
  }

  /** Queue position of a slot number, as seen from the pointer. */
  function PositionOf(pointer: int, slot: nat): (i: nat)
    requires 0 <= pointer < SLOTS && slot < SLOTS
    ensures i < SLOTS && SlotOf(pointer, i) == slot
  {
    (slot + SLOTS - 1 - pointer) % SLOTS
  }

  lemma PositionOfSlotOf(pointer: int, i: nat)
    requires 0 <= pointer < SLOTS && i < SLOTS
    ensures 0 <= SlotOf(pointer, i) < SLOTS && PositionOf(pointer, SlotOf(pointer, i)) == i
  {
  }

  /** The slot that the code computes is the one with that many ticks left. */
  lemma TargetSlot(pointer: int, minutes: int)
    requires 0 <= pointer < SLOTS
    ensures var slot := (pointer + minutes) % SLOTS;
            slot == SlotOf(pointer, Ahead(minutes)) && PositionOf(pointer, slot) == Ahead(minutes)
  {
    PositionOfSlotOf(pointer, Ahead(minutes));
  }

  // ---------- Operations ----------

  function Put(t: Timetable, i: nat, key: Key): Timetable
    requires i < SLOTS
  {
    t.(due := t.due[i := t.due[i] + {key}])
  }

  function Drop(t: Timetable, i: nat, key: Key): Timetable
    requires i < SLOTS
  {
    t.(due := t.due[i := t.due[i] - {key}])
  }

  function AddKey(t: Timetable, key: Key, minutes: int): Timetable {
    Put(t, Ahead(minutes), key)
  }

  /** The lowest slot number from `from` on that holds the key; SLOTS if there is none. */
  function LowestSlot(t: Timetable, key: Key, from: nat): (slot: nat)
    requires from <= SLOTS
    ensures from <= slot <= SLOTS
    ensures slot < SLOTS ==> key in t.due[PositionOf(t.pointer, slot)]
    ensures forall m: nat | from <= m < slot :: key !in t.due[PositionOf(t.pointer, m)]
    decreases SLOTS - from
  {
    if from == SLOTS then SLOTS
    else if key in t.due[PositionOf(t.pointer, from)] then from
    else LowestSlot(t, key, from + 1)
  }

  /** Remove takes out one entry only: the one in the lowest slot. */
  function RemoveKey(t: Timetable, key: Key): Timetable {
    var slot := LowestSlot(t, key, 0);
    if slot == SLOTS then t else Drop(t, PositionOf(t.pointer, slot), key)
  }

  function MoveKey(t: Timetable, key: Key, minutes: int): Timetable {
    AddKey(RemoveKey(t, key), key, minutes)
  }

  function Advance(t: Timetable): Timetable {
    Dial((t.pointer + 1) % SLOTS, t.due[1..] + [{}])
  }

  // ---------- Runs ----------

  datatype Op =
    | Add(key: Key, minutes: int)
    | Move(key: Key, minutes: int)
    | Remove(key: Key)
    | Tick

  predicate Mentions(op: Op, key: Key) {
    !op.Tick? && op.key == key
  }

  predicate Reschedules(op: Op, key: Key) {
    (op.Move? || op.Remove?) && op.key == key
  }

  function Step(t: Timetable, op: Op): Timetable {
    match op
    case Add(key, minutes) => AddKey(t, key, minutes)
    case Move(key, minutes) => MoveKey(t, key, minutes)
    case Remove(key) => RemoveKey(t, key)
    case Tick => Advance(t)
  }

  function Run(t: Timetable, ops: seq<Op>): Timetable
    decreases |ops|
  {
    if ops == [] then t else Run(Step(t, ops[0]), ops[1..])
  }

  /** What the ticks of a run report, in order. */
  function Reports(t: Timetable, ops: seq<Op>): seq<set<Key>>
    decreases |ops|
  {
    if ops == [] then []
    else (if ops[0].Tick? then [t.due[0]] else []) + Reports(Step(t, ops[0]), ops[1..])
  }

  // ---------- On time, and only on time ----------

  /** RemoveKey and AddKey leave every other key where it is. */
  lemma OthersUntouched(t: Timetable, op: Op, key: Key)
    requires !Mentions(op, key) && !op.Tick?
    ensures forall i | 0 <= i < SLOTS :: key in Step(t, op).due[i] <==> key in t.due[i]
  {
  }

  /**
   While nothing mentions a key, its whole future is fixed: the j-th report from now contains it
   exactly when it has j+1 ticks left, and what is left of its entries has moved up by the ticks made.
   */
  lemma {:induction false} Undisturbed(t: Timetable, ops: seq<Op>, key: Key)
    requires forall op | op in ops :: !Mentions(op, key)
    ensures var n := |Reports(t, ops)|;
            && (forall j | 0 <= j < n :: key in Reports(t, ops)[j] <==> j < SLOTS && key in t.due[j])
            && (forall i | 0 <= i < SLOTS :: key in Run(t, ops).due[i] <==> i + n < SLOTS && key in t.due[i + n])
    decreases |ops|
  {
    hide AddKey, RemoveKey, MoveKey, Ahead;
    if ops != [] {
      var t' := Step(t, ops[0]);
      Undisturbed(t', ops[1..], key);
      if ops[0].Tick? {
        assert forall j | 0 <= j < SLOTS :: key in t'.due[j] <==> j + 1 < SLOTS && key in t.due[j + 1];
        assert Reports(t, ops) == [t.due[0]] + Reports(t', ops[1..]);
      } else {
        OthersUntouched(t, ops[0], key);
        assert Reports(t, ops) == Reports(t', ops[1..]);
      }
    }
  }

  predicate Absent(t: Timetable, key: Key) {
    forall i | 0 <= i < SLOTS :: key !in t.due[i]
  }

  /**
   A key added n minutes ahead and then left alone is reported by the n-th following tick and by no
   other; beyond 300 (and for 0) n counts modulo the ring.
   */
  lemma ReportedExactlyOnTime(t: Timetable, key: Key, minutes: int, ops: seq<Op>)
    requires Absent(t, key)
    requires forall op | op in ops :: !Mentions(op, key)
    ensures var reports := Reports(AddKey(t, key, minutes), ops);
            forall j | 0 <= j < |reports| :: key in reports[j] <==> j == Ahead(minutes)
  {
    Undisturbed(AddKey(t, key, minutes), ops, key);
  }

  lemma EntryStays(t: Timetable, op: Op, key: Key, i: nat)
    requires i < SLOTS && key in t.due[i]
    requires !Reschedules(op, key) && !op.Tick?
    ensures key in Step(t, op).due[i]
  {
  }

  /** Further additions of the same key do not disturb an entry: it is still reported on its tick. */
  lemma {:induction false} EntryReportedOnTime(t: Timetable, ops: seq<Op>, key: Key, i: nat)
    requires i < SLOTS && key in t.due[i]
    requires forall op | op in ops :: !Reschedules(op, key)
    ensures var n := |Reports(t, ops)|;
            if i < n then key in Reports(t, ops)[i] else key in Run(t, ops).due[i - n]
    decreases |ops|
  {
    if ops != [] {
      var t', rest := Step(t, ops[0]), Reports(Step(t, ops[0]), ops[1..]);
      if !ops[0].Tick? {
        EntryStays(t, ops[0], key, i);
        EntryReportedOnTime(t', ops[1..], key, i);
        assert Reports(t, ops) == rest;
      } else if i > 0 {
        assert t'.due[i - 1] == t.due[i];
        EntryReportedOnTime(t', ops[1..], key, i - 1);
        assert Reports(t, ops) == [t.due[0]] + rest;
      } else {
        assert Reports(t, ops)[0] == t.due[0];
      }
    }
  }

  // ---------- Conservation of entries ----------

  /** In how many of these sets the key occurs. */
  function Count(due: seq<set<Key>>, key: Key): nat {
    if due == [] then 0 else (if key in due[0] then 1 else 0) + Count(due[1..], key)
  }

  lemma {:induction false} CountUpdate(due: seq<set<Key>>, i: nat, s: set<Key>, key: Key)
    requires i < |due|
    ensures Count(due[i := s], key) + (if key in due[i] then 1 else 0)
         == Count(due, key) + (if key in s then 1 else 0)
  {
    if i == 0 {
      assert due[0 := s][1..] == due[1..];
    } else {
      assert due[i := s][1..] == due[1..][i - 1 := s];
      CountUpdate(due[1..], i - 1, s, key);
    }
  }

  lemma {:induction false} CountAppend(due: seq<set<Key>>, s: set<Key>, key: Key)
    ensures Count(due + [s], key) == Count(due, key) + (if key in s then 1 else 0)
  {
    if due == [] {
      assert [s][1..] == [];
    } else {
      assert (due + [s])[1..] == due[1..] + [s];
      CountAppend(due[1..], s, key);
    }
  }

  lemma {:induction false} CountPositive(due: seq<set<Key>>, key: Key)
    ensures Count(due, key) == 0 <==> forall i | 0 <= i < |due| :: key !in due[i]
  {
    if due != [] {
      CountPositive(due[1..], key);
      assert forall i | 1 <= i < |due| :: due[i] == due[1..][i - 1];
      if Count(due, key) == 0 {
        forall i | 0 <= i < |due| ensures key !in due[i] {
          if i > 0 { assert due[i] == due[1..][i - 1]; }
        }
      } else if key !in due[0] {
        var i :| 0 <= i < |due[1..]| && key in due[1..][i];
        assert key in due[i + 1];
      }
    }
  }

  /** Entries of a key: how many slots hold it. */
  function Entries(t: Timetable, key: Key): nat {
    Count(t.due, key)
  }

  /** What one step does to the entries of a key: how many come in, are taken out, are reported. */
  datatype Flow = Flow(entered: nat, removed: nat, reported: nat)

  function FlowOf(t: Timetable, op: Op, key: Key): Flow {
    match op
    case Add(k, minutes) =>
      Flow(if k == key && key !in t.due[Ahead(minutes)] then 1 else 0, 0, 0)
    case Remove(k) =>
      Flow(0, if k == key && !Absent(t, key) then 1 else 0, 0)
    case Move(k, minutes) =>
      Flow(if k == key && key !in RemoveKey(t, k).due[Ahead(minutes)] then 1 else 0,
           if k == key && !Absent(t, key) then 1 else 0, 0)
    case Tick =>
      Flow(0, 0, if key in t.due[0] then 1 else 0)
  }

  function RunFlow(t: Timetable, ops: seq<Op>, key: Key): Flow
    decreases |ops|
  {
    if ops == [] then Flow(0, 0, 0)
    else
      var f, g := FlowOf(t, ops[0], key), RunFlow(Step(t, ops[0]), ops[1..], key);
      Flow(f.entered + g.entered, f.removed + g.removed, f.reported + g.reported)
  }

  lemma AbsentMeansNoSlot(t: Timetable, key: Key)
    ensures Absent(t, key) <==> LowestSlot(t, key, 0) == SLOTS
  {
    if LowestSlot(t, key, 0) == SLOTS {
      forall i | 0 <= i < SLOTS ensures key !in t.due[i] {
        PositionOfSlotOf(t.pointer, i);
      }
    }
  }

  /** Removing a scheduled key takes out exactly one entry. */
  lemma RemoveTakesOne(t: Timetable, key: Key, other: Key)
    ensures Entries(RemoveKey(t, key), other) + (if other == key && !Absent(t, key) then 1 else 0) == Entries(t, other)
  {
    AbsentMeansNoSlot(t, key);
    var slot := LowestSlot(t, key, 0);
    if slot < SLOTS {
      var i := PositionOf(t.pointer, slot);
      CountUpdate(t.due, i, t.due[i] - {key}, other);
    }
  }

  lemma PutBringsOne(t: Timetable, i: nat, key: Key, other: Key)
    requires i < SLOTS
    ensures Entries(Put(t, i, key), other) == Entries(t, other) + (if other == key && key !in t.due[i] then 1 else 0)
  {
    CountUpdate(t.due, i, t.due[i] + {key}, other);
  }

  lemma StepConserves(t: Timetable, op: Op, key: Key)
    ensures var f := FlowOf(t, op, key);
            Entries(Step(t, op), key) + f.removed + f.reported == Entries(t, key) + f.entered
  {
    match op
    case Add(k, minutes) => PutBringsOne(t, Ahead(minutes), k, key);
    case Remove(k) => RemoveTakesOne(t, k, key);
    case Move(k, minutes) =>
      RemoveTakesOne(t, k, key);
      PutBringsOne(RemoveKey(t, k), Ahead(minutes), k, key);
    case Tick =>
      CountAppend(t.due[1..], {}, key);
  }

  /** Over a whole run no entry is lost or doubled: scheduled + removed + reported == before + entered. */
  lemma {:induction false} RunConserves(t: Timetable, ops: seq<Op>, key: Key)
    ensures var f := RunFlow(t, ops, key);
            Entries(Run(t, ops), key) + f.removed + f.reported == Entries(t, key) + f.entered
    decreases |ops|
  {
    if ops != [] {
      StepConserves(t, ops[0], key);
      RunConserves(Step(t, ops[0]), ops[1..], key);
    }
  }

  lemma {:induction false} ReportedFlowCountsReports(t: Timetable, ops: seq<Op>, key: Key)
    ensures RunFlow(t, ops, key).reported == Count(Reports(t, ops), key)
    decreases |ops|
  {
    if ops != [] {
      var rest := Reports(Step(t, ops[0]), ops[1..]);
      ReportedFlowCountsReports(Step(t, ops[0]), ops[1..], key);
      if ops[0].Tick? {
        assert Reports(t, ops)[1..] == rest;
      } else {
        assert Reports(t, ops) == rest;
      }
    }
  }

  // ---------- Uniqueness ----------

  /** A key with at most one entry keeps at most one, unless it is added while still scheduled. */
  lemma UniqueKept(t: Timetable, op: Op, key: Key)
    requires Entries(t, key) <= 1
    requires op.Add? && op.key == key ==> Absent(t, key)
    ensures Entries(Step(t, op), key) <= 1
  {
    StepConserves(t, op, key);
    CountPositive(t.due, key);
  }

  /** Remove clears a key if and only if it has at most one entry. */
  lemma RemoveClearsIffSingle(t: Timetable, key: Key)
    ensures Absent(RemoveKey(t, key), key) <==> Entries(t, key) <= 1
  {
    RemoveTakesOne(t, key, key);
    CountPositive(t.due, key);
    CountPositive(RemoveKey(t, key).due, key);
  }

  predicate OnlyAt(t: Timetable, key: Key, i: nat) {
    forall j | 0 <= j < SLOTS :: key in t.due[j] <==> j == i
  }

  /** Apart from the new place, the key is at most in its lowest slot. */
  predicate ElsewhereLowestOnly(t: Timetable, key: Key, minutes: int) {
    forall i | 0 <= i < SLOTS && i != Ahead(minutes) && key in t.due[i] :: SlotOf(t.pointer, i) == LowestSlot(t, key, 0)
  }

  /** Move leaves a key at its new place only, if and only if no further slot held it before. */
  lemma MoveCarriesIffLowestOnly(t: Timetable, key: Key, minutes: int)
    ensures OnlyAt(MoveKey(t, key, minutes), key, Ahead(minutes)) <==> ElsewhereLowestOnly(t, key, minutes)
  {
    var slot := LowestSlot(t, key, 0);
    AbsentMeansNoSlot(t, key);
    forall i | 0 <= i < SLOTS
      ensures key in RemoveKey(t, key).due[i] <==> key in t.due[i] && SlotOf(t.pointer, i) != slot
    {
      PositionOfSlotOf(t.pointer, i);
    }
    assert forall i | 0 <= i < SLOTS :: key in MoveKey(t, key, minutes).due[i]
             <==> i == Ahead(minutes) || key in RemoveKey(t, key).due[i];
  }

  /** With at most one entry that is always so. */
  lemma UniqueMove(t: Timetable, key: Key, minutes: int)
    requires Entries(t, key) <= 1
    ensures Absent(RemoveKey(t, key), key) && OnlyAt(MoveKey(t, key, minutes), key, Ahead(minutes))
  {
    RemoveClearsIffSingle(t, key);
  }

  /** It can fail: a key added one and then two minutes ahead has two entries, and Remove leaves one. */
  lemma RemoveLeavesSecondEntry(key: Key)
    ensures var t := AddKey(AddKey(Empty(), key, 1), key, 2);
            Entries(t, key) == 2 && !Absent(RemoveKey(t, key), key) && OnlyAt(RemoveKey(t, key), key, 1)
  {
    var u := AddKey(Empty(), key, 1);
    var t := AddKey(u, key, 2);
    CountPositive(Empty().due, key);
    PutBringsOne(Empty(), 0, key, key);
    PutBringsOne(u, 1, key, key);
    assert PositionOf(0, 1) == 0 && key in t.due[0];
    assert PositionOf(0, 0) == 299 && key !in t.due[299];
    assert LowestSlot(t, key, 0) == LowestSlot(t, key, 1) == 1;
    assert key in RemoveKey(t, key).due[1];
  }

  // ---------- A wheel with a single entry ----------

  ghost predicate Sole(t: Timetable, key: Key, i: nat) {
    OnlyAt(t, key, i) && forall k: Key | k != key :: Absent(t, k)
  }

  lemma SoleAdded(key: Key, minutes: int)
    ensures Sole(AddKey(Empty(), key, minutes), key, Ahead(minutes))
  {
  }

  lemma SoleMoved(t: Timetable, key: Key, i: nat, minutes: int)
    requires i < SLOTS && Sole(t, key, i)
    ensures Sole(MoveKey(t, key, minutes), key, Ahead(minutes))
  {
    SoleIsMovable(t, key, i, minutes);
    MoveCarriesIffLowestOnly(t, key, minutes);
    hide ElsewhereLowestOnly, MoveKey, Absent;
    forall k: Key | k != key ensures Absent(MoveKey(t, key, minutes), k) {
      OthersStayAbsent(t, key, minutes, k);
    }
  }

  lemma OthersStayAbsent(t: Timetable, key: Key, minutes: int, other: Key)
    requires other != key && Absent(t, other)
    ensures Absent(MoveKey(t, key, minutes), other)
  {
    OthersUntouched(t, Move(key, minutes), other);
  }

  lemma SoleIsMovable(t: Timetable, key: Key, i: nat, minutes: int)
    requires i < SLOTS && OnlyAt(t, key, i)
    ensures ElsewhereLowestOnly(t, key, minutes)
  {
    assert key in t.due[i];
    AbsentMeansNoSlot(t, key);
  }

  lemma SoleIsSingle(t: Timetable, key: Key, i: nat)
    requires i < SLOTS && OnlyAt(t, key, i)
    ensures Entries(t, key) == 1
  {
    RemoveClearsIffSingle(t, key);
    CountPositive(t.due, key);
    assert key in t.due[i];
    AbsentMeansNoSlot(t, key);
    forall j | 0 <= j < SLOTS ensures key !in RemoveKey(t, key).due[j] {
      PositionOfSlotOf(t.pointer, j);
    }
  }

  lemma SoleAdvanced(t: Timetable, key: Key, i: nat)
    requires 0 < i < SLOTS && Sole(t, key, i)
    ensures t.due[0] == {} && Sole(Advance(t), key, i - 1)
  {
    forall k: Key ensures k !in t.due[0] {
      assert k != key ==> Absent(t, k);
    }
    forall k: Key | k != key ensures Absent(Advance(t), k) {
      assert Absent(t, k);
    }
  }

  lemma SoleFront(t: Timetable, key: Key)
    requires Sole(t, key, 0)
    ensures t.due[0] == {key}
  {
    forall k: Key ensures k in t.due[0] <==> k == key {
      assert k != key ==> Absent(t, k);
    }
  }
}
