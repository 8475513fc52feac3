/** The bitmapped time wheel: a ring of 300 buckets with a redundant bitmap of five 64-bit words. */
module TimeWheel {
  import opened Bits
  import opened Schedule

  ghost predicate FullRing(buckets: map<int, set<Key>>) {
    forall m :: m in buckets <==> 0 <= m < SLOTS
  }

  /** The timetable that a pointer and its buckets stand for. */
  ghost function Unroll(pointer: int, buckets: map<int, set<Key>>): Timetable
    requires 0 <= pointer < SLOTS
    requires FullRing(buckets)
  {
    Dial(pointer, seq(SLOTS, i requires 0 <= i < SLOTS => buckets[SlotOf(pointer, i)]))
  }

  /** Changing one bucket changes one queue position. */
  lemma UnrollUpdate(pointer: int, buckets: map<int, set<Key>>, slot: nat, s: set<Key>)
    requires 0 <= pointer < SLOTS && slot < SLOTS
    requires FullRing(buckets)
    ensures FullRing(buckets[slot := s])
    ensures var t := Unroll(pointer, buckets);
            Unroll(pointer, buckets[slot := s]) == t.(due := t.due[PositionOf(pointer, slot) := s])
  {
  }

  /** Turning the pointer onto a bucket that has just been emptied pops the front of the queue. */
  lemma UnrollAdvance(pointer: int, buckets: map<int, set<Key>>)
    requires 0 <= pointer < SLOTS
    requires FullRing(buckets)
    ensures var next := (pointer + 1) % SLOTS;
            && FullRing(buckets[next := {}])
            && Unroll(pointer, buckets).due[0] == buckets[next]
            && Unroll(next, buckets[next := {}]) == Advance(Unroll(pointer, buckets))
  {
  }

  /** The slots whose buckets hold a key. */
  ghost function Occupied(buckets: map<int, set<Key>>): set<int> {
    set m | 0 <= m < SLOTS && m in buckets && buckets[m] != {}
  }

  /** All 320 bits agree with the buckets: bit m is 1 exactly when slot m is occupied. */
  ghost predicate BitmapAgrees(words: seq<bv64>, buckets: map<int, set<Key>>) {
    && |words| == 5
    && FullRing(buckets)
    && Encodes(words, Occupied(buckets), 64 * |words|)
  }

  /** Read one bit at a time, the agreement covers slots 0..299 and keeps bits 300..319 at 0. */
  lemma BitmapMeansOccupied(words: seq<bv64>, buckets: map<int, set<Key>>, m: nat)
    requires BitmapAgrees(words, buckets) && m < 320
    ensures Lit(words, m) <==> m < SLOTS && buckets[m] != {}
  {
    EncodesAt(words, Occupied(buckets), 64 * |words|, m);
  }

  lemma RaiseAgrees(words: seq<bv64>, buckets: map<int, set<Key>>, m: nat, s: set<Key>)
    requires BitmapAgrees(words, buckets) && m < SLOTS && s != {}
    ensures BitmapAgrees(WithBit(words, m), buckets[m := s])
  {
    SetEncodes(words, Occupied(buckets), m, 64 * |words|);
    assert Occupied(buckets[m := s]) == Occupied(buckets) + {m};
  }

  lemma ExtinguishAgrees(words: seq<bv64>, buckets: map<int, set<Key>>, m: nat)
    requires BitmapAgrees(words, buckets) && m < SLOTS
    ensures BitmapAgrees(WithoutBit(words, m), buckets[m := {}])
  {
    ClearEncodes(words, Occupied(buckets), m, 64 * |words|);
    assert Occupied(buckets[m := {}]) == Occupied(buckets) - {m};
  }

  /** A bucket that stays non-empty needs no change of the bitmap. */
  lemma ShrinkAgrees(words: seq<bv64>, buckets: map<int, set<Key>>, m: nat, s: set<Key>)
    requires BitmapAgrees(words, buckets) && m < SLOTS
    requires s != {} && buckets[m] != {}
    ensures BitmapAgrees(words, buckets[m := s])
  {
    assert Occupied(buckets[m := s]) == Occupied(buckets);
  }

  class BitmappedTimeWheel {
    const slots: array<bv64>
    var pointer: int
    var buckets: map<int, set<Key>>

    ghost predicate Valid()
      reads this, slots
    {
      && slots.Length == 5
      && 0 <= pointer < SLOTS
      && BitmapAgrees(slots[..], buckets)
    }

    ghost function Timetable(): Timetable
      requires Valid()
      reads this, slots
    {
      Unroll(pointer, buckets)
    }

    constructor ()
      ensures Valid() && fresh(slots)
      ensures Timetable() == Empty()
    {
      slots := new bv64[5](_ => 0);
      pointer := 0;
      var empty: map<int, set<Key>> := map[];
      for m := 0 to SLOTS
        invariant forall i :: i in empty <==> 0 <= i < m
        invariant forall i | 0 <= i < m :: empty[i] == {}
      {
        empty := empty[m := {}];
      }
      buckets := empty;
      new;
      assert Occupied(buckets) == {};
      ZeroEncodesNothing(slots[..], 64 * |slots[..]|);
      assert Timetable().due == Empty().due;
    }

    method TestBit(slot: int) returns (lit: bool)
      requires slots.Length == 5 && 0 <= slot < SLOTS
      ensures lit <==> Lit(slots[..], slot)
    {
      var wordIdx, bitIdx := slot / 64, slot % 64;
      lit := slots[wordIdx] & Bit(bitIdx) != 0;
    }

    method RaiseBit(slot: int)
      requires slots.Length == 5 && 0 <= slot < SLOTS
      modifies slots
      ensures slots[..] == WithBit(old(slots[..]), slot)
    {
      var wordIdx, bitIdx := slot / 64, slot % 64;
      var word := slots[wordIdx] | Bit(bitIdx);
      slots[wordIdx] := word;
      assert slots[..] == old(slots[..])[wordIdx := word];
    }

    method ClearBit(slot: int)
      requires slots.Length == 5 && 0 <= slot < SLOTS
      modifies slots
      ensures slots[..] == WithoutBit(old(slots[..]), slot)
    {
      var wordIdx, bitIdx := slot / 64, slot % 64;
      var word := slots[wordIdx] & !Bit(bitIdx);
      slots[wordIdx] := word;
      assert slots[..] == old(slots[..])[wordIdx := word];
    }

    method Add(key: Key, minutesAhead: int) returns (targetSlot: int)
      requires Valid() && Reaches(pointer, minutesAhead)
      modifies this`buckets, slots
      ensures Valid()
      ensures Timetable() == AddKey(old(Timetable()), key, minutesAhead)
      ensures targetSlot == SlotOf(pointer, Ahead(minutesAhead))
    {
      hide Ahead, Reaches, SlotOf, PositionOf;
      TargetSlot(pointer, minutesAhead);
      targetSlot := (pointer + minutesAhead) % SLOTS;
      ghost var words, bucket := slots[..], buckets[targetSlot] + {key};
      UnrollUpdate(pointer, buckets, targetSlot, bucket);
      RaiseAgrees(words, buckets, targetSlot, bucket);

      RaiseBit(targetSlot);
      buckets := buckets[targetSlot := buckets[targetSlot] + {key}];
    }

    /** Takes the key out of the lowest bucket that holds it, if any. */
    method TakeLowest(key: Key) returns (oldSlot: int)
      requires Valid()
      modifies this`buckets, slots
      ensures Valid()
      ensures Timetable() == RemoveKey(old(Timetable()), key)
    {
      oldSlot := FindLowest(key);
      if oldSlot != -1 {
        ghost var words, bucket := slots[..], buckets[oldSlot] - {key};
        UnrollUpdate(pointer, buckets, oldSlot, bucket);
        if bucket != {} {
          ShrinkAgrees(words, buckets, oldSlot, bucket);
        } else {
          ExtinguishAgrees(words, buckets, oldSlot);
        }
        buckets := buckets[oldSlot := buckets[oldSlot] - {key}];
        if buckets[oldSlot] == {} {
          ClearBit(oldSlot);
        }
      }
    }

    method FindLowest(key: Key) returns (oldSlot: int)
      requires Valid()
      ensures var slot := LowestSlot(Timetable(), key, 0);
              if slot == SLOTS then oldSlot == -1
              else oldSlot == slot && Timetable().due[PositionOf(pointer, slot)] == buckets[slot]
    {
      oldSlot := -1;
      var m := 0;
      while m < SLOTS
        invariant 0 <= m <= SLOTS
        invariant LowestSlot(Timetable(), key, 0) == LowestSlot(Timetable(), key, m)
      {
        assert Timetable().due[PositionOf(pointer, m)] == buckets[m];
        if key in buckets[m] {
          return m;
        }
        m := m + 1;
      }
    }

    method Move(key: Key, extendMinutes: int) returns (newSlot: int)
      requires Valid() && Reaches(pointer, extendMinutes)
      modifies this`buckets, slots
      ensures Valid()
      ensures Timetable() == MoveKey(old(Timetable()), key, extendMinutes)
      ensures newSlot == SlotOf(pointer, Ahead(extendMinutes))
    {
      var _ := TakeLowest(key);
      newSlot := Add(key, extendMinutes);
    }

    method Tick() returns (expiredKeys: seq<Key>, currentPointer: int)
      requires Valid()
      modifies this, slots
      ensures Valid()
      ensures Timetable() == Advance(old(Timetable()))
      ensures multiset(expiredKeys) == multiset(old(Timetable()).due[0])
      ensures currentPointer == pointer
    {
      ghost var words, before := slots[..], buckets;
      UnrollAdvance(pointer, buckets);
      pointer := (pointer + 1) % SLOTS;
      currentPointer := pointer;
      ExtinguishAgrees(words, before, pointer);

      var pending := TestBit(currentPointer);
      BitmapMeansOccupied(words, before, currentPointer);
      if !pending {
        assert before[currentPointer := {}] == before;
        return [], currentPointer;
      }
      expiredKeys := Drain(currentPointer);
      ClearBit(currentPointer);
    }

    /** Moves the keys of one bucket into a list, in any order. */
    method Drain(slot: int) returns (keys: seq<Key>)
      requires slot in buckets
      modifies this`buckets
      ensures buckets == old(buckets)[slot := {}]
      ensures multiset(keys) == multiset(old(buckets)[slot])
    {
      keys := [];
      while buckets[slot] != {}
        invariant slot in buckets && buckets == old(buckets)[slot := buckets[slot]]
        invariant multiset(keys) + multiset(buckets[slot]) == multiset(old(buckets)[slot])
        decreases buckets[slot]
      {
        var key :| key in buckets[slot];
        assert multiset(buckets[slot]) == multiset(buckets[slot] - {key}) + multiset{key};
        keys := keys + [key];
        buckets := buckets[slot := buckets[slot] - {key}];
      }
    }

    method Remove(key: Key)
      requires Valid()
      modifies this`buckets, slots
      ensures Valid()
      ensures Timetable() == RemoveKey(old(Timetable()), key)
    {
      var _ := TakeLowest(key);
    }
  }
}
