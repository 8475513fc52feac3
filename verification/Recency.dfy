/**
 What the LRU cache means: a list of entries without duplicate keys, most recently used first.
 The operations below are the cache's operations on that list; the theorems are about whole traces.
 */
module Recency {
  import opened Wrappers

  datatype Entry<V> = Entry(key: string, value: V, lastAccess: int)

  // ---------- Lists of entries ----------

  predicate HasKey<V>(s: seq<Entry<V>>, key: string) {
    exists i :: 0 <= i < |s| && s[i].key == key
  }

  predicate Distinct<V>(s: seq<Entry<V>>) {
    forall i, j :: 0 <= i < j < |s| ==> s[i].key != s[j].key
  }

  /** The list without the (first) entry of the key. */
  function Without<V>(s: seq<Entry<V>>, key: string): seq<Entry<V>> {
    if s == [] then []
    else if s[0].key == key then s[1..]
    else [s[0]] + Without(s[1..], key)
  }

  function Lookup<V>(s: seq<Entry<V>>, key: string): Option<V> {
    if s == [] then None
    else if s[0].key == key then Some(s[0].value)
    else Lookup(s[1..], key)
  }

  function Front<V>(s: seq<Entry<V>>): seq<Entry<V>> {
    if s == [] then [] else s[..|s| - 1]
  }

  // ---------- The cache's operations ----------

  datatype Op<V> =
    | Set(key: string, value: V, now: int)
    | Get(key: string, now: int)
    | Remove(key: string)
    | RemoveTail

  function SetKey<V>(s: seq<Entry<V>>, capacity: int, key: string, value: V, now: int): seq<Entry<V>> {
    [Entry(key, value, now)] +
    if Lookup(s, key).Some? then Without(s, key)
    else if |s| >= capacity then Front(s)
    else s
  }

  /** The key an inserting Set pushes out; the empty string when nothing is pushed out. */
  function Evicted<V>(s: seq<Entry<V>>, capacity: int, key: string): string {
    if Lookup(s, key).None? && |s| >= capacity && s != [] then s[|s| - 1].key else ""
  }

  function GetKey<V>(s: seq<Entry<V>>, key: string, now: int): seq<Entry<V>> {
    match Lookup(s, key)
    case None => s
    case Some(value) => [Entry(key, value, now)] + Without(s, key)
  }

  function Step<V>(s: seq<Entry<V>>, capacity: int, op: Op<V>): seq<Entry<V>> {
    match op
    case Set(key, value, now) => SetKey(s, capacity, key, value, now)
    case Get(key, now) => GetKey(s, key, now)
    case Remove(key) => Without(s, key)
    case RemoveTail => Front(s)
  }

  function Run<V>(s: seq<Entry<V>>, capacity: int, ops: seq<Op<V>>): seq<Entry<V>>
    decreases |ops|
  {
    if ops == [] then s else Run(Step(s, capacity, ops[0]), capacity, ops[1..])
  }

  // ---------- Lookups ----------

  lemma {:induction false} LookupMeansHasKey<V>(s: seq<Entry<V>>, key: string)
    ensures Lookup(s, key).Some? <==> HasKey(s, key)
  {
    if s != [] && s[0].key != key {
      LookupMeansHasKey(s[1..], key);
      if HasKey(s, key) {
        var i :| 0 <= i < |s| && s[i].key == key;
        assert s[1..][i - 1].key == key;
      }
    }
  }

  lemma {:induction false} LookupAt<V>(s: seq<Entry<V>>, i: nat)
    requires Distinct(s) && i < |s|
    ensures Lookup(s, s[i].key) == Some(s[i].value)
    ensures Without(s, s[i].key) == s[..i] + s[i + 1..]
  {
    if i > 0 {
      LookupAt(s[1..], i - 1);
      CutBehindFirst(s, i);
    }
  }

  lemma CutBehindFirst<T>(s: seq<T>, i: nat)
    requires 0 < i < |s|
    ensures s[1..][i - 1] == s[i]
    ensures [s[0]] + (s[1..][..i - 1] + s[1..][i..]) == s[..i] + s[i + 1..]
  {
  }

  lemma {:induction false} WithoutAbsent<V>(s: seq<Entry<V>>, key: string)
    requires Lookup(s, key).None?
    ensures Without(s, key) == s
  {
    if s != [] { WithoutAbsent(s[1..], key); }
  }

  /** Taking a key out makes it unfindable and leaves every other lookup as it was. */
  lemma {:induction false} LookupWithout<V>(s: seq<Entry<V>>, key: string, other: string)
    requires Distinct(s)
    ensures Lookup(Without(s, key), other) == if other == key then None else Lookup(s, other)
  {
    if s != [] {
      LookupWithout(s[1..], key, other);
      if s[0].key == key && other == key {
        LookupMeansHasKey(s[1..], key);
      }
    }
  }

  lemma {:induction false} LookupFront<V>(s: seq<Entry<V>>, key: string)
    requires Distinct(s) && s != []
    ensures Lookup(Front(s), key) == if key == s[|s| - 1].key then None else Lookup(s, key)
  {
    LookupAt(s, |s| - 1);
    assert s[..|s| - 1] + s[|s|..] == Front(s);
    LookupWithout(s, s[|s| - 1].key, key);
  }

  /** Every operation keeps keys distinct and, with capacity at least one, the size within it. */
  lemma StepWellFormed<V>(s: seq<Entry<V>>, capacity: int, op: Op<V>)
    requires Distinct(s) && |s| <= capacity && capacity >= 1
    ensures Distinct(Step(s, capacity, op)) && |Step(s, capacity, op)| <= capacity
  {
    match op
    case RemoveTail =>
    case Remove(key) => WithoutWellFormed(s, key);
    case Get(key, now) => WithoutWellFormed(s, key);
    case Set(key, value, now) =>
      WithoutWellFormed(s, key);
      LookupMeansHasKey(s, key);
  }

  lemma WithoutWellFormed<V>(s: seq<Entry<V>>, key: string)
    requires Distinct(s)
    ensures Distinct(Without(s, key)) && !HasKey(Without(s, key), key)
    ensures |Without(s, key)| == if Lookup(s, key).Some? then |s| - 1 else |s|
  {
    LookupWithout(s, key, key);
    LookupMeansHasKey(Without(s, key), key);
    LookupMeansHasKey(s, key);
    if i :| 0 <= i < |s| && s[i].key == key {
      LookupAt(s, i);
    } else {
      WithoutAbsent(s, key);
    }
  }

  /** What each key maps to after a step; in particular an inserting Set drops exactly the evicted key. */
  lemma LookupStep<V>(s: seq<Entry<V>>, capacity: int, op: Op<V>, key: string)
    requires Distinct(s) && |s| <= capacity && capacity >= 1
    ensures var after := Lookup(Step(s, capacity, op), key);
            match op
            case Set(k, value, _) =>
              after == if key == k then Some(value)
                       else if Lookup(s, k).None? && |s| == capacity && key == Evicted(s, capacity, k) then None
                       else Lookup(s, key)
            case Get(_, _) => after == Lookup(s, key)
            case Remove(k) => after == if key == k then None else Lookup(s, key)
            case RemoveTail => after == if s != [] && key == s[|s| - 1].key then None else Lookup(s, key)
  {
    if op.RemoveTail? {
      if s != [] { LookupFront(s, key); }
    } else {
      LookupWithout(s, op.key, key);
      if op.Set? && |s| == capacity { LookupFront(s, key); }
    }
  }

  // ---------- Recency and the clock ----------

  predicate NewestFirst<V>(s: seq<Entry<V>>) {
    forall i, j :: 0 <= i < j < |s| ==> s[i].lastAccess >= s[j].lastAccess
  }

  predicate NoneAfter<V>(s: seq<Entry<V>>, now: int) {
    forall i :: 0 <= i < |s| ==> s[i].lastAccess <= now
  }

  /** The operations of a trace carry clock readings that never go back, from `start` on. */
  predicate ClockRuns<V>(ops: seq<Op<V>>, start: int) {
    ops == [] ||
    if ops[0].Set? || ops[0].Get? then start <= ops[0].now && ClockRuns(ops[1..], ops[0].now)
    else ClockRuns(ops[1..], start)
  }

  lemma {:induction false} WithoutKeepsOrder<V>(s: seq<Entry<V>>, key: string, now: int)
    requires NewestFirst(s) && NoneAfter(s, now)
    ensures NewestFirst(Without(s, key)) && NoneAfter(Without(s, key), now)
    ensures s != [] ==> NoneAfter(Without(s, key), s[0].lastAccess)
  {
    if s != [] {
      assert NoneAfter(s[1..], s[0].lastAccess);
      WithoutKeepsOrder(s[1..], key, s[0].lastAccess);
    }
  }

  /** LastAccess is non-increasing from head to tail, over every trace with a non-decreasing clock. */
  lemma {:induction false} RunKeepsNewestFirst<V>(s: seq<Entry<V>>, capacity: int, ops: seq<Op<V>>, now: int)
    requires NewestFirst(s) && NoneAfter(s, now) && ClockRuns(ops, now)
    ensures NewestFirst(Run(s, capacity, ops))
    decreases |ops|
  {
    if ops != [] {
      var op := ops[0];
      var now' := if op.Set? || op.Get? then op.now else now;
      if !op.RemoveTail? { WithoutKeepsOrder(s, op.key, now); }
      RunKeepsNewestFirst(Step(s, capacity, op), capacity, ops[1..], now');
    }
  }

  // ---------- The last access of each entry ----------

  predicate Accesses<V>(op: Op<V>, key: string) {
    (op.Set? || op.Get?) && op.key == key
  }

  predicate LastAccessAt<V>(ops: seq<Op<V>>, i: nat, key: string)
    requires i < |ops|
  {
    Accesses(ops[i], key) && forall j | i < j < |ops| :: !Accesses(ops[j], key)
  }

  /** The entry carries the time of the last Set or Get of its key, and without one it is unchanged. */
  ghost predicate Dated<V>(s: seq<Entry<V>>, ops: seq<Op<V>>, e: Entry<V>) {
    && (forall i | 0 <= i < |ops| && LastAccessAt(ops, i, e.key) :: e.lastAccess == ops[i].now)
    && ((forall i | 0 <= i < |ops| :: !Accesses(ops[i], e.key)) ==> e in s)
  }

  lemma {:induction false} WithoutTakesNone<V>(s: seq<Entry<V>>, key: string)
    ensures forall e | e in Without(s, key) :: e in s
  {
    if s != [] { WithoutTakesNone(s[1..], key); }
  }

  /** An entry after a step is the one that the step accesses, with the step's time, or it was there before. */
  lemma StepDates<V>(s: seq<Entry<V>>, capacity: int, op: Op<V>, e: Entry<V>)
    requires Distinct(s) && e in Step(s, capacity, op)
    ensures if Accesses(op, e.key) then e.lastAccess == op.now else e in s
  {
    if !op.RemoveTail? {
      WithoutTakesNone(s, op.key);
      WithoutWellFormed(s, op.key);
      LookupMeansHasKey(s, op.key);
    }
  }

  lemma DatedFirst<V>(s: seq<Entry<V>>, capacity: int, ops: seq<Op<V>>, e: Entry<V>)
    requires Distinct(s) && ops != [] && Dated(Step(s, capacity, ops[0]), ops[1..], e)
    ensures Dated(s, ops, e)
  {
    var rest := ops[1..];
    forall i | 0 <= i < |ops| && LastAccessAt(ops, i, e.key) ensures e.lastAccess == ops[i].now {
      if i > 0 {
        forall j | i - 1 < j < |rest| ensures !Accesses(rest[j], e.key) { assert rest[j] == ops[j + 1]; }
        assert LastAccessAt(rest, i - 1, e.key);
      } else {
        forall j | 0 <= j < |rest| ensures !Accesses(rest[j], e.key) { assert rest[j] == ops[j + 1]; }
        StepDates(s, capacity, ops[0], e);
      }
    }
    if forall i | 0 <= i < |ops| :: !Accesses(ops[i], e.key) {
      forall j | 0 <= j < |rest| ensures !Accesses(rest[j], e.key) { assert rest[j] == ops[j + 1]; }
      StepDates(s, capacity, ops[0], e);
    }
  }

  /** Over every trace, each entry is dated by the last Set or Get of its key. */
  lemma {:induction false} RunDates<V>(s: seq<Entry<V>>, capacity: int, ops: seq<Op<V>>, e: Entry<V>)
    requires Distinct(s) && |s| <= capacity && capacity >= 1 && e in Run(s, capacity, ops)
    ensures Dated(s, ops, e)
    decreases |ops|
  {
    if ops != [] {
      StepWellFormed(s, capacity, ops[0]);
      RunDates(Step(s, capacity, ops[0]), capacity, ops[1..], e);
      DatedFirst(s, capacity, ops, e);
    }
  }

  /** So what an inserting Set on a full cache pushes out is the least recently used entry. */
  lemma EvictsLeastRecent<V>(s: seq<Entry<V>>, capacity: int, key: string)
    requires NewestFirst(s) && Lookup(s, key).None? && |s| >= capacity && s != []
    ensures exists e :: e in s && e.key == Evicted(s, capacity, key) && forall f | f in s :: e.lastAccess <= f.lastAccess
  {
    var e := s[|s| - 1];
    assert e in s && e.key == Evicted(s, capacity, key);
  }

  // ---------- Inclusion ----------

  /** a can be obtained from b by leaving out elements. */
  predicate Subsequence<T(==)>(a: seq<T>, b: seq<T>) {
    a == [] || (b != [] && ((a[0] == b[0] && Subsequence(a[1..], b[1..])) || Subsequence(a, b[1..])))
  }

  lemma {:induction false} SubsequenceShorter<T>(a: seq<T>, b: seq<T>)
    requires Subsequence(a, b)
    ensures |a| <= |b|
  {
    if a != [] {
      if a[0] == b[0] && Subsequence(a[1..], b[1..]) {
        SubsequenceShorter(a[1..], b[1..]);
      } else {
        SubsequenceShorter(a, b[1..]);
      }
    }
  }

  lemma {:induction false} SubsequenceLookup<V>(a: seq<Entry<V>>, b: seq<Entry<V>>, key: string)
    requires Subsequence(a, b) && Distinct(b) && Lookup(a, key).Some?
    ensures Lookup(b, key) == Lookup(a, key)
  {
    if a[0] == b[0] && Subsequence(a[1..], b[1..]) {
      if a[0].key != key { SubsequenceLookup(a[1..], b[1..], key); }
    } else {
      SubsequenceLookup(a, b[1..], key);
      if b[0].key == key {
        LookupMeansHasKey(b[1..], key);
      }
    }
  }

  lemma {:induction false} SubsequenceWithout<V>(a: seq<Entry<V>>, b: seq<Entry<V>>, key: string)
    requires Subsequence(a, b) && Distinct(b)
    ensures Subsequence(Without(a, key), Without(b, key))
  {
    if a != [] {
      if a[0] == b[0] && Subsequence(a[1..], b[1..]) {
        SubsequenceWithout(a[1..], b[1..], key);
      } else if b[0].key == key {
        if Lookup(a, key).Some? {
          SubsequenceLookup(a, b[1..], key);
          LookupMeansHasKey(b[1..], key);
        }
        WithoutAbsent(a, key);
      } else {
        SubsequenceWithout(a, b[1..], key);
        assert Without(b, key)[1..] == Without(b[1..], key);
      }
    }
  }

  /** Dropping the last element on the left, and perhaps on the right too, keeps a subsequence. */
  lemma {:induction false} SubsequenceFront<V>(a: seq<Entry<V>>, b: seq<Entry<V>>)
    requires Subsequence(a, b)
    ensures Subsequence(Front(a), b) && Subsequence(Front(a), Front(b))
  {
    if |a| > 1 {
      SubsequenceShorter(a, b);
      assert Front(b)[1..] == Front(b[1..]);
      if a[0] == b[0] && Subsequence(a[1..], b[1..]) {
        SubsequenceFront(a[1..], b[1..]);
        assert Front(a)[1..] == Front(a[1..]);
      } else {
        SubsequenceFront(a, b[1..]);
      }
    }
  }

  /** The smaller cache holds a subsequence of the larger one, and trails it by at most the difference. */
  predicate Included<V(==)>(small: seq<Entry<V>>, m: int, large: seq<Entry<V>>, n: int) {
    && Distinct(small) && |small| <= m
    && Distinct(large) && |large| <= n
    && Subsequence(small, large)
    && |large| - |small| <= n - m
  }

  lemma StepKeepsInclusion<V>(small: seq<Entry<V>>, m: int, large: seq<Entry<V>>, n: int, op: Op<V>)
    requires 1 <= m <= n && Included(small, m, large, n)
    ensures Included(Step(small, m, op), m, Step(large, n, op), n)
  {
    StepWellFormed(small, m, op);
    StepWellFormed(large, n, op);
    SubsequenceShorter(small, large);
    SubsequenceFront(small, large);
    if !op.RemoveTail? {
      SubsequenceWithout(small, large, op.key);
      WithoutWellFormed(small, op.key);
      WithoutWellFormed(large, op.key);
      if Lookup(small, op.key).Some? {
        SubsequenceLookup(small, large, op.key);
      } else {
        WithoutAbsent(small, op.key);
        SubsequenceFront(small, Without(large, op.key));
      }
    }
  }

  /**
   LRU inclusion: the same trace on caches of capacity m <= n leaves the smaller cache a subsequence
   of the larger, entry by entry, never behind by more than n - m.
   */
  lemma {:induction false} RunKeepsInclusion<V>(small: seq<Entry<V>>, m: int, large: seq<Entry<V>>, n: int, ops: seq<Op<V>>)
    requires 1 <= m <= n && Included(small, m, large, n)
    ensures Included(Run(small, m, ops), m, Run(large, n, ops), n)
    decreases |ops|
  {
    if ops != [] {
      StepKeepsInclusion(small, m, large, n, ops[0]);
      RunKeepsInclusion(Step(small, m, ops[0]), m, Step(large, n, ops[0]), n, ops[1..]);
    }
  }
}
