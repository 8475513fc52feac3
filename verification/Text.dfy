/** Splitting a text at a separator and joining it again, as the Go library's Split and Join do. */
module Text {

  predicate At<T(==)>(s: seq<T>, sep: seq<T>, i: nat) {
    i + |sep| <= |s| && s[i..i + |sep|] == sep
  }

  /** The first position from `from` on at which the separator occurs, or |s| + 1. */
  function Find<T(==)>(s: seq<T>, sep: seq<T>, from: nat): (i: nat)
    requires from <= |s| + 1
    ensures from <= i <= |s| + 1
    ensures i <= |s| ==> At(s, sep, i)
    ensures forall j | from <= j < i :: !At(s, sep, j)
    decreases |s| + 1 - from
  {
    if from == |s| + 1 || At(s, sep, from) then from else Find(s, sep, from + 1)
  }

  /** The pieces between the leftmost, non-overlapping occurrences of the separator. */
  function Split<T(==)>(s: seq<T>, sep: seq<T>): (parts: seq<seq<T>>)
    requires sep != []
    ensures parts != []
    decreases |s|
  {
    var i := Find(s, sep, 0);
    if i > |s| then [s] else [s[..i]] + Split(s[i + |sep|..], sep)
  }

  function Join<T>(parts: seq<seq<T>>, sep: seq<T>): seq<T> {
    if parts == [] then []
    else if |parts| == 1 then parts[0]
    else parts[0] + sep + Join(parts[1..], sep)
  }

  /** Joining the pieces restores the text. */
  lemma {:induction false} JoinSplit<T>(s: seq<T>, sep: seq<T>)
    requires sep != []
    ensures Join(Split(s, sep), sep) == s
    decreases |s|
  {
    var i := Find(s, sep, 0);
    if i <= |s| {
      JoinSplit(s[i + |sep|..], sep);
      assert Split(s, sep)[1..] == Split(s[i + |sep|..], sep);
      assert s == s[..i] + sep + s[i + |sep|..];
    }
  }

  /** A separator that cannot overlap itself: one symbol, or two different ones. */
  predicate Simple<T(==)>(sep: seq<T>) {
    |sep| == 1 || (|sep| == 2 && sep[0] != sep[1])
  }

  predicate Lacks<T(==)>(s: seq<T>, sep: seq<T>) {
    forall i | 0 <= i <= |s| :: !At(s, sep, i)
  }

  /** After a piece without the separator, the separator is found right behind the piece. */
  lemma FoundBehind<T>(part: seq<T>, sep: seq<T>, rest: seq<T>)
    requires Simple(sep) && Lacks(part, sep)
    ensures Find(part + sep + rest, sep, 0) == |part|
  {
    var s := part + sep + rest;
    assert s[|part|..|part| + |sep|] == sep && At(s, sep, |part|);
    forall j | 0 <= j < |part| ensures !At(s, sep, j) {
      if j + |sep| <= |part| {
        assert s[j..j + |sep|] == part[j..j + |sep|];
        assert !At(part, sep, j);
      } else if |sep| == 2 {
        assert s[j..j + 2][1] == s[|part|] == sep[0];
      }
    }
  }

  /** Splitting joined pieces gives the pieces back, provided none of them holds the separator. */
  lemma {:induction false} SplitJoin<T>(parts: seq<seq<T>>, sep: seq<T>)
    requires Simple(sep) && parts != [] && forall p | p in parts :: Lacks(p, sep)
    ensures Split(Join(parts, sep), sep) == parts
    decreases |parts|
  {
    assert parts[0] in parts;
    if |parts| > 1 {
      var rest := Join(parts[1..], sep);
      var s := parts[0] + sep + rest;
      SplitJoin(parts[1..], sep);
      FoundBehind(parts[0], sep, rest);
      assert s[..|parts[0]|] == parts[0] && s[|parts[0]| + |sep|..] == rest;
    }
  }

  /** And the pieces of a text never hold the separator. */
  lemma {:induction false} SplitLacks<T>(s: seq<T>, sep: seq<T>)
    requires sep != []
    ensures forall p | p in Split(s, sep) :: Lacks(p, sep)
    decreases |s|
  {
    var i := Find(s, sep, 0);
    if i <= |s| {
      SplitLacks(s[i + |sep|..], sep);
      forall j | 0 <= j <= i ensures !At(s[..i], sep, j) {
        if At(s[..i], sep, j) {
          assert s[..i][j..j + |sep|] == s[j..j + |sep|];
          assert At(s, sep, j);
        }
      }
    }
  }
}
