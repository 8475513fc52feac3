/** Single-bit tests and updates on the 64-bit words of the time wheel's bitmap. */
module Bits {

  /** The word whose only set bit is bit n. */
  function Bit(n: nat): bv64
    requires n < 64
  {
    (1 as bv64) << (n as bv6)
  }

  lemma ShiftOf(n: nat) returns (x: bv6)
    requires n < 64
    ensures x as int == n && Bit(n) == (1 as bv64) << x
  {
    x := n as bv6;
  }

  /** Different bits do not overlap. */
  lemma Disjoint(n: nat, m: nat)
    requires n < 64 && m < 64 && n != m
    ensures Bit(n) & Bit(m) == 0
  {
    var x := ShiftOf(n);
    var y := ShiftOf(m);
    ShiftsDisjoint(x, y);
  }

  lemma ShiftsDisjoint(x: bv6, y: bv6)
    requires x != y
    ensures ((1 as bv64) << x) & ((1 as bv64) << y) == 0
  {
  }

  /** Or-ing in or masking out one bit changes no other bit. */
  lemma SetOther(w: bv64, n: nat, m: nat)
    requires n < 64 && m < 64 && n != m
    ensures (w | Bit(n)) & Bit(m) == w & Bit(m)
  {
    Disjoint(n, m);
    SetOtherMask(w, Bit(n), Bit(m));
  }

  lemma ClearOther(w: bv64, n: nat, m: nat)
    requires n < 64 && m < 64 && n != m
    ensures (w & !Bit(n)) & Bit(m) == w & Bit(m)
  {
    Disjoint(n, m);
    ClearOtherMask(w, Bit(n), Bit(m));
  }

  lemma SetOtherMask(w: bv64, a: bv64, b: bv64)
    requires a & b == 0
    ensures (w | a) & b == w & b
  {
  }

  lemma ClearOtherMask(w: bv64, a: bv64, b: bv64)
    requires a & b == 0
    ensures (w & !a) & b == w & b
  {
  }

  /** Bit m of a bitmap made of 64-bit words. */
  predicate Lit(words: seq<bv64>, m: nat)
    requires m / 64 < |words|
  {
    words[m / 64] & Bit(m % 64) != 0
  }

  /** Among the first n bits of the bitmap, exactly those in `lit` are 1. */
  predicate Encodes(words: seq<bv64>, lit: set<int>, n: nat)
    requires n <= 64 * |words|
    decreases n
  {
    n == 0 || (Encodes(words, lit, n - 1) && (Lit(words, n - 1) <==> n - 1 in lit))
  }

  lemma {:induction false} EncodesAt(words: seq<bv64>, lit: set<int>, n: nat, m: nat)
    requires m < n <= 64 * |words| && Encodes(words, lit, n)
    ensures Lit(words, m) <==> m in lit
    decreases n
  {
    if m < n - 1 { EncodesAt(words, lit, n - 1, m); }
  }

  function WithBit(words: seq<bv64>, m: nat): seq<bv64>
    requires m / 64 < |words|
  {
    words[m / 64 := words[m / 64] | Bit(m % 64)]
  }

  function WithoutBit(words: seq<bv64>, m: nat): seq<bv64>
    requires m / 64 < |words|
  {
    words[m / 64 := words[m / 64] & !Bit(m % 64)]
  }

  lemma SameWordOne(words: seq<bv64>, words': seq<bv64>, n: nat)
    requires n < 64 * |words| && |words'| == |words| && words'[n / 64] == words[n / 64]
    requires Lit(words, n)
    ensures Lit(words', n)
  {
  }

  lemma SameWordZero(words: seq<bv64>, words': seq<bv64>, n: nat)
    requires n < 64 * |words| && |words'| == |words| && words'[n / 64] == words[n / 64]
    requires !Lit(words, n)
    ensures !Lit(words', n)
  {
  }

  /** WithBit sets bit m and changes no other bit of the bitmap. */
  lemma SetLit(words: seq<bv64>, m: nat, n: nat)
    requires m < 64 * |words| && n < 64 * |words|
    ensures Lit(WithBit(words, m), n) <==> n == m || Lit(words, n)
  {
    if n == m {
      SetLitOwn(words, m);
    } else if Lit(words, n) {
      if n / 64 == m / 64 { SetLitKeepsOne(words, m, n); } else { SameWordOne(words, WithBit(words, m), n); }
    } else {
      if n / 64 == m / 64 { SetLitKeepsZero(words, m, n); } else { SameWordZero(words, WithBit(words, m), n); }
    }
  }

  lemma SetLitOwn(words: seq<bv64>, m: nat)
    requires m < 64 * |words|
    ensures Lit(WithBit(words, m), m)
  {
  }

  lemma SetLitKeepsOne(words: seq<bv64>, m: nat, n: nat)
    requires m < 64 * |words| && n < 64 * |words| && n != m && n / 64 == m / 64
    requires Lit(words, n)
    ensures Lit(WithBit(words, m), n)
  {
  }

  lemma SetLitKeepsZero(words: seq<bv64>, m: nat, n: nat)
    requires m < 64 * |words| && n < 64 * |words| && n != m && n / 64 == m / 64
    requires !Lit(words, n)
    ensures !Lit(WithBit(words, m), n)
  {
    SetOther(words[m / 64], m % 64, n % 64);
  }

  /** WithoutBit clears bit m and changes no other bit of the bitmap. */
  lemma ClearLit(words: seq<bv64>, m: nat, n: nat)
    requires m < 64 * |words| && n < 64 * |words|
    ensures Lit(WithoutBit(words, m), n) <==> n != m && Lit(words, n)
  {
    if n == m {
      ClearLitOwn(words, m);
    } else if Lit(words, n) {
      if n / 64 == m / 64 { ClearLitKeepsOne(words, m, n); } else { SameWordOne(words, WithoutBit(words, m), n); }
    } else {
      if n / 64 == m / 64 { ClearLitKeepsZero(words, m, n); } else { SameWordZero(words, WithoutBit(words, m), n); }
    }
  }

  lemma ClearLitOwn(words: seq<bv64>, m: nat)
    requires m < 64 * |words|
    ensures !Lit(WithoutBit(words, m), m)
  {
  }

  lemma ClearLitKeepsOne(words: seq<bv64>, m: nat, n: nat)
    requires m < 64 * |words| && n < 64 * |words| && n != m && n / 64 == m / 64
    requires Lit(words, n)
    ensures Lit(WithoutBit(words, m), n)
  {
    ClearOther(words[m / 64], m % 64, n % 64);
  }

  lemma ClearLitKeepsZero(words: seq<bv64>, m: nat, n: nat)
    requires m < 64 * |words| && n < 64 * |words| && n != m && n / 64 == m / 64
    requires !Lit(words, n)
    ensures !Lit(WithoutBit(words, m), n)
  {
  }

  /** So the bitmap keeps encoding the set of lit bits when a bit is raised or cleared. */
  lemma {:induction false} SetEncodes(words: seq<bv64>, lit: set<int>, m: nat, n: nat)
    requires m < 64 * |words| && n <= 64 * |words| && Encodes(words, lit, n)
    ensures Encodes(WithBit(words, m), lit + {m}, n)
    decreases n
  {
    if n > 0 {
      SetEncodes(words, lit, m, n - 1);
      SetLit(words, m, n - 1);
    }
  }

  lemma {:induction false} ClearEncodes(words: seq<bv64>, lit: set<int>, m: nat, n: nat)
    requires m < 64 * |words| && n <= 64 * |words| && Encodes(words, lit, n)
    ensures Encodes(WithoutBit(words, m), lit - {m}, n)
    decreases n
  {
    if n > 0 {
      ClearEncodes(words, lit, m, n - 1);
      ClearLit(words, m, n - 1);
    }
  }

  lemma {:induction false} ZeroEncodesNothing(words: seq<bv64>, n: nat)
    requires n <= 64 * |words| && forall i | 0 <= i < |words| :: words[i] == 0
    ensures Encodes(words, {}, n)
    decreases n
  {
    if n > 0 {
      ZeroEncodesNothing(words, n - 1);
      ZeroMasked(Bit((n - 1) % 64));
    }
  }

  lemma ZeroMasked(a: bv64)
    ensures 0 & a == 0
  {
  }
}
