/** Decimal numerals: how they are written, and that they read back. */
module Numerals {

  function Digit(d: nat): char
    requires d < 10
  {
    "0123456789"[d]
  }

  function DigitValue(c: char): int {
    if '0' <= c <= '9' then c as int - '0' as int else -1
  }

  /** A number as the Go library prints it. */
  function Decimal(n: int): string
    decreases n < 0, if n < 0 then -n else n
  {
    if n < 0 then "-" + Decimal(-n)
    else if n < 10 then [Digit(n)]
    else Decimal(n / 10) + [Digit(n % 10)]
  }

  /** The number that a string of digits denotes, read from left to right. */
  function Read(s: string): int {
    if s == [] then 0 else 10 * Read(s[..|s| - 1]) + DigitValue(s[|s| - 1])
  }

  predicate Digits(s: string) {
    s != [] && forall i | 0 <= i < |s| :: '0' <= s[i] <= '9'
  }

  /** Digits without a leading zero, or "0". */
  predicate Numeral(s: string) {
    Digits(s) && (|s| == 1 || s[0] != '0')
  }

  /** An optional minus sign and a numeral. */
  predicate Denotes(s: string, n: int) {
    if n < 0 then s != [] && s[0] == '-' && Numeral(s[1..]) && Read(s[1..]) == -n
    else Numeral(s) && Read(s) == n
  }

  lemma DigitReads(d: nat)
    requires d < 10
    ensures DigitValue(Digit(d)) == d && '0' <= Digit(d) <= '9' && (Digit(d) == '0' <==> d == 0)
  {
  }

  lemma {:induction false} DecimalIsNumeral(n: nat)
    ensures Numeral(Decimal(n)) && Read(Decimal(n)) == n && (Decimal(n)[0] == '0' <==> n == 0)
    decreases n
  {
    if n < 10 {
      DigitReads(n);
    } else {
      var s := Decimal(n / 10);
      DecimalIsNumeral(n / 10);
      DigitReads(n % 10);
      assert Decimal(n)[..|s|] == s;
    }
  }

  lemma DecimalOfNegative(n: int)
    requires n < 0
    ensures Decimal(n) != [] && Decimal(n)[0] == '-' && Decimal(n)[1..] == Decimal(-n)
  {
    var d := Decimal(-n);
    assert Decimal(n) == "-" + d;
    hide Decimal;
  }

  /** What is printed denotes the number. */
  lemma DecimalDenotes(n: int)
    ensures Denotes(Decimal(n), n)
  {
    hide Decimal, Read, Numeral;
    if n < 0 {
      DecimalOfNegative(n);
      DecimalIsNumeral(-n);
    } else {
      DecimalIsNumeral(n);
    }
  }

  lemma {:induction false} ReadNotNegative(s: string)
    requires Digits(s)
    ensures Read(s) >= 0 && (s[0] != '0' ==> Read(s) >= 1)
    decreases |s|
  {
    if |s| > 1 { ReadNotNegative(s[..|s| - 1]); }
  }

  /** Only one numeral reads as a given number. */
  lemma {:induction false} NumeralUnique(a: string, b: string)
    requires Numeral(a) && Numeral(b) && Read(a) == Read(b)
    ensures a == b
    decreases |a|
  {
    var x, y := a[..|a| - 1], b[..|b| - 1];
    if x != [] { ReadNotNegative(x); }
    if y != [] { ReadNotNegative(y); }
    var v, w := DigitValue(a[|a| - 1]), DigitValue(b[|b| - 1]);
    assert 10 * Read(x) + v == 10 * Read(y) + w && 0 <= v <= 9 && 0 <= w <= 9;
    assert Read(x) == Read(y) && v == w;
    if x != [] && y != [] {
      NumeralUnique(x, y);
    }
    assert a == x + [a[|a| - 1]] && b == y + [b[|b| - 1]];
  }

  /** A text denotes at most one number. */
  lemma DenotesOne(s: string, m: int, n: int)
    requires Denotes(s, m) && Denotes(s, n)
    ensures m == n
  {
    assert m < 0 <==> s[0] == '-';
    assert n < 0 <==> s[0] == '-';
  }
}
