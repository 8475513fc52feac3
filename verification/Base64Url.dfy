/** Unpadded base64url (section 5 of RFC 4648), encoding and the library's lenient decoding. */
module Base64Url {
  import opened Wrappers

  type Byte = x: int | 0 <= x < 256
  type Bytes = seq<Byte>
  type Sextet = x: int | 0 <= x < 64

  const DOT: Byte := 46

  /** A-Z, a-z, 0-9, '-' and '_'. */
  function Letter(v: Sextet): Byte {
    if v < 26 then 65 + v
    else if v < 52 then 71 + v
    else if v < 62 then v - 4
    else if v == 62 then 45
    else 95
  }

  function Value(c: Byte): Option<Sextet> {
    if 65 <= c <= 90 then Some(c - 65)
    else if 97 <= c <= 122 then Some(c - 71)
    else if 48 <= c <= 57 then Some(c + 4)
    else if c == 45 then Some(62)
    else if c == 95 then Some(63)
    else None
  }

  lemma LetterValue(v: Sextet)
    ensures Value(Letter(v)) == Some(v) && Letter(v) != DOT && Letter(v) != 10 && Letter(v) != 13
  {
  }

  // The four sextets of three bytes, and the three bytes of four sextets.

  function First(p: Byte): Sextet { p / 4 }

  function Second(p: Byte, q: Byte): Sextet { p % 4 * 16 + q / 16 }

  function Third(q: Byte, r: Byte): Sextet { q % 16 * 4 + r / 64 }

  function Fourth(r: Byte): Sextet { r % 64 }

  function High(v: Sextet, w: Sextet): Byte { v * 4 + w / 16 }

  function Middle(w: Sextet, x: Sextet): Byte { w % 16 * 16 + x / 4 }

  function Low(x: Sextet, y: Sextet): Byte { x % 4 * 64 + y }

  function Group(p: Byte, q: Byte, r: Byte): Bytes {
    [Letter(First(p)), Letter(Second(p, q)), Letter(Third(q, r)), Letter(Fourth(r))]
  }

  function Encode(b: Bytes): Bytes {
    if |b| < 3 then EncodeEnd(b) else Group(b[0], b[1], b[2]) + Encode(b[3..])
  }

  /** Missing bytes at the end count as zeros, and there is no padding. */
  function EncodeEnd(b: Bytes): Bytes
    requires |b| < 3
  {
    if b == [] then []
    else if |b| == 1 then [Letter(First(b[0])), Letter(Second(b[0], 0))]
    else [Letter(First(b[0])), Letter(Second(b[0], b[1])), Letter(Third(b[1], 0))]
  }

  /** Line breaks are skipped wherever they occur. */
  function WithoutBreaks(s: Bytes): Bytes {
    if s == [] then []
    else (if s[0] == 10 || s[0] == 13 then [] else [s[0]]) + WithoutBreaks(s[1..])
  }

  function Four(v: Sextet, w: Sextet, x: Sextet, y: Sextet): Bytes {
    [High(v, w), Middle(w, x), Low(x, y)]
  }

  predicate Known(c: Byte) {
    Value(c).Some?
  }

  /** A letter outside the alphabet or a lone last letter is an error; spare bits at the end are ignored. */
  function DecodeLetters(s: Bytes): Option<Bytes> {
    if |s| < 4 then DecodeEnd(s)
    else if Known(s[0]) && Known(s[1]) && Known(s[2]) && Known(s[3]) then
      match DecodeLetters(s[4..])
      case None => None
      case Some(rest) => Some(Four(Value(s[0]).value, Value(s[1]).value, Value(s[2]).value, Value(s[3]).value) + rest)
    else None
  }

  function DecodeEnd(s: Bytes): Option<Bytes>
    requires |s| < 4
  {
    if s == [] then Some([])
    else if |s| == 1 || !Known(s[0]) || !Known(s[1]) then None
    else if |s| == 2 then Some([High(Value(s[0]).value, Value(s[1]).value)])
    else if !Known(s[2]) then None
    else Some([High(Value(s[0]).value, Value(s[1]).value), Middle(Value(s[1]).value, Value(s[2]).value)])
  }

  function Decode(s: Bytes): Option<Bytes> {
    DecodeLetters(WithoutBreaks(s))
  }

  predicate Clean(s: Bytes) {
    forall i | 0 <= i < |s| :: s[i] != DOT && s[i] != 10 && s[i] != 13
  }

  lemma LetterClean(v: Sextet)
    ensures Letter(v) != DOT && Letter(v) != 10 && Letter(v) != 13
  {
  }

  lemma GroupClean(p: Byte, q: Byte, r: Byte)
    ensures Clean(Group(p, q, r))
  {
    LetterClean(First(p));
    LetterClean(Second(p, q));
    LetterClean(Third(q, r));
    LetterClean(Fourth(r));
    hide Letter;
  }

  /** What Encode writes contains no dot and no line break. */
  lemma {:induction false} EncodeAlphabet(b: Bytes)
    ensures Clean(Encode(b)) && DOT !in Encode(b)
  {
    hide Letter, First, Second, Third, Fourth;
    if |b| >= 3 {
      GroupClean(b[0], b[1], b[2]);
      EncodeAlphabet(b[3..]);
      hide Group;
    } else if |b| >= 1 {
      LetterClean(First(b[0]));
      LetterClean(Second(b[0], 0));
      if |b| == 2 {
        LetterClean(Second(b[0], b[1]));
        LetterClean(Third(b[1], 0));
      }
    }
  }

  lemma {:induction false} NothingToSkip(s: Bytes)
    requires Clean(s)
    ensures WithoutBreaks(s) == s
  {
    if s != [] {
      assert Clean(s[1..]) by { assert forall i | 0 <= i < |s| - 1 :: s[1..][i] == s[i + 1]; }
      NothingToSkip(s[1..]);
    }
  }

  lemma LetterKnown(v: Sextet)
    ensures Known(Letter(v)) && Value(Letter(v)).value == v
  {
    LetterValue(v);
  }

  /** Three bytes, cut into four sextets and put together again. */
  lemma Regroup(p: Byte, q: Byte, r: Byte)
    ensures High(First(p), Second(p, q)) == p
    ensures Middle(Second(p, q), Third(q, r)) == q
    ensures Low(Third(q, r), Fourth(r)) == r
  {
  }

  /** Four sextets, put together into three bytes and cut apart again. */
  lemma Ungroup(v: Sextet, w: Sextet, x: Sextet, y: Sextet)
    ensures First(High(v, w)) == v && Second(High(v, w), Middle(w, x)) == w
    ensures Third(Middle(w, x), Low(x, y)) == x && Fourth(Low(x, y)) == y
  {
  }

  lemma DecodeTwo(v: Sextet, w: Sextet)
    ensures DecodeEnd([Letter(v), Letter(w)]) == Some([High(v, w)])
  {
    LetterKnown(v);
    LetterKnown(w);
    hide Letter, Value, Known, High;
  }

  lemma DecodeThree(v: Sextet, w: Sextet, x: Sextet)
    ensures DecodeEnd([Letter(v), Letter(w), Letter(x)]) == Some([High(v, w), Middle(w, x)])
  {
    LetterKnown(v);
    LetterKnown(w);
    LetterKnown(x);
    hide Letter, Value, Known, High, Middle;
  }

  lemma OneByte(p: Byte)
    ensures DecodeEnd(EncodeEnd([p])) == Some([p])
  {
    Regroup(p, 0, 0);
    DecodeTwo(First(p), Second(p, 0));
    hide DecodeEnd, Letter, First, Second, Third, Fourth, High, Middle, Low;
  }

  lemma TwoBytes(p: Byte, q: Byte)
    ensures DecodeEnd(EncodeEnd([p, q])) == Some([p, q])
  {
    Regroup(p, q, 0);
    DecodeThree(First(p), Second(p, q), Third(q, 0));
    hide DecodeEnd, Letter, First, Second, Third, Fourth, High, Middle, Low;
  }

  lemma DecodeEncodeEnd(b: Bytes)
    requires |b| < 3
    ensures |EncodeEnd(b)| < 4 && DecodeEnd(EncodeEnd(b)) == Some(b)
  {
    hide Letter, First, Second, Third;
    if |b| == 1 {
      OneByte(b[0]);
      assert b == [b[0]];
    } else if |b| == 2 {
      TwoBytes(b[0], b[1]);
      assert b == [b[0], b[1]];
    }
    hide DecodeEnd;
  }

  lemma DecodeGroup(v: Sextet, w: Sextet, x: Sextet, y: Sextet, rest: Bytes)
    requires DecodeLetters(rest).Some?
    ensures DecodeLetters([Letter(v), Letter(w), Letter(x), Letter(y)] + rest)
         == Some(Four(v, w, x, y) + DecodeLetters(rest).value)
  {
    LetterKnown(v);
    LetterKnown(w);
    LetterKnown(x);
    LetterKnown(y);
    hide Letter, Value, Known, Four;
    assert ([Letter(v), Letter(w), Letter(x), Letter(y)] + rest)[4..] == rest;
  }

  lemma DecodeEncodeGroup(p: Byte, q: Byte, r: Byte, rest: Bytes)
    requires DecodeLetters(Encode(rest)) == Some(rest)
    ensures DecodeLetters(Encode([p, q, r] + rest)) == Some([p, q, r] + rest)
  {
    var b := [p, q, r] + rest;
    assert b[3..] == rest;
    DecodeGroup(First(p), Second(p, q), Third(q, r), Fourth(r), Encode(rest));
    Regroup(p, q, r);
    hide Letter, DecodeLetters, First, Second, Third, Fourth, High, Middle, Low;
  }

  lemma {:induction false} DecodeEncodeLetters(b: Bytes)
    ensures DecodeLetters(Encode(b)) == Some(b)
  {
    hide DecodeEnd, EncodeEnd, Group;
    if |b| < 3 {
      DecodeEncodeEnd(b);
    } else {
      DecodeEncodeLetters(b[3..]);
      DecodeEncodeGroup(b[0], b[1], b[2], b[3..]);
      assert b == [b[0], b[1], b[2]] + b[3..];
    }
  }

  /** Every byte string survives encoding and decoding. */
  lemma DecodeEncode(b: Bytes)
    ensures Decode(Encode(b)) == Some(b)
  {
    EncodeAlphabet(b);
    NothingToSkip(Encode(b));
    DecodeEncodeLetters(b);
  }

  // ---------- What the encoding means ----------

  /** The letters are those of the URL-safe alphabet, in its order. */
  lemma LetterInOrder(v: Sextet)
    ensures v < 26 ==> Letter(v) == 'A' as int + v
    ensures 26 <= v < 52 ==> Letter(v) == 'a' as int + (v - 26)
    ensures 52 <= v < 62 ==> Letter(v) == '0' as int + (v - 52)
    ensures v == 62 ==> Letter(v) == '-' as int
    ensures v == 63 ==> Letter(v) == '_' as int
  {
  }

  lemma {:induction false} BreaksApart(a: Bytes, b: Bytes)
    ensures WithoutBreaks(a + b) == WithoutBreaks(a) + WithoutBreaks(b)
  {
    if a == [] {
      assert a + b == b;
    } else {
      assert (a + b)[1..] == a[1..] + b;
      BreaksApart(a[1..], b);
    }
  }

  /** A line break anywhere makes no difference to what is decoded. */
  lemma BreakIgnored(a: Bytes, c: Byte, b: Bytes)
    requires c == 10 || c == 13
    ensures Decode(a + [c] + b) == Decode(a + b)
  {
    assert [c][1..] == [];
    BreaksApart(a + [c], b);
    BreaksApart(a, [c]);
    BreaksApart(a, b);
    assert WithoutBreaks([c]) == [];
    assert WithoutBreaks(a + [c]) == WithoutBreaks(a);
  }

  function Quad(v: int, w: int, x: int, y: int): int {
    64 * (64 * (64 * v + w) + x) + y
  }

  function Triple(p: int, q: int, r: int): int {
    256 * (256 * p + q) + r
  }

  /** Each three bytes become the four letters that spell the same 24-bit number, the rest follows likewise. */
  lemma EncodeGroup(b: Bytes) returns (v: Sextet, w: Sextet, x: Sextet, y: Sextet)
    requires |b| >= 3
    ensures Encode(b) == [Letter(v), Letter(w), Letter(x), Letter(y)] + Encode(b[3..])
    ensures Quad(v, w, x, y) == Triple(b[0], b[1], b[2])
  {
    v, w, x, y := First(b[0]), Second(b[0], b[1]), Third(b[1], b[2]), Fourth(b[2]);
  }

  /** One or two bytes at the end become two or three letters; the missing bytes count as zeros, and no padding follows. */
  lemma EncodeLast(b: Bytes) returns (v: Sextet, w: Sextet, x: Sextet)
    requires |b| < 3
    ensures b == [] ==> Encode(b) == []
    ensures |b| == 1 ==> Encode(b) == [Letter(v), Letter(w)] && Quad(v, w, 0, 0) == Triple(b[0], 0, 0)
    ensures |b| == 2 ==> Encode(b) == [Letter(v), Letter(w), Letter(x)] && Quad(v, w, x, 0) == Triple(b[0], b[1], 0)
  {
    v, w, x := 0, 0, 0;
    if |b| == 1 {
      v, w := First(b[0]), Second(b[0], 0);
    } else if |b| == 2 {
      v, w, x := First(b[0]), Second(b[0], b[1]), Third(b[1], 0);
    }
  }

  predicate InAlphabet(s: Bytes) {
    forall i | 0 <= i < |s| :: Known(s[i])
  }

  lemma AlphabetInTwo(s: Bytes)
    requires |s| >= 4
    ensures InAlphabet(s) <==> Known(s[0]) && Known(s[1]) && Known(s[2]) && Known(s[3]) && InAlphabet(s[4..])
  {
    hide Known;
    assert forall i | 4 <= i < |s| :: s[i] == s[4..][i - 4];
    assert forall i | 0 <= i < |s| - 4 :: s[4..][i] == s[i + 4];
  }

  /** What is decoded, apart from line breaks: letters of the alphabet, with no lone one at the end. */
  lemma {:induction false} DecodeAccepts(s: Bytes)
    ensures DecodeLetters(s).Some? <==> InAlphabet(s) && |s| % 4 != 1
    decreases |s|
  {
    hide Known, Four;
    if |s| >= 4 {
      DecodeAccepts(s[4..]);
      AlphabetInTwo(s);
      hide InAlphabet;
    }
  }

  lemma ValueLetter(c: Byte)
    ensures Value(c).Some? ==> Letter(Value(c).value) == c
  {
  }

  /** The same letters, but for spare bits in the last one. */
  predicate SameLetters(e: Bytes, s: Bytes) {
    |e| == |s| && forall i | 0 <= i < |s| && (i < |s| - 1 || |s| % 4 == 0) :: e[i] == s[i]
  }

  lemma SameLettersBehind(e: Bytes, s: Bytes)
    requires |s| >= 4 && SameLetters(e, s[4..])
    ensures SameLetters(s[..4] + e, s)
  {
    var all := s[..4] + e;
    forall i | 0 <= i < |s| && (i < |s| - 1 || |s| % 4 == 0) ensures all[i] == s[i] {
      if i >= 4 { assert e[i - 4] == s[4..][i - 4]; }
    }
  }

  /** What was decoded encodes to the same letters again. */
  lemma {:induction false} EncodeDecode(s: Bytes)
    requires DecodeLetters(s).Some?
    ensures SameLetters(Encode(DecodeLetters(s).value), s)
    decreases |s|
  {
    if |s| < 4 {
      EncodeDecodeEnd(s);
    } else {
      EncodeDecode(s[4..]);
      EncodeDecodeGroup(s);
      SameLettersBehind(Encode(DecodeLetters(s[4..]).value), s);
    }
    hide SameLetters, Encode;
  }

  lemma FirstFour(s: Bytes)
    requires |s| >= 4 && DecodeLetters(s).Some?
    ensures Known(s[0]) && Known(s[1]) && Known(s[2]) && Known(s[3]) && DecodeLetters(s[4..]).Some?
    ensures DecodeLetters(s).value
         == Four(Value(s[0]).value, Value(s[1]).value, Value(s[2]).value, Value(s[3]).value) + DecodeLetters(s[4..]).value
  {
    hide Value, Four;
  }

  lemma EncodeDecodeGroup(s: Bytes)
    requires |s| >= 4 && DecodeLetters(s).Some?
    ensures DecodeLetters(s[4..]).Some?
    ensures Encode(DecodeLetters(s).value) == s[..4] + Encode(DecodeLetters(s[4..]).value)
  {
    FirstFour(s);
    LettersKept(s[..4], DecodeLetters(s[4..]).value);
    hide DecodeLetters, Encode, Four, Value, Known;
  }

  lemma LettersKept(s: Bytes, rest: Bytes)
    requires |s| == 4 && Known(s[0]) && Known(s[1]) && Known(s[2]) && Known(s[3])
    ensures Encode(Four(Value(s[0]).value, Value(s[1]).value, Value(s[2]).value, Value(s[3]).value) + rest) == s + Encode(rest)
  {
    ValueLetter(s[0]);
    ValueLetter(s[1]);
    ValueLetter(s[2]);
    ValueLetter(s[3]);
    EncodeFour(Value(s[0]).value, Value(s[1]).value, Value(s[2]).value, Value(s[3]).value, rest);
    hide Value, Letter, Encode, Four;
    assert s == [s[0], s[1], s[2], s[3]];
  }

  lemma EncodeFour(v: Sextet, w: Sextet, x: Sextet, y: Sextet, rest: Bytes)
    ensures Encode(Four(v, w, x, y) + rest) == [Letter(v), Letter(w), Letter(x), Letter(y)] + Encode(rest)
  {
    Ungroup(v, w, x, y);
    hide Letter, First, Second, Third, Fourth, High, Middle, Low;
    var b := Four(v, w, x, y) + rest;
    assert b[3..] == rest;
  }

  lemma EncodeDecodeEnd(s: Bytes)
    requires |s| < 4 && DecodeEnd(s).Some?
    ensures SameLetters(Encode(DecodeEnd(s).value), s)
  {
    if |s| >= 2 {
      var v, w, x := Value(s[0]).value, Value(s[1]).value, if |s| == 3 then Value(s[2]).value else 0;
      ValueLetter(s[0]);
      ValueLetter(s[1]);
      Ungroup(v, w, x, 0);
      hide Value, Letter, First, Second, Third, Fourth, High, Middle, Low;
    }
  }
}
