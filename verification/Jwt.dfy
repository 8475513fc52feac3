/** The compact token form (section 7.1 of RFC 7515): issued by the auth service, read by the gateway. */
module Jwt {
  import opened Wrappers
  import opened Base64Url
  import opened Numerals
  import opened Text

  /** Keyed hash and JSON reader are left uninterpreted. */
  type Mac = (Bytes, Bytes) -> Bytes

  datatype Claims = Claims(userID: Bytes, email: Bytes, role: Bytes, exp: int)

  type Reader = Bytes -> Option<Claims>

  datatype Rejection = Topology | Signature | Encoding | Json | Expired

  /** The bytes of an ASCII text. */
  function Ascii(s: string): Bytes {
    seq(|s|, i requires 0 <= i < |s| => if s[i] < '\U{0080}' then s[i] as int else 63)
  }

  // ---------- Issuing ----------

  function Header(): Bytes {
    Ascii("{\"alg\":\"HS256\",\"typ\":\"JWT\"}")
  }

  /** The payload's fields are pasted in as they are, without escaping. */
  function Payload(claims: Claims): Bytes {
    Ascii("{\"user_id\":\"") + claims.userID + Ascii("\",\"email\":\"") + claims.email
    + Ascii("\",\"role\":\"") + claims.role + Ascii("\",\"exp\":") + Ascii(Decimal(claims.exp)) + Ascii("}")
  }

  function SigningInput(header: Bytes, payload: Bytes): Bytes {
    header + [DOT] + payload
  }

  function Issue(mac: Mac, secret: Bytes, claims: Claims): Bytes {
    var input := SigningInput(Encode(Header()), Encode(Payload(claims)));
    input + [DOT] + Encode(mac(secret, input))
  }

  // ---------- Validating ----------

  function Validate(mac: Mac, secret: Bytes, read: Reader, now: int, token: Bytes): Result<Claims, Rejection> {
    var parts := Split(token, [DOT]);
    if |parts| != 3 then Err(Topology)
    else if parts[2] != Encode(mac(secret, SigningInput(parts[0], parts[1]))) then Err(Signature)
    else match Decode(parts[1])
      case None => Err(Encoding)
      case Some(payload) =>
        match read(payload)
        case None => Err(Json)
        case Some(claims) => if now > claims.exp then Err(Expired) else Ok(claims)
  }

  // ---------- The round trip ----------

  lemma LacksDot(s: Bytes)
    requires DOT !in s
    ensures Lacks(s, [DOT])
  {
    forall i | 0 <= i <= |s| ensures !At(s, [DOT], i) {
      if i < |s| {
        assert s[i..i + 1] == [s[i]];
      }
    }
  }

  lemma JoinThree(a: Bytes, b: Bytes, c: Bytes)
    ensures Join([a, b, c], [DOT]) == SigningInput(a, b) + [DOT] + c
  {
    assert [a, b, c][1..] == [b, c] && [b, c][1..] == [c];
    assert Join([b, c], [DOT]) == b + [DOT] + c;
    assert Join([a, b, c], [DOT]) == a + [DOT] + (b + [DOT] + c);
  }

  /** Three dot-free parts joined by dots split into exactly these parts. */
  lemma CompactFormSplits(a: Bytes, b: Bytes, c: Bytes)
    requires DOT !in a && DOT !in b && DOT !in c
    ensures Split(SigningInput(a, b) + [DOT] + c, [DOT]) == [a, b, c]
  {
    LacksDot(a);
    LacksDot(b);
    LacksDot(c);
    JoinThree(a, b, c);
    SplitJoin([a, b, c], [DOT]);
  }

  /**
   Whatever the claims, an issued token has exactly three parts, the signature the gateway computes is
   the one issued, and the middle part decodes to the payload bytes.
   */
  lemma IssuedTokenParts(mac: Mac, secret: Bytes, claims: Claims)
    ensures var parts := Split(Issue(mac, secret, claims), [DOT]);
            && |parts| == 3
            && parts[2] == Encode(mac(secret, SigningInput(parts[0], parts[1])))
            && Decode(parts[0]) == Some(Ascii("{\"alg\":\"HS256\",\"typ\":\"JWT\"}"))
            && Decode(parts[1]) == Some(Payload(claims))
  {
    var header, payload := Encode(Header()), Encode(Payload(claims));
    EncodeAlphabet(Header());
    EncodeAlphabet(Payload(claims));
    EncodeAlphabet(mac(secret, SigningInput(header, payload)));
    CompactFormSplits(header, payload, Encode(mac(secret, SigningInput(header, payload))));
    DecodeEncode(Header());
    DecodeEncode(Payload(claims));
  }

  /** So only the JSON reader and the clock can turn an issued token down. */
  lemma IssuedTokenValidates(mac: Mac, secret: Bytes, read: Reader, now: int, claims: Claims)
    ensures Validate(mac, secret, read, now, Issue(mac, secret, claims)) ==
            match read(Payload(claims))
            case None => Err(Json)
            case Some(c) => if now > c.exp then Err(Expired) else Ok(c)
  {
    IssuedTokenParts(mac, secret, claims);
  }

  // ---------- Reading the fields back ----------

  const QUOTE: Byte := 34

  /** No field could be taken for the end of another. */
  predicate QuoteFree(claims: Claims) {
    QUOTE !in claims.userID && QUOTE !in claims.email && QUOTE !in claims.role
  }

  /** What stands between the double quotes of a payload. */
  function Pieces(claims: Claims): seq<Bytes> {
    [Ascii("{"), Ascii("user_id"), Ascii(":"), claims.userID,
     Ascii(","), Ascii("email"), Ascii(":"), claims.email,
     Ascii(","), Ascii("role"), Ascii(":"), claims.role,
     Ascii(","), Ascii("exp"), Ascii(":" + Decimal(claims.exp) + "}")]
  }

  lemma AsciiJoins(a: string, b: string)
    ensures Ascii(a + b) == Ascii(a) + Ascii(b)
  {
  }

  /** A text of the form x"y" is its three parts. */
  lemma AsciiQuotes(x: string, y: string)
    ensures Ascii(x + "\"" + y + "\"") == Ascii(x) + [QUOTE] + Ascii(y) + [QUOTE]
  {
    AsciiJoins(x + "\"" + y, "\"");
    AsciiJoins(x + "\"", y);
    AsciiJoins(x, "\"");
    assert Ascii("\"") == [QUOTE];
  }

  /** One field: the quote that ends the one before, the key, and the quote that opens the value. */
  lemma FieldStart(key: string)
    ensures Ascii("\",\"" + key + "\":\"") == [QUOTE] + Ascii(",") + [QUOTE] + Ascii(key) + [QUOTE] + Ascii(":") + [QUOTE]
  {
    assert "\",\"" + key + "\":\"" == ("\"" + ("," + "\"" + key + "\"")) + (":" + "\"");
    AsciiJoins("\"" + ("," + "\"" + key + "\""), ":" + "\"");
    AsciiJoins("\"", "," + "\"" + key + "\"");
    AsciiQuotes(",", key);
    AsciiJoins(":", "\"");
    assert Ascii("\"") == [QUOTE];
  }

  lemma JoinFirst(first: Bytes, rest: seq<Bytes>, sep: Bytes)
    requires rest != []
    ensures Join([first] + rest, sep) == first + sep + Join(rest, sep)
  {
    assert ([first] + rest)[1..] == rest;
  }

  /** The first four of the pieces that are left make up one field. */
  lemma FieldJoins(first: Bytes, key: Bytes, value: Bytes, rest: seq<Bytes>)
    requires rest != []
    ensures Join([first, key, Ascii(":"), value] + rest, [QUOTE])
         == (first + [QUOTE] + key + [QUOTE] + Ascii(":") + [QUOTE]) + value + ([QUOTE] + Join(rest, [QUOTE]))
  {
    var q := [QUOTE];
    var four := [first, key, Ascii(":"), value] + rest;
    assert four == [first] + ([key] + ([Ascii(":")] + ([value] + rest)));
    JoinFirst(value, rest, q);
    JoinFirst(Ascii(":"), [value] + rest, q);
    JoinFirst(key, [Ascii(":")] + ([value] + rest), q);
    JoinFirst(first, [key] + ([Ascii(":")] + ([value] + rest)), q);
    Regrouped(first, key, Ascii(":"), value, Join(rest, q));
    hide Join, Ascii;
  }

  lemma Regrouped(first: Bytes, key: Bytes, colon: Bytes, value: Bytes, rest: Bytes)
    ensures var q := [QUOTE];
            first + q + (key + q + (colon + q + (value + q + rest)))
            == (first + q + key + q + colon + q) + value + (q + rest)
  {
  }

  /** A field that follows another one. */
  lemma NextField(key: string, value: Bytes, rest: seq<Bytes>)
    requires rest != []
    ensures [QUOTE] + Join([Ascii(","), Ascii(key), Ascii(":"), value] + rest, [QUOTE])
         == Ascii("\",\"" + key + "\":\"") + value + ([QUOTE] + Join(rest, [QUOTE]))
  {
    FieldJoins(Ascii(","), Ascii(key), value, rest);
    FieldStart(key);
    hide Join, Ascii;
    var start := Ascii(",") + [QUOTE] + Ascii(key) + [QUOTE] + Ascii(":") + [QUOTE];
    assert [QUOTE] + Ascii(",") + [QUOTE] + Ascii(key) + [QUOTE] + Ascii(":") + [QUOTE] == [QUOTE] + start;
    assert [QUOTE] + (start + value + ([QUOTE] + Join(rest, [QUOTE])))
        == ([QUOTE] + start) + value + ([QUOTE] + Join(rest, [QUOTE]));
  }

  lemma FirstField(value: Bytes, rest: seq<Bytes>)
    requires rest != []
    ensures Join([Ascii("{"), Ascii("user_id"), Ascii(":"), value] + rest, [QUOTE])
         == Ascii("{\"user_id\":\"") + value + ([QUOTE] + Join(rest, [QUOTE]))
  {
    FieldJoins(Ascii("{"), Ascii("user_id"), value, rest);
    assert "{\"user_id\":\"" == ("{" + "\"" + "user_id" + "\"") + (":" + "\"");
    AsciiJoins("{" + "\"" + "user_id" + "\"", ":" + "\"");
    AsciiQuotes("{", "user_id");
    AsciiJoins(":", "\"");
    assert Ascii("\"") == [QUOTE];
  }

  lemma LastField(d: string)
    ensures [QUOTE] + Join([Ascii(","), Ascii("exp"), Ascii(":" + d + "}")], [QUOTE])
         == Ascii("\",\"exp\":") + Ascii(d) + Ascii("}")
  {
    var q, last := [QUOTE], Ascii(":" + d + "}");
    JoinFirst(Ascii("exp"), [last], q);
    JoinFirst(Ascii(","), [Ascii("exp"), last], q);
    assert [Ascii(",")] + [Ascii("exp"), last] == [Ascii(","), Ascii("exp"), last];
    assert [Ascii("exp")] + [last] == [Ascii("exp"), last];
    AsciiJoins(":" + d, "}");
    AsciiJoins(":", d);
    assert "\",\"exp\":" == ("\"" + ("," + "\"" + "exp" + "\"")) + ":";
    AsciiJoins("\"" + ("," + "\"" + "exp" + "\""), ":");
    AsciiJoins("\"", "," + "\"" + "exp" + "\"");
    AsciiQuotes(",", "exp");
    assert Ascii("\"") == q;
  }

  function LastPieces(claims: Claims): seq<Bytes> {
    [Ascii(","), Ascii("exp"), Ascii(":" + Decimal(claims.exp) + "}")]
  }

  function FromRole(claims: Claims): seq<Bytes> {
    [Ascii(","), Ascii("role"), Ascii(":"), claims.role] + LastPieces(claims)
  }

  function FromEmail(claims: Claims): seq<Bytes> {
    [Ascii(","), Ascii("email"), Ascii(":"), claims.email] + FromRole(claims)
  }

  lemma PiecesInGroups(claims: Claims)
    ensures Pieces(claims) == [Ascii("{"), Ascii("user_id"), Ascii(":"), claims.userID] + FromEmail(claims)
  {
    hide Ascii, Decimal;
  }

  lemma EmailField(claims: Claims)
    ensures [QUOTE] + Join(FromEmail(claims), [QUOTE])
         == Ascii("\",\"email\":\"") + claims.email + ([QUOTE] + Join(FromRole(claims), [QUOTE]))
  {
    NextField("email", claims.email, FromRole(claims));
    assert "\",\"" + "email" + "\":\"" == "\",\"email\":\"";
  }

  lemma RoleField(claims: Claims)
    ensures [QUOTE] + Join(FromRole(claims), [QUOTE])
         == Ascii("\",\"role\":\"") + claims.role + ([QUOTE] + Join(LastPieces(claims), [QUOTE]))
  {
    NextField("role", claims.role, LastPieces(claims));
    assert "\",\"" + "role" + "\":\"" == "\",\"role\":\"";
  }

  lemma Unnested(a: Bytes, u: Bytes, b: Bytes, e: Bytes, c: Bytes, r: Bytes, last: Bytes)
    ensures a + u + (b + e + (c + r + last)) == a + u + b + e + c + r + last
  {
  }

  /** The payload is its pieces with double quotes between them. */
  lemma PayloadIsPieces(claims: Claims)
    ensures Payload(claims) == Join(Pieces(claims), [QUOTE])
  {
    PiecesInGroups(claims);
    FirstField(claims.userID, FromEmail(claims));
    EmailField(claims);
    RoleField(claims);
    LastField(Decimal(claims.exp));
    hide Join, Ascii, FromEmail, FromRole, Pieces, Decimal;
    var exp := Ascii("\",\"exp\":") + Ascii(Decimal(claims.exp)) + Ascii("}");
    Unnested(Ascii("{\"user_id\":\""), claims.userID, Ascii("\",\"email\":\""), claims.email,
             Ascii("\",\"role\":\""), claims.role, exp);
  }

  lemma AsciiLacksQuote(s: string)
    requires '"' !in s
    ensures Lacks(Ascii(s), [QUOTE])
  {
    forall i | 0 <= i <= |s| ensures !At(Ascii(s), [QUOTE], i) {
      if i < |s| {
        assert s[i] in s && Ascii(s)[i..i + 1] == [Ascii(s)[i]];
      }
    }
  }

  lemma BytesLackQuote(s: Bytes)
    requires QUOTE !in s
    ensures Lacks(s, [QUOTE])
  {
    forall i | 0 <= i <= |s| ensures !At(s, [QUOTE], i) {
      if i < |s| { assert s[i..i + 1] == [s[i]]; }
    }
  }

  lemma DecimalIsPlain(exp: int)
    ensures Plain(Decimal(exp))
  {
    DecimalDenotes(exp);
    var d := Decimal(exp);
    assert exp < 0 ==> forall i | 1 <= i < |d| :: d[i] == d[1..][i - 1];
  }

  /** No piece holds a double quote, so splitting at the double quotes gives the pieces back. */
  lemma PayloadSplits(claims: Claims)
    requires QuoteFree(claims)
    ensures Split(Payload(claims), [QUOTE]) == Pieces(claims)
  {
    PayloadIsPieces(claims);
    AsciiLacksQuote("{");
    AsciiLacksQuote("user_id");
    AsciiLacksQuote(":");
    AsciiLacksQuote(",");
    AsciiLacksQuote("email");
    AsciiLacksQuote("role");
    AsciiLacksQuote("exp");
    BytesLackQuote(claims.userID);
    BytesLackQuote(claims.email);
    BytesLackQuote(claims.role);
    DecimalIsPlain(claims.exp);
    AsciiLacksQuote(":" + Decimal(claims.exp) + "}");
    hide Lacks, Ascii;
    SplitJoin(Pieces(claims), [QUOTE]);
  }

  /**
   What stands between the double quotes of a payload: each key, and behind it the value of that claim;
   and at the end a decimal number that denotes the expiry.
   */
  ghost predicate Carries(payload: Bytes, claims: Claims) {
    HoldFields(Split(payload, [QUOTE]), claims)
  }

  ghost predicate HoldFields(f: seq<Bytes>, claims: Claims) {
    && |f| == 15
    && f[1] == Ascii("user_id") && f[3] == claims.userID
    && f[5] == Ascii("email") && f[7] == claims.email
    && f[9] == Ascii("role") && f[11] == claims.role
    && f[13] == Ascii("exp") && EndsWithNumber(f[14], claims.exp)
  }

  lemma PiecesHoldFields(claims: Claims)
    ensures HoldFields(Pieces(claims), claims)
  {
    ExpiryAtEnd(claims.exp);
    hide Ascii, EndsWithNumber, Decimal;
  }

  lemma ExpiryAtEnd(exp: int)
    ensures EndsWithNumber(Ascii(":" + Decimal(exp) + "}"), exp)
  {
    DecimalDenotes(exp);
  }

  lemma PayloadCarries(claims: Claims)
    requires QuoteFree(claims)
    ensures Carries(Payload(claims), claims)
  {
    PayloadSplits(claims);
    PiecesHoldFields(claims);
    hide HoldFields, Split, Payload, Pieces;
  }

  /** What a reader of an issued token finds in its middle part. */
  lemma FieldsReadBack(mac: Mac, secret: Bytes, claims: Claims) returns (payload: Bytes)
    requires QuoteFree(claims)
    ensures var parts := Split(Issue(mac, secret, claims), [DOT]);
            |parts| == 3 && Decode(parts[1]) == Some(payload)
    ensures Carries(payload, claims)
  {
    payload := Payload(claims);
    IssuedTokenParts(mac, secret, claims);
    PayloadCarries(claims);
  }

  /** A colon, a decimal text that reads as the number, and a closing brace. */
  ghost predicate EndsWithNumber(piece: Bytes, n: int) {
    exists d :: Denotes(d, n) && piece == Ascii(":" + d + "}")
  }

  /** So different claims, as long as they are free of double quotes, never share a payload. */
  lemma PayloadIsInjective(a: Claims, b: Claims)
    requires QuoteFree(a) && QuoteFree(b) && Payload(a) == Payload(b)
    ensures a == b
  {
    PayloadSplits(a);
    PayloadSplits(b);
    var x, y := Pieces(a), Pieces(b);
    assert x[3] == y[3] && x[7] == y[7] && x[11] == y[11] && x[14] == y[14];
    DecimalInjective(a.exp, b.exp);
  }

  predicate Plain(d: string) {
    forall i | 0 <= i < |d| :: d[i] == '-' || '0' <= d[i] <= '9'
  }

  lemma DecimalInjective(m: int, n: int)
    requires Ascii(":" + Decimal(m) + "}") == Ascii(":" + Decimal(n) + "}")
    ensures m == n
  {
    DecimalDenotes(m);
    DecimalDenotes(n);
    DecimalIsPlain(m);
    DecimalIsPlain(n);
    hide Decimal, Denotes, Ascii, Plain;
    PlainInjective(Decimal(m), Decimal(n));
    DenotesOne(Decimal(m), m, n);
  }

  lemma PlainInjective(d: string, e: string)
    requires Plain(d) && Plain(e) && Ascii(":" + d + "}") == Ascii(":" + e + "}")
    ensures d == e
  {
    var x, y := Ascii(":" + d + "}"), Ascii(":" + e + "}");
    assert |d| == |x| - 2 && |e| == |y| - 2;
    forall i | 0 <= i < |d| ensures d[i] == e[i] {
      assert x[i + 1] == d[i] as int && y[i + 1] == e[i] as int;
    }
  }

  /** A text with three parts is the first two, joined as a signing input, and the third. */
  lemma ThreePartsJoin(token: Bytes)
    requires |Split(token, [DOT])| == 3
    ensures var parts := Split(token, [DOT]);
            && DOT !in parts[0] && DOT !in parts[1]
            && token == SigningInput(parts[0], parts[1]) + [DOT] + parts[2]
  {
    var parts := Split(token, [DOT]);
    JoinSplit(token, [DOT]);
    SplitLacks(token, [DOT]);
    assert parts[0] in parts && parts[1] in parts;
    HasNoDot(parts[0]);
    HasNoDot(parts[1]);
    assert parts == [parts[0], parts[1], parts[2]];
    JoinThree(parts[0], parts[1], parts[2]);
  }

  /** A text that carries its own signature. */
  ghost predicate Signed(mac: Mac, secret: Bytes, token: Bytes) {
    exists a, b :: DOT !in a && DOT !in b && token == SignedText(mac, secret, a, b)
  }

  function SignedText(mac: Mac, secret: Bytes, a: Bytes, b: Bytes): Bytes {
    SigningInput(a, b) + [DOT] + Encode(mac(secret, SigningInput(a, b)))
  }

  /** What the first two stages check. */
  predicate SignedInThree(mac: Mac, secret: Bytes, token: Bytes) {
    var parts := Split(token, [DOT]);
    |parts| == 3 && parts[2] == Encode(mac(secret, SigningInput(parts[0], parts[1])))
  }

  lemma SignedIsInThree(mac: Mac, secret: Bytes, token: Bytes)
    ensures Signed(mac, secret, token) <==> SignedInThree(mac, secret, token)
  {
    hide Encode, Split, SigningInput;
    if Signed(mac, secret, token) {
      var a, b :| DOT !in a && DOT !in b && token == SignedText(mac, secret, a, b);
      EncodeAlphabet(mac(secret, SigningInput(a, b)));
      CompactFormSplits(a, b, Encode(mac(secret, SigningInput(a, b))));
    }
    if SignedInThree(mac, secret, token) {
      ThreePartsJoin(token);
      var parts := Split(token, [DOT]);
      assert token == SignedText(mac, secret, parts[0], parts[1]);
    }
  }

  /** The first two stages let through exactly the texts that are two dot-free parts and their signature. */
  lemma SignatureStageIsExact(mac: Mac, secret: Bytes, read: Reader, now: int, token: Bytes)
    ensures Signed(mac, secret, token) <==>
            Validate(mac, secret, read, now, token) !in {Err(Topology), Err(Signature)}
  {
    SignedIsInThree(mac, secret, token);
    hide Signed, Encode, Split, SigningInput, Decode;
  }

  lemma HasNoDot(s: Bytes)
    requires Lacks(s, [DOT])
    ensures DOT !in s
  {
    forall i | 0 <= i < |s| ensures s[i] != DOT {
      assert !At(s, [DOT], i);
      assert s[i..i + 1] == [s[i]];
    }
  }
}
