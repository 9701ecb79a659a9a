/** The room credential: `internal/roomcred/roomcred.go`.

    Instants are nanoseconds since the epoch. The keyed digest is a function of the key and the payload
    that nothing is assumed of but that it answers 32 bytes. */
module Roomcred {
  import opened Ids
  import opened BigEndian
  import Base64

  const VERSION: Byte := 1
  const MAX_TOKEN_BYTES := 1024
  const MAX_FIELD_BYTES := 128
  const SIGNATURE_BYTES := 32
  const SECOND := 1_000_000_000
  const MAX_LIFETIME := 12 * 3600 * SECOND

  /** The zero time.Time, the first instant of the year 1. */
  const ZERO_INSTANT := -62_135_596_800 * SECOND

  datatype Claims = Claims(conference: Bytes, subject: Bytes, role: Bytes, notBefore: int, expires: int)

  datatype Error = BadClaims | Malformed | UnknownVersion | BadSignature | WrongConference | NotYetValid | Expired

  datatype Minted = NotMinted | Token(token: Bytes)

  datatype Answer = Refused(why: Error) | Read(claims: Claims)

  /** Unix: the seconds of an instant, rounded down. */
  function Unix(t: int): int
  {
    t / SECOND
  }

  lemma UnixOfSeconds(seconds: int)
    ensures Unix(seconds * SECOND) == seconds
  {
  }

  /** The window as a credential carries it: whole seconds, rounded down. */
  function Floored(c: Claims): Claims
  {
    c.(notBefore := Unix(c.notBefore) * SECOND, expires := Unix(c.expires) * SECOND)
  }

  /** The fields are short enough to be read back and the window is one that 64-bit seconds can hold. */
  predicate Fits(c: Claims)
  {
    && |c.conference| <= MAX_FIELD_BYTES && |c.subject| <= MAX_FIELD_BYTES && |c.role| <= MAX_FIELD_BYTES
    && Int64(Unix(c.notBefore)) && Int64(Unix(c.expires))
  }

  // ---------------------------------------------------------------- the signed bytes

  /** A field with its length in front, which a uint16 holds. */
  function Field(s: Bytes): Bytes
  {
    Put(|s| % 0x1_0000, 2) + s
  }

  function FieldsOf(ss: seq<Bytes>): Bytes
  {
    if ss == [] then [] else FieldsOf(ss[..|ss| - 1]) + Field(ss[|ss| - 1])
  }

  function Layout(c: Claims): Bytes
  {
    [VERSION] + FieldsOf([c.conference, c.subject, c.role])
    + (PutInt64(Unix(c.notBefore)) + PutInt64(Unix(c.expires)))
  }

  method Encode(c: Claims) returns (out: Bytes)
    ensures out == Layout(c)
  {
    out := [VERSION];
    var fields := [c.conference, c.subject, c.role];
    for i := 0 to |fields|
      invariant out == [VERSION] + FieldsOf(fields[..i])
    {
      out := out + Put(|fields[i]| % 0x1_0000, 2);
      out := out + fields[i];
      assert fields[..i + 1][..i] == fields[..i];
    }
    assert fields[..|fields|] == fields;
    out := out + PutInt64(Unix(c.notBefore));
    out := out + PutInt64(Unix(c.expires));
  }

  datatype Fields = Unreadable | Fields(values: seq<Bytes>, rest: Bytes)

  /** Reading `n` fields off the front. */
  function ReadFields(rest: Bytes, n: nat): (r: Fields)
    ensures r.Fields? ==> |r.values| == n
  {
    if n == 0 then Fields([], rest)
    else if |rest| < 2 then Unreadable
    else
      var size := Get(rest[..2]);
      if size > MAX_FIELD_BYTES || |rest| - 2 < size then Unreadable
      else
        match ReadFields(rest[2 + size..], n - 1)
        case Unreadable => Unreadable
        case Fields(values, left) => Fields([rest[2..2 + size]] + values, left)
  }

  function Parse(payload: Bytes): Answer
  {
    if |payload| < 1 then Refused(Malformed)
    else if payload[0] != VERSION then Refused(UnknownVersion)
    else
      match ReadFields(payload[1..], 3)
      case Unreadable => Refused(Malformed)
      case Fields(f, rest) =>
        if |rest| != 16 then Refused(Malformed)
        else Read(Claims(f[0], f[1], f[2], GetInt64(rest[..8]) * SECOND, GetInt64(rest[8..]) * SECOND))
  }

  method Decode(payload: Bytes) returns (r: Answer)
    ensures r == Parse(payload)
  {
    if |payload| < 1 {
      return Refused(Malformed);
    }
    if payload[0] != VERSION {
      return Refused(UnknownVersion);
    }
    var rest := payload[1..];
    var fields: seq<Bytes> := [];
    OntoNothing(ReadFields(rest, 3));
    hide ReadFields, Onto, Get;
    for i := 0 to 3
      invariant |fields| == i && ReadFields(payload[1..], 3) == Onto(fields, ReadFields(rest, 3 - i))
    {
      ReadsOn(fields, rest, 2 - i);
      if |rest| < 2 {
        return Refused(Malformed);
      }
      var n := Get(rest[..2]);
      rest := rest[2..];
      if n > MAX_FIELD_BYTES {
        return Refused(Malformed);
      }
      if |rest| < n {
        return Refused(Malformed);
      }
      fields := fields + [rest[..n]];
      rest := rest[n..];
    }
    ReadsNone(fields, rest);
    if |rest| != 16 {
      return Refused(Malformed);
    }
    return Read(Claims(fields[0], fields[1], fields[2], GetInt64(rest[..8]) * SECOND, GetInt64(rest[8..]) * SECOND));
  }

  /** Fields read already, and what is read after them. */
  function Onto(fields: seq<Bytes>, r: Fields): Fields
  {
    match r
    case Unreadable => Unreadable
    case Fields(values, rest) => Fields(fields + values, rest)
  }

  lemma OntoNothing(r: Fields)
    ensures Onto([], r) == r
  {
  }

  lemma ReadsNone(fields: seq<Bytes>, rest: Bytes)
    ensures Onto(fields, ReadFields(rest, 0)) == Fields(fields, rest)
  {
  }

  /** One field more, or the reason there is none. */
  lemma ReadsOn(fields: seq<Bytes>, rest: Bytes, n: nat)
    ensures if |rest| < 2 || Get(rest[..2]) > MAX_FIELD_BYTES || |rest[2..]| < Get(rest[..2])
            then Onto(fields, ReadFields(rest, n + 1)) == Unreadable
            else
              var after := rest[2..];
              var size := Get(rest[..2]);
              Onto(fields, ReadFields(rest, n + 1)) == Onto(fields + [after[..size]], ReadFields(after[size..], n))
  {
    hide Get;
    if |rest| >= 2 && Get(rest[..2]) <= MAX_FIELD_BYTES && |rest[2..]| >= Get(rest[..2]) {
      var size := Get(rest[..2]);
      assert rest[2..][size..] == rest[2 + size..] && rest[2..][..size] == rest[2..2 + size];
      OneThenMore(fields, rest[2..2 + size], ReadFields(rest[2 + size..], n));
    }
  }

  lemma OneThenMore(fields: seq<Bytes>, field: Bytes, r: Fields)
    ensures r.Fields? ==> fields + ([field] + r.values) == fields + [field] + r.values
  {
  }

  // ---------------------------------------------------------------- the two undo each other

  /** A field and what follows it, taken apart. */
  lemma FieldApart(s: Bytes, rest: Bytes)
    requires |s| <= MAX_FIELD_BYTES
    ensures var all := Field(s) + rest;
            |all| == 2 + |s| + |rest| && Get(all[..2]) == |s| && all[2..2 + |s|] == s && all[2 + |s|..] == rest
  {
    Power8();
    GetPut(|s|, 2);
    hide Put, Get, Power;
    assert (Field(s) + rest)[..2] == Put(|s|, 2);
  }

  lemma ReadOne(all: Bytes, n: nat, size: nat)
    requires |all| >= 2 + size && Get(all[..2]) == size <= MAX_FIELD_BYTES
    ensures ReadFields(all, n + 1)
         == match ReadFields(all[2 + size..], n)
            case Unreadable => Unreadable
            case Fields(v, left) => Fields([all[2..2 + size]] + v, left)
  {
    hide Get;
  }

  lemma ReadOneField(s: Bytes, rest: Bytes, n: nat)
    requires |s| <= MAX_FIELD_BYTES
    ensures ReadFields(Field(s) + rest, n + 1)
         == match ReadFields(rest, n) case Unreadable => Unreadable case Fields(v, left) => Fields([s] + v, left)
  {
    hide *;
    FieldApart(s, rest);
    ReadOne(Field(s) + rest, n, |s|);
  }

  lemma FieldsOfThree(a: Bytes, b: Bytes, c: Bytes)
    ensures FieldsOf([a, b, c]) == Field(a) + Field(b) + Field(c)
  {
    assert [a, b, c][..2] == [a, b] && [a, b][..1] == [a] && [a][..0] == [];
    assert FieldsOf([a]) == Field(a);
  }

  lemma ReadThree(a: Bytes, b: Bytes, c: Bytes, tail: Bytes)
    requires |a| <= MAX_FIELD_BYTES && |b| <= MAX_FIELD_BYTES && |c| <= MAX_FIELD_BYTES
    ensures ReadFields(Field(a) + Field(b) + Field(c) + tail, 3) == Fields([a, b, c], tail)
  {
    hide ReadFields, Field;
    var more := Field(c) + tail;
    ReadOneField(c, tail, 0);
    ReadOneField(b, more, 1);
    ReadOneField(a, Field(b) + more, 2);
    assert Field(a) + (Field(b) + more) == Field(a) + Field(b) + Field(c) + tail;
    assert [c] + [] == [c] && [b] + [c] == [b, c] && [a] + [b, c] == [a, b, c];
    assert ReadFields(tail, 0) == Fields([], tail) by { ReadNone(tail); }
  }

  lemma ReadNone(tail: Bytes)
    ensures ReadFields(tail, 0) == Fields([], tail)
  {
  }

  lemma ParseAssembled(fields: Bytes, f: seq<Bytes>, from: Bytes, to: Bytes)
    requires |f| == 3 && |from| == 8 && |to| == 8
    requires ReadFields(fields + (from + to), 3) == Fields(f, from + to)
    ensures Parse([VERSION] + fields + (from + to))
         == Read(Claims(f[0], f[1], f[2], GetInt64(from) * SECOND, GetInt64(to) * SECOND))
  {
    hide ReadFields, GetInt64;
    assert ([VERSION] + fields + (from + to))[1..] == fields + (from + to);
    assert (from + to)[..8] == from && (from + to)[8..] == to;
  }

  /** Decoding what was encoded gives the claims back with the window floored to seconds. */
  lemma ParseLayout(c: Claims)
    requires Fits(c)
    ensures Parse(Layout(c)) == Read(Floored(c))
  {
    var f := [c.conference, c.subject, c.role];
    var from, to := PutInt64(Unix(c.notBefore)), PutInt64(Unix(c.expires));
    FieldsOfThree(c.conference, c.subject, c.role);
    ReadThree(c.conference, c.subject, c.role, from + to);
    Int64RoundTrip(Unix(c.notBefore));
    Int64RoundTrip(Unix(c.expires));
    hide Field, FieldsOf, ReadFields, PutInt64, GetInt64, Unix, Parse;
    ParseAssembled(FieldsOf(f), f, from, to);
  }

  /** The first of the fields read, and what it was read from. */
  lemma SplitField(rest: Bytes, n: nat) returns (s: Bytes, after: Bytes)
    requires n > 0 && ReadFields(rest, n).Fields?
    ensures rest == Field(s) + after && |s| <= MAX_FIELD_BYTES
    ensures ReadFields(after, n - 1).Fields?
    ensures ReadFields(rest, n) == Fields([s] + ReadFields(after, n - 1).values, ReadFields(after, n - 1).rest)
  {
    var size := Get(rest[..2]);
    s, after := rest[2..2 + size], rest[2 + size..];
    PutGet(rest[..2]);
    hide Get, Put;
    assert rest == rest[..2] + s + after;
  }

  lemma ThreeRebuilt(rest: Bytes) returns (a: Bytes, b: Bytes, c: Bytes)
    requires ReadFields(rest, 3).Fields?
    ensures ReadFields(rest, 3).values == [a, b, c]
    ensures rest == Field(a) + Field(b) + Field(c) + ReadFields(rest, 3).rest
    ensures |a| <= MAX_FIELD_BYTES && |b| <= MAX_FIELD_BYTES && |c| <= MAX_FIELD_BYTES
  {
    var after, more, left;
    a, after := SplitField(rest, 3);
    b, more := SplitField(after, 2);
    c, left := SplitField(more, 1);
    ReadNone(left);
    hide ReadFields, Field;
    assert Field(a) + (Field(b) + (Field(c) + left)) == Field(a) + Field(b) + Field(c) + left;
    assert [a] + ([b] + ([c] + [])) == [a, b, c];
  }

  /** Any payload that is accepted is exactly what its claims encode to. */
  lemma LayoutParse(payload: Bytes)
    requires Parse(payload).Read?
    ensures Fits(Parse(payload).claims) && Floored(Parse(payload).claims) == Parse(payload).claims
    ensures Layout(Parse(payload).claims) == payload
  {
    var c, rest := Parse(payload).claims, ReadFields(payload[1..], 3).rest;
    var conference, subject, role := ThreeRebuilt(payload[1..]);
    FieldsOfThree(conference, subject, role);
    WindowRebuilt(rest);
    hide Field, FieldsOf, ReadFields, PutInt64, GetInt64, Unix;
    assert payload == [VERSION] + payload[1..];
  }

  lemma WindowRebuilt(rest: Bytes)
    requires |rest| == 16
    ensures var from, to := GetInt64(rest[..8]) * SECOND, GetInt64(rest[8..]) * SECOND;
            && rest == PutInt64(Unix(from)) + PutInt64(Unix(to))
            && Int64(Unix(from)) && Int64(Unix(to)) && Unix(from) * SECOND == from && Unix(to) * SECOND == to
  {
    Int64Bytes(rest[..8]);
    Int64Bytes(rest[8..]);
    UnixOfSeconds(GetInt64(rest[..8]));
    UnixOfSeconds(GetInt64(rest[8..]));
    assert rest == rest[..8] + rest[8..];
    hide PutInt64, GetInt64, Unix;
  }

  /** A payload is read exactly when it is the encoding of claims short enough to be read. */
  lemma ParsesExactlyTheLayouts(payload: Bytes)
    ensures Parse(payload).Read? <==> exists c :: Fits(c) && Layout(c) == payload
  {
    if Parse(payload).Read? {
      LayoutParse(payload);
    }
    if c :| Fits(c) && Layout(c) == payload {
      ParseLayout(c);
    }
  }

  // ---------------------------------------------------------------- issuing and verifying

  type Digest = (Bytes, Bytes) -> Bytes

  ghost predicate IsDigest(sign: Digest)
  {
    forall key, payload :: |sign(key, payload)| == SIGNATURE_BYTES
  }

  function Issue(sign: Digest, key: Bytes, c: Claims): Minted
  {
    if c.conference == [] || c.role == [] then NotMinted
    else if |c.conference| > MAX_FIELD_BYTES then NotMinted
    else if |c.subject| > MAX_FIELD_BYTES || |c.role| > MAX_FIELD_BYTES then NotMinted
    else if c.notBefore == ZERO_INSTANT || c.expires == ZERO_INSTANT then NotMinted
    else if c.expires <= c.notBefore then NotMinted
    else if c.expires - c.notBefore > MAX_LIFETIME then NotMinted
    else Token(Base64.Encode(Layout(c) + sign(key, Layout(c))))
  }

  function Verify(sign: Digest, key: Bytes, token: Bytes, conference: Bytes, now: int): Answer
  {
    if conference == [] then Refused(BadClaims)
    else if |token| > MAX_TOKEN_BYTES then Refused(Malformed)
    else
      match Base64.Decode(token)
      case NotBase64 => Refused(Malformed)
      case Decoded(raw) =>
        if |raw| <= SIGNATURE_BYTES then Refused(Malformed)
        else
          var payload, mac := raw[..|raw| - SIGNATURE_BYTES], raw[|raw| - SIGNATURE_BYTES..];
          if mac != sign(key, payload) then Refused(BadSignature)
          else
            match Parse(payload)
            case Refused(why) => Refused(why)
            case Read(c) =>
              if c.conference != conference then Refused(WrongConference)
              else if now < c.notBefore then Refused(NotYetValid)
              else if now > c.expires then Refused(Expired)
              else Read(c)
  }

  lemma LayoutLength(c: Claims)
    ensures |Layout(c)| == 23 + |c.conference| + |c.subject| + |c.role|
  {
    FieldsOfThree(c.conference, c.subject, c.role);
  }

  /** Every token minted is at most 586 bytes, so none is too long for Verify. */
  lemma MintedTokensAreShort(sign: Digest, key: Bytes, c: Claims)
    requires IsDigest(sign) && Issue(sign, key, c).Token?
    ensures |Issue(sign, key, c).token| <= 586 < MAX_TOKEN_BYTES
  {
    LayoutLength(c);
    Base64.EncodeLength(Layout(c) + sign(key, Layout(c)));
  }

  /** A minted token verifies, under its key and for its conference, exactly while the clock is within the
      window floored to seconds; and for no other conference at all. */
  lemma MintedTokensVerify(sign: Digest, key: Bytes, c: Claims, conference: Bytes, now: int)
    requires IsDigest(sign) && Fits(c) && Issue(sign, key, c).Token? && conference != []
    ensures Verify(sign, key, Issue(sign, key, c).token, conference, now)
         == if conference != c.conference then Refused(WrongConference)
            else if now < Floored(c).notBefore then Refused(NotYetValid)
            else if now > Floored(c).expires then Refused(Expired)
            else Read(Floored(c))
  {
    var payload := Layout(c);
    var raw := payload + sign(key, payload);
    MintedTokensAreShort(sign, key, c);
    LayoutLength(c);
    ParseLayout(c);
    Base64.DecodeEncode(raw);
    hide Layout, Parse;
    assert raw[..|raw| - SIGNATURE_BYTES] == payload && raw[|raw| - SIGNATURE_BYTES..] == sign(key, payload);
  }

  /** A token verifies exactly when it carries the encoding of claims followed by this key's digest of it, the
      claims name the conference asked about, and the clock is within their window. */
  lemma VerifiesExactlyWhen(sign: Digest, key: Bytes, token: Bytes, conference: Bytes, now: int, c: Claims)
    requires IsDigest(sign)
    ensures Verify(sign, key, token, conference, now) == Read(c)
            <==> && conference != [] && |token| <= MAX_TOKEN_BYTES
                 && Base64.Decode(token) == Base64.Decoded(Layout(c) + sign(key, Layout(c)))
                 && Fits(c) && Floored(c) == c
                 && c.conference == conference && c.notBefore <= now <= c.expires
  {
    if Verify(sign, key, token, conference, now) == Read(c) {
      var raw := Base64.Decode(token).bytes;
      LayoutParse(raw[..|raw| - SIGNATURE_BYTES]);
      assert raw == raw[..|raw| - SIGNATURE_BYTES] + raw[|raw| - SIGNATURE_BYTES..];
    }
    if Fits(c) && Floored(c) == c {
      ParseLayout(c);
      LayoutLength(c);
      var raw := Layout(c) + sign(key, Layout(c));
      hide Layout, Parse;
      assert raw[..|raw| - SIGNATURE_BYTES] == Layout(c) && raw[|raw| - SIGNATURE_BYTES..] == sign(key, Layout(c));
    }
  }

  /** Flooring both ends never lengthens the window past the longest one that may be minted. */
  lemma FlooredLifetimeIsBounded(sign: Digest, key: Bytes, c: Claims)
    requires Issue(sign, key, c).Token?
    ensures 0 <= Floored(c).expires - Floored(c).notBefore <= MAX_LIFETIME
  {
    UnixMonotone(c.notBefore, c.expires);
    UnixMonotone(c.expires, c.notBefore + MAX_LIFETIME);
    UnixShifts(c.notBefore, 12 * 3600);
    hide Unix, Layout;
  }

  lemma UnixMonotone(t: int, u: int)
    requires t <= u
    ensures Unix(t) <= Unix(u)
  {
  }

  lemma UnixShifts(t: int, seconds: int)
    ensures Unix(t + seconds * SECOND) == Unix(t) + seconds
  {
  }

  /** A minted credential is usable at the instant its claims asked it to expire exactly when that is a whole
      second, and at the instant they asked it to open exactly when a whole second follows it in the window. */
  lemma UsableAtTheEndsExactlyWhen(sign: Digest, key: Bytes, c: Claims)
    requires IsDigest(sign) && Fits(c) && Issue(sign, key, c).Token?
    ensures var token := Issue(sign, key, c).token;
            && (Verify(sign, key, token, c.conference, c.expires).Read? <==> c.expires % SECOND == 0)
            && (Verify(sign, key, token, c.conference, c.notBefore).Read? <==> c.notBefore <= Unix(c.expires) * SECOND)
  {
    MintedTokensVerify(sign, key, c, c.conference, c.expires);
    MintedTokensVerify(sign, key, c, c.conference, c.notBefore);
    UnixMonotone(c.notBefore, c.expires);
    hide Verify, Layout, Issue;
  }

  /** Where the window a minted credential is usable in and the one its claims asked for differ, at every instant:
      it is usable before they asked it to open only within the second they asked for, from the start of that
      second; after they asked it to expire never; and in between until the start of the second it expires in. */
  lemma UsableOutsideExactlyWhen(sign: Digest, key: Bytes, c: Claims, now: int)
    requires IsDigest(sign) && Fits(c) && Issue(sign, key, c).Token?
    ensures var usable := Verify(sign, key, Issue(sign, key, c).token, c.conference, now).Read?;
            && (now < c.notBefore ==>
                  (usable <==> Unix(c.notBefore) * SECOND <= now <= Unix(c.expires) * SECOND))
            && (c.notBefore <= now <= c.expires ==> (usable <==> now <= Unix(c.expires) * SECOND))
            && (now > c.expires ==> !usable)
            && (usable ==> c.notBefore - SECOND < now)
  {
    MintedTokensVerify(sign, key, c, c.conference, now);
    hide Verify, Layout, Issue;
  }

  /** A minted credential is usable at some instant before its claims asked it to open exactly when they asked for
      no whole second. */
  lemma OpensEarlyExactlyWhen(sign: Digest, key: Bytes, c: Claims)
    requires IsDigest(sign) && Fits(c) && Issue(sign, key, c).Token?
    ensures (exists now :: now < c.notBefore && Verify(sign, key, Issue(sign, key, c).token, c.conference, now).Read?)
            <==> c.notBefore % SECOND != 0
  {
    forall now ensures var usable := Verify(sign, key, Issue(sign, key, c).token, c.conference, now).Read?;
                       && (usable ==> c.notBefore - SECOND < now)
                       && (now < c.notBefore ==>
                             (usable <==> Unix(c.notBefore) * SECOND <= now <= Unix(c.expires) * SECOND)) {
      UsableOutsideExactlyWhen(sign, key, c, now);
    }
    UnixMonotone(c.notBefore, c.expires);
    hide Verify, Layout, Issue;
    var first := Unix(c.notBefore) * SECOND;
    assert first <= c.notBefore && (first == c.notBefore <==> c.notBefore % SECOND == 0);
    if first < c.notBefore {
      assert Verify(sign, key, Issue(sign, key, c).token, c.conference, first).Read?;
    }
  }

  // ---------------------------------------------------------------- what is minted, and what each refusal means

  /** What a credential may be minted for: a conference and a role, no field too long, and a window with both ends that
      opens before it ends and is no longer than half a day. */
  predicate Mintable(c: Claims)
  {
    && 1 <= |c.conference| <= MAX_FIELD_BYTES && |c.subject| <= MAX_FIELD_BYTES && 1 <= |c.role| <= MAX_FIELD_BYTES
    && ZERO_INSTANT !in {c.notBefore, c.expires} && c.notBefore < c.expires <= c.notBefore + MAX_LIFETIME
  }

  /** A credential is minted exactly for those claims, and what is minted verifies at every instant of the window it
      carries and not for any other conference. */
  lemma MintsExactlyWhen(sign: Digest, key: Bytes, c: Claims)
    requires IsDigest(sign)
    ensures Issue(sign, key, c).Token? <==> Mintable(c)
    ensures Mintable(c) && Fits(c) ==>
              forall now, conference | conference != [] ::
                Verify(sign, key, Issue(sign, key, c).token, conference, now).Read? <==>
                  conference == c.conference && Floored(c).notBefore <= now <= Floored(c).expires
  {
    if Mintable(c) && Fits(c) {
      forall now, conference | conference != []
        ensures Verify(sign, key, Issue(sign, key, c).token, conference, now).Read? <==>
                  conference == c.conference && Floored(c).notBefore <= now <= Floored(c).expires {
        MintedTokensVerify(sign, key, c, conference, now);
        hide Verify, Layout, Issue;
      }
    }
    hide Verify, Layout;
  }

  /** The token carries that payload under this key's digest of it. */
  ghost predicate Tagged(sign: Digest, key: Bytes, token: Bytes, payload: Bytes)
  {
    && |token| <= MAX_TOKEN_BYTES && payload != []
    && Base64.Decode(token) == Base64.Decoded(payload + sign(key, payload))
  }

  ghost predicate IsLayout(payload: Bytes, c: Claims)
  {
    Fits(c) && Floored(c) == c && Layout(c) == payload
  }

  lemma TaggedOnce(sign: Digest, key: Bytes, token: Bytes, a: Bytes, b: Bytes)
    requires IsDigest(sign) && Tagged(sign, key, token, a) && Tagged(sign, key, token, b)
    ensures a == b
  {
    var x, y := sign(key, a), sign(key, b);
    assert |x| == |y| == SIGNATURE_BYTES && |a| == |b|;
    assert (a + x)[..|a|] == a && (b + y)[..|b|] == b;
  }

  /** What each refusal says of the token: that its payload is not this key's; that it is, but of another version or no
      layout; or that it lays out claims to another conference, or to a window the clock is before or after. */
  lemma RefusalsSayWhy(sign: Digest, key: Bytes, token: Bytes, conference: Bytes, now: int)
    requires IsDigest(sign)
    ensures match Verify(sign, key, token, conference, now)
            case Read(_) => true
            case Refused(BadClaims) => conference == []
            case Refused(BadSignature) => conference != [] && forall payload :: !Tagged(sign, key, token, payload)
            case Refused(UnknownVersion) =>
              conference != [] && exists payload :: Tagged(sign, key, token, payload) && payload[0] != VERSION
            case Refused(Malformed) =>
              && conference != []
              && (forall payload | Tagged(sign, key, token, payload) ::
                    payload[0] == VERSION && forall c :: !IsLayout(payload, c))
              && (|| |token| > MAX_TOKEN_BYTES || Base64.Decode(token).NotBase64?
                  || |Base64.Decode(token).bytes| <= SIGNATURE_BYTES
                  || exists payload :: Tagged(sign, key, token, payload))
            case Refused(why) =>
              exists payload, c ::
                && Tagged(sign, key, token, payload) && IsLayout(payload, c) && conference != []
                && (match why
                    case WrongConference => c.conference != conference
                    case NotYetValid => c.conference == conference && now < c.notBefore
                    case _ => c.conference == conference && now > c.expires)
  {
    if conference != [] && |token| <= MAX_TOKEN_BYTES && Base64.Decode(token).Decoded? {
      var raw := Base64.Decode(token).bytes;
      if |raw| > SIGNATURE_BYTES {
        Payload(sign, key, token, raw);
        hide Layout, Parse, Base64.Decode;
        var payload := raw[..|raw| - SIGNATURE_BYTES];
        if Tagged(sign, key, token, payload) {
          ParsedSays(payload);
          forall p | Tagged(sign, key, token, p) ensures p == payload {
            TaggedOnce(sign, key, token, p, payload);
          }
        }
      } else {
        forall p ensures !Tagged(sign, key, token, p) {
        }
      }
    }
    hide Layout, Parse, Base64.Decode;
  }

  lemma Payload(sign: Digest, key: Bytes, token: Bytes, raw: Bytes)
    requires IsDigest(sign) && |token| <= MAX_TOKEN_BYTES && Base64.Decode(token) == Base64.Decoded(raw)
    requires |raw| > SIGNATURE_BYTES
    ensures var payload, mac := raw[..|raw| - SIGNATURE_BYTES], raw[|raw| - SIGNATURE_BYTES..];
            && (mac == sign(key, payload) <==> Tagged(sign, key, token, payload))
            && forall p | Tagged(sign, key, token, p) :: p == payload
  {
    var payload, mac := raw[..|raw| - SIGNATURE_BYTES], raw[|raw| - SIGNATURE_BYTES..];
    assert raw == payload + mac;
    forall p | Tagged(sign, key, token, p) ensures p == payload {
      assert |sign(key, p)| == SIGNATURE_BYTES && raw == p + sign(key, p);
    }
    if Tagged(sign, key, token, payload) {
      assert (payload + sign(key, payload))[|payload|..] == sign(key, payload);
    }
    hide Base64.Decode;
  }

  /** What reading a payload says of it. */
  lemma ParsedSays(payload: Bytes)
    requires payload != []
    ensures match Parse(payload)
            case Read(c) => IsLayout(payload, c)
            case Refused(UnknownVersion) => payload[0] != VERSION
            case Refused(why) => why == Malformed && payload[0] == VERSION && forall c :: !IsLayout(payload, c)
  {
    if Parse(payload).Read? {
      LayoutParse(payload);
    } else {
      forall c | IsLayout(payload, c) ensures false {
        ParseLayout(c);
      }
    }
    hide Layout, ReadFields;
  }

  /** The field stands there with its length in front. */
  predicate FieldAt(p: Bytes, at: nat, field: Bytes)
  {
    && at + 2 + |field| <= |p| && Get(p[at..at + 2]) == |field|
    && p[at + 2..at + 2 + |field|] == field
  }

  predicate SecondsAt(p: Bytes, at: nat, seconds: int)
  {
    at + 8 <= |p| && GetInt64(p[at..at + 8]) == seconds
  }

  lemma Stands(before: Bytes, part: Bytes, after: Bytes)
    ensures (before + part + after)[|before|..|before| + |part|] == part
  {
  }

  lemma FieldRegroups(before: Bytes, length: Bytes, field: Bytes, after: Bytes)
    ensures before + (length + field) + after == before + length + (field + after)
    ensures before + (length + field) + after == before + length + field + after
  {
  }

  lemma FieldStands(before: Bytes, field: Bytes, after: Bytes)
    requires |field| <= MAX_FIELD_BYTES
    ensures FieldAt(before + Field(field) + after, |before|, field)
  {
    Power8();
    GetPut(|field|, 2);
    hide Get, Put, Power;
    var length := Put(|field|, 2);
    var p := before + Field(field) + after;
    assert Field(field) == length + field;
    hide Field;
    FieldRegroups(before, length, field, after);
    Stands(before, length, field + after);
    Stands(before + length, field, after);
    assert p[|before|..|before| + 2] == length;
    assert p[|before| + 2..|before| + 2 + |field|] == field;
  }

  lemma SecondsStand(before: Bytes, seconds: int, after: Bytes)
    requires Int64(seconds)
    ensures SecondsAt(before + PutInt64(seconds) + after, |before|, seconds)
  {
    Int64RoundTrip(seconds);
    hide GetInt64, PutInt64;
    Stands(before, PutInt64(seconds), after);
  }

  lemma LayoutIs(c: Claims)
    ensures Layout(c) == [VERSION] + (Field(c.conference) + Field(c.subject) + Field(c.role))
                         + (PutInt64(Unix(c.notBefore)) + PutInt64(Unix(c.expires)))
    ensures |Field(c.conference)| == 2 + |c.conference|
    ensures |Field(c.subject)| == 2 + |c.subject| && |Field(c.role)| == 2 + |c.role|
  {
    FieldsOfThree(c.conference, c.subject, c.role);
    hide FieldsOf, Unix;
  }

  lemma FieldLength(field: Bytes)
    ensures |Field(field)| == 2 + |field|
  {
  }

  lemma FieldsStand(x: Bytes, y: Bytes, z: Bytes, window: Bytes)
    requires |x| <= MAX_FIELD_BYTES && |y| <= MAX_FIELD_BYTES && |z| <= MAX_FIELD_BYTES
    ensures var p := [VERSION] + (Field(x) + Field(y) + Field(z)) + window;
            && p[0] == VERSION && FieldAt(p, 1, x) && FieldAt(p, 3 + |x|, y) && FieldAt(p, 5 + |x| + |y|, z)
  {
    hide *;
    FieldLength(x);
    FieldLength(y);
    var a, b, c := Field(x), Field(y), Field(z);
    FieldStands([VERSION], x, b + c + window);
    FieldStands([VERSION] + a, y, c + window);
    FieldStands([VERSION] + a + b, z, window);
    Regrouped([VERSION], a, b, c, window);
  }

  lemma Regrouped(v: Bytes, x: Bytes, y: Bytes, z: Bytes, w: Bytes)
    ensures v + (x + y + z) + w == v + x + (y + z + w)
    ensures v + (x + y + z) + w == v + x + y + (z + w)
    ensures v + (x + y + z) + w == v + x + y + z + w
  {
  }

  /** Where everything stands in the signed bytes: the version, then conference, subject and role with their lengths in
      front, then the seconds the window opens and ends at, and nothing else. */
  lemma LayoutInOrder(c: Claims)
    requires Fits(c)
    ensures var p, a, b, d := Layout(c), |c.conference|, |c.subject|, |c.role|;
            && p != [] && p[0] == VERSION
            && FieldAt(p, 1, c.conference) && FieldAt(p, 3 + a, c.subject) && FieldAt(p, 5 + a + b, c.role)
            && SecondsAt(p, 7 + a + b + d, Unix(c.notBefore)) && SecondsAt(p, 15 + a + b + d, Unix(c.expires))
            && |p| == 23 + a + b + d
  {
    LayoutIs(c);
    LayoutLength(c);
    hide Layout, Field, PutInt64, GetInt64, Unix, FieldAt, SecondsAt, Int64;
    FieldsStand(c.conference, c.subject, c.role, PutInt64(Unix(c.notBefore)) + PutInt64(Unix(c.expires)));
    WindowStands([VERSION] + (Field(c.conference) + Field(c.subject) + Field(c.role)), c);
  }

  lemma WindowStands(before: Bytes, c: Claims)
    requires Fits(c)
    ensures var p := before + (PutInt64(Unix(c.notBefore)) + PutInt64(Unix(c.expires)));
            SecondsAt(p, |before|, Unix(c.notBefore)) && SecondsAt(p, |before| + 8, Unix(c.expires))
  {
    var opens, ends := PutInt64(Unix(c.notBefore)), PutInt64(Unix(c.expires));
    hide PutInt64, GetInt64, SecondsAt, Unix;
    SecondsStand(before, Unix(c.notBefore), ends);
    SecondsStand(before + opens, Unix(c.expires), []);
    assert before + (opens + ends) == before + opens + ends == before + opens + ends + [];
  }
}
