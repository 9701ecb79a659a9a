/** base64url without padding: section 5 of RFC 4648, unpadded as its section 3.2 allows, read the way Go's
    RawURLEncoding reads it. */
module Base64 {
  import opened Ids

  datatype Decoded = NotBase64 | Decoded(bytes: Bytes)

  type Sextet = v: int | 0 <= v < 64

  /** The character of a sextet: A-Z, a-z, 0-9, '-' and '_'. */
  function Symbol(v: Sextet): (c: Byte)
    ensures 45 <= c <= 122
  {
    if v < 26 then 65 + v
    else if v < 52 then 97 + (v - 26)
    else if v < 62 then 48 + (v - 52)
    else if v == 62 then 45
    else 95
  }

  /** The sextet of a character, or 64 for one outside the alphabet. */
  function Value(c: Byte): (v: int)
    ensures 0 <= v <= 64
  {
    if 65 <= c <= 90 then c - 65
    else if 97 <= c <= 122 then c - 97 + 26
    else if 48 <= c <= 57 then c - 48 + 52
    else if c == 45 then 62
    else if c == 95 then 63
    else 64
  }

  lemma ValueOfSymbol(v: Sextet)
    ensures Value(Symbol(v)) == v
  {
  }

  // Three bytes are four sextets; the sextet that straddles two bytes takes a bit pattern from each.

  function First(x: Byte): Sextet { x / 4 }

  function Second(x: Byte, y: Byte): Sextet { x % 4 * 16 + y / 16 }

  function Third(y: Byte, z: Byte): Sextet { y % 16 * 4 + z / 64 }

  function Fourth(z: Byte): Sextet { z % 64 }

  /** The bits that fill up the last group. */
  function Filler(): Byte { 0 }

  function Encode(b: Bytes): (t: Bytes)
    ensures forall c :: c in t ==> 45 <= c <= 122
  {
    if b == [] then []
    else if |b| == 1 then [Symbol(First(b[0])), Symbol(Second(b[0], Filler()))]
    else if |b| == 2 then [Symbol(First(b[0])), Symbol(Second(b[0], b[1])), Symbol(Third(b[1], Filler()))]
    else [Symbol(First(b[0])), Symbol(Second(b[0], b[1])), Symbol(Third(b[1], b[2])), Symbol(Fourth(b[2]))]
         + Encode(b[3..])
  }

  /** Carriage returns and line feeds are skipped wherever they stand. */
  function WithoutNewlines(t: Bytes): Bytes
  {
    if t == [] then []
    else (if t[0] == 10 || t[0] == 13 then [] else [t[0]]) + WithoutNewlines(t[1..])
  }

  function Upper(p: Sextet, q: Sextet): Byte { p * 4 + q / 16 }

  function Middle(q: Sextet, r: Sextet): Byte { q % 16 * 16 + r / 4 }

  function Lower(r: Sextet, s: Sextet): Byte { r % 4 * 64 + s }

  /** The bits left over at the end are not looked at. */
  function DecodeSymbols(t: Bytes): Decoded
  {
    if t == [] then Decoded([])
    else if |t| == 1 || Value(t[0]) == 64 || Value(t[1]) == 64 then NotBase64
    else if |t| == 2 then Decoded([Upper(Value(t[0]), Value(t[1]))])
    else if Value(t[2]) == 64 then NotBase64
    else if |t| == 3 then Decoded([Upper(Value(t[0]), Value(t[1])), Middle(Value(t[1]), Value(t[2]))])
    else if Value(t[3]) == 64 then NotBase64
    else
      match DecodeSymbols(t[4..])
      case NotBase64 => NotBase64
      case Decoded(rest) =>
        Decoded([Upper(Value(t[0]), Value(t[1])), Middle(Value(t[1]), Value(t[2])), Lower(Value(t[2]), Value(t[3]))]
                + rest)
  }

  function Decode(t: Bytes): Decoded
  {
    DecodeSymbols(WithoutNewlines(t))
  }

  lemma {:induction false} EncodeLength(b: Bytes)
    ensures |Encode(b)| == (4 * |b| + 2) / 3
  {
    if |b| > 2 {
      EncodeLength(b[3..]);
    }
  }

  lemma {:induction false} NoNewlines(t: Bytes)
    requires 10 !in t && 13 !in t
    ensures WithoutNewlines(t) == t
  {
    if t != [] {
      NoNewlines(t[1..]);
    }
  }

  lemma Regroup(x: Byte, y: Byte, z: Byte)
    ensures Upper(First(x), Second(x, y)) == x
    ensures Middle(Second(x, y), Third(y, z)) == y
    ensures Lower(Third(y, z), Fourth(z)) == z
  {
  }

  /** Reading the four characters of a group, and then the rest. */
  lemma DecodeFour(p: Sextet, q: Sextet, r: Sextet, s: Sextet, rest: Bytes)
    ensures DecodeSymbols([Symbol(p), Symbol(q), Symbol(r), Symbol(s)] + rest)
            == match DecodeSymbols(rest)
               case NotBase64 => NotBase64
               case Decoded(more) => Decoded([Upper(p, q), Middle(q, r), Lower(r, s)] + more)
  {
    ValueOfSymbol(p);
    ValueOfSymbol(q);
    ValueOfSymbol(r);
    ValueOfSymbol(s);
    hide Value, Symbol, Upper, Middle, Lower;
    assert ([Symbol(p), Symbol(q), Symbol(r), Symbol(s)] + rest)[4..] == rest;
  }

  lemma DecodeTwo(p: Sextet, q: Sextet)
    ensures DecodeSymbols([Symbol(p), Symbol(q)]) == Decoded([Upper(p, q)])
  {
    ValueOfSymbol(p);
    ValueOfSymbol(q);
    hide Value, Symbol, Upper;
  }

  lemma DecodeThree(p: Sextet, q: Sextet, r: Sextet)
    ensures DecodeSymbols([Symbol(p), Symbol(q), Symbol(r)]) == Decoded([Upper(p, q), Middle(q, r)])
  {
    ValueOfSymbol(p);
    ValueOfSymbol(q);
    ValueOfSymbol(r);
    hide Value, Symbol, Upper, Middle;
  }

  /** What encoding makes of the first group. */
  lemma EncodeGroup(b: Bytes)
    ensures b == [] ==> Encode(b) == [] && DecodeSymbols(Encode(b)) == Decoded(b)
    ensures |b| == 1 ==> Encode(b) == [Symbol(First(b[0])), Symbol(Second(b[0], Filler()))]
    ensures |b| == 2 ==> Encode(b) == [Symbol(First(b[0])), Symbol(Second(b[0], b[1])), Symbol(Third(b[1], Filler()))]
    ensures |b| >= 3 ==>
              Encode(b)
              == [Symbol(First(b[0])), Symbol(Second(b[0], b[1])), Symbol(Third(b[1], b[2])), Symbol(Fourth(b[2]))]
                 + Encode(b[3..])
  {
    hide Symbol, First, Second, Third, Fourth, Filler;
  }

  lemma {:induction false} DecodeSymbolsEncode(b: Bytes)
    ensures DecodeSymbols(Encode(b)) == Decoded(b)
  {
    hide *;
    EncodeGroup(b);
    if |b| == 1 {
      Regroup(b[0], Filler(), Filler());
      DecodeTwo(First(b[0]), Second(b[0], Filler()));
    } else if |b| == 2 {
      Regroup(b[0], b[1], Filler());
      DecodeThree(First(b[0]), Second(b[0], b[1]), Third(b[1], Filler()));
    } else if b != [] {
      DecodeSymbolsEncode(b[3..]);
      Regroup(b[0], b[1], b[2]);
      DecodeFour(First(b[0]), Second(b[0], b[1]), Third(b[1], b[2]), Fourth(b[2]), Encode(b[3..]));
      assert b == [b[0], b[1], b[2]] + b[3..];
    }
  }

  /** Decoding undoes encoding, for all bytes. */
  lemma {:induction false} DecodeEncode(b: Bytes)
    ensures Decode(Encode(b)) == Decoded(b)
  {
    NoNewlines(Encode(b));
    DecodeSymbolsEncode(b);
  }

  /** The sextets of three bytes are their bits in order. */
  lemma BitsInOrder(x: Byte, y: Byte, z: Byte)
    ensures 0x4_0000 * First(x) + 0x1000 * Second(x, y) + 0x40 * Third(y, z) + Fourth(z) == 0x1_0000 * x + 0x100 * y + z
  {
  }

  /** A test vector of section 10 of RFC 4648, "foo", and the two symbols in which its section 5 differs from its
      section 4. */
  lemma TestVector()
    ensures Encode([102, 111, 111]) == [90, 109, 57, 118]
    ensures Symbol(62) == 45 && Symbol(63) == 95
  {
    assert [102, 111, 111][3..] == [];
  }
}
