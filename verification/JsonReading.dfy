/** A string read back, by section 7 of RFC 8259. */
module JsonReading {
  import opened Ids
  import opened Json

  datatype Read<T> = Unreadable | Got(value: T, rest: Bytes)

  // ---------------------------------------------------------------- one string

  function Prepend(front: Bytes, r: Read<Bytes>): Read<Bytes>
  {
    match r
    case Unreadable => Unreadable
    case Got(value, rest) => Got(front + value, rest)
  }

  lemma PrependTwice(a: Bytes, b: Bytes, r: Read<Bytes>)
    ensures Prepend(a, Prepend(b, r)) == Prepend(a + b, r)
    ensures Prepend([], r) == r
  {
    assert r.Got? ==> a + (b + r.value) == (a + b) + r.value && [] + r.value == r.value;
  }

  /** The byte a short escape stands for, or none. */
  function Short(c: Byte): Bytes
  {
    if c == QUOTE || c == BACKSLASH || c == 47 then [c]
    else if c == 98 then [8]
    else if c == 102 then [12]
    else if c == 110 then [10]
    else if c == 114 then [13]
    else if c == 116 then [9]
    else []
  }

  function HexValue(c: Byte): int
  {
    if 48 <= c <= 57 then c - 48 else if 97 <= c <= 102 then c - 87 else if 65 <= c <= 70 then c - 55 else -1
  }

  /** The code unit of four hexadecimal digits, or none. */
  function CodeUnit(s: Bytes): (u: int)
    requires |s| >= 4
    ensures -1 <= u < 0x1_0000
  {
    if HexValue(s[0]) < 0 || HexValue(s[1]) < 0 || HexValue(s[2]) < 0 || HexValue(s[3]) < 0 then -1
    else ((HexValue(s[0]) * 16 + HexValue(s[1])) * 16 + HexValue(s[2])) * 16 + HexValue(s[3])
  }

  function Utf8Of(code: int): Bytes
    requires 0 <= code < 0x1_0000
  {
    if code < 0x80 then [code]
    else if code < 0x800 then [0xC0 + code / 64, 0x80 + code % 64]
    else [0xE0 + code / 4096, 0x80 + code / 64 % 64, 0x80 + code % 64]
  }

  /** The text up to the closing quote. Halves of a surrogate pair, which nothing here writes, are not read. */
  function ReadText(s: Bytes): Read<Bytes>
    decreases |s|
  {
    if s == [] then Unreadable
    else if s[0] == QUOTE then Got([], s[1..])
    else if s[0] == BACKSLASH then
      if |s| >= 2 && Short(s[1]) != [] then Prepend(Short(s[1]), ReadText(s[2..]))
      else if |s| >= 6 && s[1] == 117 && CodeUnit(s[2..]) >= 0 && !(0xD800 <= CodeUnit(s[2..]) < 0xE000) then
        Prepend(Utf8Of(CodeUnit(s[2..])), ReadText(s[6..]))
      else Unreadable
    else if s[0] < 32 then Unreadable
    else Prepend(s[..1], ReadText(s[1..]))
  }

  const FFFD: Bytes := [0xEF, 0xBF, 0xBD]

  /** The next character as it comes out at the other end: itself, or the replacement for what is none. */
  function MendedOne(s: Bytes): Bytes
    requires s != []
  {
    if s[0] < 128 then s[..1] else if RuneLength(s) == 0 then FFFD else s[..RuneLength(s)]
  }

  function Mended(s: Bytes): Bytes
    decreases |s|
  {
    if s == [] then [] else MendedOne(s) + Mended(s[Taken(s)..])
  }

  /** The text is UTF-8. */
  predicate Utf8(s: Bytes)
    decreases |s|
  {
    s == [] || ((s[0] < 128 || RuneLength(s) != 0) && Utf8(s[Taken(s)..]))
  }

  lemma ReadPlain(b: Byte, tail: Bytes)
    requires b >= 32 && b != QUOTE && b != BACKSLASH
    ensures ReadText([b] + tail) == Prepend([b], ReadText(tail))
  {
    assert ([b] + tail)[..1] == [b] && ([b] + tail)[1..] == tail;
  }

  lemma ReadShort(c: Byte, tail: Bytes)
    requires Short(c) != []
    ensures ReadText([BACKSLASH, c] + tail) == Prepend(Short(c), ReadText(tail))
  {
    assert ([BACKSLASH, c] + tail)[2..] == tail;
  }

  lemma ReadUnit(digits: Bytes, tail: Bytes)
    requires |digits| == 4 && CodeUnit(digits) >= 0 && !(0xD800 <= CodeUnit(digits) < 0xE000)
    ensures ReadText([BACKSLASH, 117] + digits + tail) == Prepend(Utf8Of(CodeUnit(digits)), ReadText(tail))
  {
    var s := [BACKSLASH, 117] + digits + tail;
    assert s[2..][..4] == digits && s[6..] == tail && s[1] == 117;
    assert CodeUnit(s[2..]) == CodeUnit(digits);
  }

  lemma {:induction false} ReadRun(run: Bytes, tail: Bytes)
    requires forall i :: 0 <= i < |run| ==> run[i] >= 128
    ensures ReadText(run + tail) == Prepend(run, ReadText(tail))
  {
    if run == [] {
      PrependTwice([], [], ReadText(tail));
      assert run + tail == tail;
      hide *;
    } else {
      ReadRun(run[1..], tail);
      ReadPlain(run[0], run[1..] + tail);
      PrependTwice([run[0]], run[1..], ReadText(tail));
      FirstApart(run, tail);
      hide *;
    }
  }

  lemma FirstApart(run: Bytes, tail: Bytes)
    requires run != []
    ensures run + tail == [run[0]] + (run[1..] + tail) && run == [run[0]] + run[1..]
  {
  }

  lemma Regroup(a: Bytes, b: Bytes, c: Bytes, d: Bytes)
    ensures a + b + c + d == a + (b + c + d)
  {
  }

  lemma HexReadsBack(d: int)
    requires 0 <= d < 16
    ensures HexValue(Hex(d)) == d
  {
  }

  lemma TwoHexDigits(b: Byte)
    ensures CodeUnit([48, 48, Hex(b / 16), Hex(b % 16)]) == b
  {
    HexReadsBack(b / 16);
    HexReadsBack(b % 16);
  }

  lemma ReadEscapedByte(b: Byte, tail: Bytes)
    requires b < 128
    ensures ReadText(EscapedByte(b) + tail) == Prepend([b], ReadText(tail))
  {
    hide ReadText, Prepend, CodeUnit;
    var w := EscapedByte(b);
    if |w| == 1 {
      ReadPlain(b, tail);
    } else if |w| == 2 {
      ReadShort(w[1], tail);
    } else {
      var digits := [48, 48, Hex(b / 16), Hex(b % 16)];
      TwoHexDigits(b);
      ReadUnit(digits, tail);
      assert w == [BACKSLASH, 117] + digits;
    }
  }

  lemma ReadReplacement(tail: Bytes)
    ensures ReadText(REPLACEMENT + tail) == Prepend(FFFD, ReadText(tail))
  {
    var digits: Bytes := [102, 102, 102, 100];
    ReadUnit(digits, tail);
    assert REPLACEMENT == [BACKSLASH, 117] + digits;
    hide ReadText;
    assert CodeUnit(digits) == 0xFFFD && Utf8Of(0xFFFD) == FFFD;
  }

  lemma ReadSeparator(last: Byte, tail: Bytes)
    requires last == 0xA8 || last == 0xA9
    ensures ReadText([BACKSLASH, 117, 50, 48, 50, 56 + last - 0xA8] + tail)
            == Prepend([0xE2, 0x80, last], ReadText(tail))
  {
    var digits: Bytes := [50, 48, 50, 56 + last - 0xA8];
    ReadUnit(digits, tail);
    hide ReadText;
    assert [BACKSLASH, 117, 50, 48, 50, 56 + last - 0xA8] == [BACKSLASH, 117] + digits;
    assert CodeUnit(digits) == 0x2028 + last - 0xA8;
  }

  lemma ReadWritten(s: Bytes, tail: Bytes)
    requires s != []
    ensures ReadText(Written(s) + tail) == Prepend(MendedOne(s), ReadText(tail))
  {
    hide ReadText, EscapedByte, Prepend;
    if s[0] < 128 {
      ReadEscapedByte(s[0], tail);
      assert s[..1] == [s[0]];
    } else if RuneLength(s) == 0 {
      ReadReplacement(tail);
    } else {
      var rune := s[..RuneLength(s)];
      if rune == [0xE2, 0x80, 0xA8] || rune == [0xE2, 0x80, 0xA9] {
        assert s[2] == rune[2];
        ReadSeparator(s[2], tail);
      } else {
        RuneIsHigh(s);
        ReadRun(rune, tail);
      }
    }
  }

  lemma RuneIsHigh(s: Bytes)
    requires s != [] && s[0] >= 128
    ensures forall i | 0 <= i < RuneLength(s) :: s[i] >= 128
  {
  }

  /** What is read of a string is what was written, with what is not UTF-8 replaced. */
  lemma {:induction false} ReadEscaped(t: Bytes, rest: Bytes)
    ensures ReadText(Escaped(t) + [QUOTE] + rest) == Got(Mended(t), rest)
    decreases |t|
  {
    if t == [] {
      assert Escaped(t) + [QUOTE] + rest == [QUOTE] + rest && ([QUOTE] + rest)[1..] == rest;
    } else {
      var more := t[Taken(t)..];
      ReadEscaped(more, rest);
      ReadWritten(t, Escaped(more) + [QUOTE] + rest);
      Regroup(Written(t), Escaped(more), [QUOTE], rest);
      assert Escaped(t) == Written(t) + Escaped(more);
      assert Mended(t) == MendedOne(t) + Mended(more);
      hide ReadText, Written, Escaped, MendedOne, Mended, Taken;
    }
  }

  lemma ReplacementIsACharacter(s: Bytes)
    ensures |s| >= 3 && s[..3] == FFFD ==> s[0] >= 128 && RuneLength(s) == 3
  {
    if |s| >= 3 && s[..3] == FFFD {
      assert s[0] == s[..3][0] && s[1] == s[..3][1] && s[2] == s[..3][2];
    }
  }

  lemma MendedBegins(s: Bytes)
    requires s != [] && s[0] >= 128 && RuneLength(s) == 0
    ensures Mended(s) != s
  {
    ReplacementIsACharacter(s);
    assert Mended(s)[..3] == FFFD;
    hide RuneLength, Mended;
  }

  /** A text comes out as it went in exactly when it is UTF-8. */
  lemma {:induction false} SurvivesExactlyWhenUtf8(t: Bytes)
    ensures Mended(t) == t <==> Utf8(t)
    decreases |t|
  {
    if t != [] {
      var more := t[Taken(t)..];
      SurvivesExactlyWhenUtf8(more);
      if t[0] >= 128 && RuneLength(t) == 0 {
        MendedBegins(t);
      } else {
        assert MendedOne(t) == t[..Taken(t)] && t == t[..Taken(t)] + more;
        assert Mended(t)[Taken(t)..] == Mended(more);
      }
    }
  }
}
