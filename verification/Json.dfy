/** How a string is written in a message: section 7 of RFC 8259, in the form Go's `encoding/json` gives it, which
    also escapes `<`, `>`, `&` and the two line separators and replaces what is not UTF-8. */
module Json {
  import opened Ids

  const QUOTE: Byte := 34
  const BACKSLASH: Byte := 92
  const REPLACEMENT := Ascii("\\ufffd")

  function Hex(d: int): Byte
    requires 0 <= d < 16
  {
    if d < 10 then 48 + d else 87 + d
  }

  /** A character of one byte. */
  function EscapedByte(b: Byte): (r: Bytes)
    requires b < 128
    ensures 1 <= |r| <= 6
  {
    if b == QUOTE || b == BACKSLASH then [BACKSLASH, b]
    else if b == 8 then [BACKSLASH, 98]
    else if b == 12 then [BACKSLASH, 102]
    else if b == 10 then [BACKSLASH, 110]
    else if b == 13 then [BACKSLASH, 114]
    else if b == 9 then [BACKSLASH, 116]
    else if b < 32 || b == 60 || b == 62 || b == 38 then [BACKSLASH, 117, 48, 48, Hex(b / 16), Hex(b % 16)]
    else [b]
  }

  predicate Follows(s: Bytes, i: nat, low: int, high: int)
  {
    i < |s| && low <= s[i] <= high
  }

  /** How many bytes the character at the front has, or zero where there is none: the well-formed sequences of
      table 3-7 of the Unicode standard. */
  function RuneLength(s: Bytes): (n: nat)
    requires s != [] && s[0] >= 128
    ensures n <= |s| && n != 1
  {
    var b := s[0];
    if 0xC2 <= b <= 0xDF && Follows(s, 1, 0x80, 0xBF) then 2
    else if b == 0xE0 && Follows(s, 1, 0xA0, 0xBF) && Follows(s, 2, 0x80, 0xBF) then 3
    else if b == 0xED && Follows(s, 1, 0x80, 0x9F) && Follows(s, 2, 0x80, 0xBF) then 3
    else if 0xE1 <= b <= 0xEF && b != 0xED && Follows(s, 1, 0x80, 0xBF) && Follows(s, 2, 0x80, 0xBF) then 3
    else if b == 0xF0 && Follows(s, 1, 0x90, 0xBF) && Follows(s, 2, 0x80, 0xBF) && Follows(s, 3, 0x80, 0xBF) then 4
    else if 0xF1 <= b <= 0xF3
         && Follows(s, 1, 0x80, 0xBF) && Follows(s, 2, 0x80, 0xBF) && Follows(s, 3, 0x80, 0xBF) then 4
    else if b == 0xF4 && Follows(s, 1, 0x80, 0x8F) && Follows(s, 2, 0x80, 0xBF) && Follows(s, 3, 0x80, 0xBF) then 4
    else 0
  }

  /** How many bytes the next character takes up. */
  function Taken(s: Bytes): (n: nat)
    requires s != []
    ensures 1 <= n <= |s|
  {
    if s[0] < 128 || RuneLength(s) == 0 then 1 else RuneLength(s)
  }

  /** What the next character is written as. */
  function Written(s: Bytes): (r: Bytes)
    requires s != []
    ensures Taken(s) <= |r| <= 6 * Taken(s)
  {
    if s[0] < 128 then EscapedByte(s[0])
    else if RuneLength(s) == 0 then REPLACEMENT
    else if s[..RuneLength(s)] == [0xE2, 0x80, 0xA8] || s[..RuneLength(s)] == [0xE2, 0x80, 0xA9] then
      [BACKSLASH, 117, 50, 48, 50, 56 + s[2] - 0xA8]
    else s[..RuneLength(s)]
  }

  function Escaped(s: Bytes): Bytes
    decreases |s|
  {
    if s == [] then [] else Written(s) + Escaped(s[Taken(s)..])
  }

  function Quoted(s: Bytes): Bytes
  {
    [QUOTE] + Escaped(s) + [QUOTE]
  }

  /** Escaping never shortens a text and at most multiplies it by six. */
  lemma {:induction false} EscapedLength(s: Bytes)
    ensures |s| <= |Escaped(s)| <= 6 * |s|
    decreases |s|
  {
    if s != [] {
      EscapedLength(s[Taken(s)..]);
      hide Taken, Written;
    }
  }

  /** A byte written as itself. */
  predicate Plain(b: Byte)
  {
    32 <= b < 128 && b != QUOTE && b != BACKSLASH && b != 60 && b != 62 && b != 38
  }

  lemma {:induction false} PlainIsWrittenAsIs(s: Bytes)
    requires forall i :: 0 <= i < |s| ==> Plain(s[i])
    ensures Escaped(s) == s
  {
    if s != [] {
      PlainIsWrittenAsIs(s[1..]);
      assert Plain(s[0]) && Written(s) == [s[0]];
    }
  }
}
