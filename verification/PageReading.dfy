/** A page's message read back, as a client reads it, with the members in the order they are written in. */
module PageReading {
  import opened Ids
  import opened Json
  import opened JsonReading
  import opened Presence
  import opened Paging
  import Decimal

  /** What follows a literal, where the text begins with it. */
  function Expect(s: Bytes, literal: Bytes): Read<Bytes>
  {
    if literal <= s then Got([], s[|literal|..]) else Unreadable
  }

  /** A literal and then a string. */
  function ReadMember(s: Bytes, literal: Bytes): Read<Bytes>
  {
    match Expect(s, literal)
    case Unreadable => Unreadable
    case Got(_, rest) => if rest != [] && rest[0] == QUOTE then ReadText(rest[1..]) else Unreadable
  }

  function ReadEntry(s: Bytes): Read<Entry>
  {
    match ReadMember(s, Ascii("{\"participant\":"))
    case Unreadable => Unreadable
    case Got(id, more) =>
      match ReadMember(more, Ascii(",\"identity\":"))
      case Unreadable => Unreadable
      case Got(identity, further) =>
        match ReadMember(further, Ascii(",\"role\":"))
        case Unreadable => Unreadable
        case Got(role, last) =>
          match Expect(last, Ascii("}"))
          case Unreadable => Unreadable
          case Got(_, rest) => Got(Entry(id, identity, role), rest)
  }

  /** An entry as it comes out at the other end. */
  function MendedEntry(e: Entry): Entry
  {
    Entry(Mended(e.id), Mended(e.identity), Mended(e.role))
  }

  lemma ExpectLiteral(literal: Bytes, rest: Bytes)
    ensures Expect(literal + rest, literal) == Got([], rest)
  {
  }

  lemma ReadMemberBack(literal: Bytes, t: Bytes, rest: Bytes)
    ensures ReadMember(literal + Quoted(t) + rest, literal) == Got(Mended(t), rest)
  {
    ReadEscaped(t, rest);
    var after := Escaped(t) + [QUOTE] + rest;
    hide ReadText, Escaped, Mended;
    ExpectLiteral(literal, [QUOTE] + after);
    assert literal + Quoted(t) + rest == literal + ([QUOTE] + after);
    assert ([QUOTE] + after)[1..] == after;
  }

  lemma EntryApart(e: Entry, rest: Bytes)
    ensures var role := Ascii("}") + rest;
            var identity := Ascii(",\"role\":") + Quoted(e.role) + role;
            var id := Ascii(",\"identity\":") + Quoted(e.identity) + identity;
            EntryText(e) + rest == Ascii("{\"participant\":") + Quoted(e.id) + id
  {
    hide Quoted, Ascii;
  }

  /** An entry is read back as it was written, with what is not UTF-8 replaced. */
  lemma ReadEntryBack(e: Entry, rest: Bytes)
    ensures ReadEntry(EntryText(e) + rest) == Got(MendedEntry(e), rest)
  {
    EntryApart(e, rest);
    var role := Ascii("}") + rest;
    var identity := Ascii(",\"role\":") + Quoted(e.role) + role;
    var id := Ascii(",\"identity\":") + Quoted(e.identity) + identity;
    ReadMemberBack(Ascii("{\"participant\":"), e.id, id);
    ReadMemberBack(Ascii(",\"identity\":"), e.identity, identity);
    ReadMemberBack(Ascii(",\"role\":"), e.role, role);
    ExpectLiteral(Ascii("}"), rest);
    hide EntryText, Quoted, Ascii, ReadMember, Expect, Mended;
  }

  /** The entries up to the closing bracket. */
  function ReadEntries(s: Bytes): Read<seq<Entry>>
    decreases |s|
  {
    match ReadEntry(s)
    case Unreadable => Unreadable
    case Got(e, rest) =>
      if rest != [] && rest[0] == 93 then Got([e], rest[1..])
      else if rest != [] && rest[0] == 44 && |rest| < |s| then
        match ReadEntries(rest[1..])
        case Unreadable => Unreadable
        case Got(es, last) => Got([e] + es, last)
      else Unreadable
  }

  function MendedEntries(es: seq<Entry>): (r: seq<Entry>)
    ensures |r| == |es|
  {
    seq(|es|, i requires 0 <= i < |es| => MendedEntry(es[i]))
  }

  lemma MendedFirst(es: seq<Entry>)
    requires es != []
    ensures MendedEntries(es) == [MendedEntry(es[0])] + MendedEntries(es[1..])
  {
    hide MendedEntry;
  }

  lemma EntryIsNotNothing(e: Entry)
    ensures EntryText(e) != []
  {
    assert |Ascii("}")| == 1;
    hide Ascii, Quoted;
  }

  lemma {:induction false} ReadEntriesBack(es: seq<Entry>, rest: Bytes)
    requires es != []
    ensures ReadEntries(EntriesText(es) + [93] + rest) == Got(MendedEntries(es), rest)
  {
    var e := es[0];
    if |es| == 1 {
      ReadEntryBack(e, [93] + rest);
      assert EntriesText(es) + [93] + rest == EntryText(e) + ([93] + rest);
      assert MendedEntries(es) == [MendedEntry(e)];
      hide ReadEntry, EntryText, MendedEntry;
      assert ([93] + rest)[1..] == rest;
    } else {
      var more := EntriesText(es[1..]) + [93] + rest;
      ReadEntriesBack(es[1..], rest);
      MendedFirst(es);
      OneThenMore(e, es[1..], more, rest);
      assert EntriesText(es) == EntryText(e) + COMMA + EntriesText(es[1..]);
      Five(EntryText(e), COMMA, EntriesText(es[1..]), [93], rest);
      hide *;
    }
  }

  lemma Five(a: Bytes, b: Bytes, c: Bytes, d: Bytes, e: Bytes)
    ensures a + b + c + d + e == a + (b + (c + d + e))
  {
  }

  lemma OneThenMore(e: Entry, es: seq<Entry>, more: Bytes, rest: Bytes)
    requires ReadEntries(more) == Got(MendedEntries(es), rest)
    ensures ReadEntries(EntryText(e) + (COMMA + more)) == Got([MendedEntry(e)] + MendedEntries(es), rest)
  {
    assert COMMA[0] == 44 && |COMMA| == 1;
    hide ReadEntry, EntryText, MendedEntry, MendedEntries, Ascii;
    ReadEntryBack(e, COMMA + more);
    EntryIsNotNothing(e);
    assert (COMMA + more)[1..] == more && (COMMA + more)[0] == 44;
  }

  /** The digits a text begins with. */
  function DigitsOf(s: Bytes): (n: nat)
    ensures n <= |s|
  {
    if s == [] || !(48 <= s[0] <= 57) then 0 else 1 + DigitsOf(s[1..])
  }

  function ReadList(s: Bytes): Read<seq<Entry>>
  {
    if s != [] && s[0] == 93 then Got([], s[1..]) else ReadEntries(s)
  }

  function ReadPageText(s: Bytes): Read<Page>
  {
    match Expect(s, Ascii("{\"entries\":["))
    case Unreadable => Unreadable
    case Got(_, list) =>
      match ReadList(list)
      case Unreadable => Unreadable
      case Got(entries, more) =>
        match ReadMember(more, Ascii(",\"next\":"))
        case Unreadable => Unreadable
        case Got(next, further) =>
          match Expect(further, Ascii(",\"total\":"))
          case Unreadable => Unreadable
          case Got(_, number) =>
            var n := DigitsOf(number);
            var total := Decimal.Value(number[..n]);
            match Expect(number[n..], Ascii("}"))
            case Unreadable => Unreadable
            case Got(_, rest) => if n > 0 && total >= 0 then Got(Page(entries, next, total), rest) else Unreadable
  }

  /** The page a message carries, where it carries one and nothing else. */
  function ReadPage(s: Bytes): Read<Page>
  {
    match ReadMember(s, Ascii("{\"type\":"))
    case Unreadable => Unreadable
    case Got(kind, more) =>
      match Expect(more, Ascii(",\"data\":"))
      case Unreadable => Unreadable
      case Got(_, data) =>
        match ReadPageText(data)
        case Unreadable => Unreadable
        case Got(page, last) =>
          if kind == Ascii("presence.page") && last == Ascii("}") then Got(page, []) else Unreadable
  }

  lemma {:induction false} DigitsEnd(ds: Bytes, tail: Bytes)
    requires (forall i :: 0 <= i < |ds| ==> 48 <= ds[i] <= 57) && (tail == [] || !(48 <= tail[0] <= 57))
    ensures DigitsOf(ds + tail) == |ds|
  {
    if ds == [] {
      assert ds + tail == tail;
    } else {
      assert (ds + tail)[1..] == ds[1..] + tail;
      DigitsEnd(ds[1..], tail);
    }
  }

  lemma ReadTotal(total: nat, rest: Bytes)
    ensures var number := Decimal.Digits(total) + (Ascii("}") + rest);
            var n := DigitsOf(number);
            n > 0 && Decimal.Value(number[..n]) == total && number[n..] == Ascii("}") + rest
  {
    var ds, tail := Decimal.Digits(total), Ascii("}") + rest;
    assert tail[0] == 125;
    DigitsEnd(ds, tail);
    Decimal.ValueDigits(total);
    assert (ds + tail)[..|ds|] == ds && (ds + tail)[|ds|..] == tail;
  }

  lemma ReadListBack(es: seq<Entry>, rest: Bytes)
    ensures ReadList(EntriesText(es) + [93] + rest) == Got(MendedEntries(es), rest)
  {
    if es == [] {
      assert EntriesText(es) + [93] + rest == [93] + rest && ([93] + rest)[1..] == rest;
    } else {
      ReadEntriesBack(es, rest);
      BeginsWithBrace(es);
      hide EntriesText, ReadEntries;
      assert (EntriesText(es) + [93] + rest)[0] == EntriesText(es)[0];
    }
  }

  lemma {:induction false} BeginsWithBrace(es: seq<Entry>)
    requires es != []
    ensures EntriesText(es) != [] && EntriesText(es)[0] == 123
  {
    if |es| == 1 {
      EntryBeginsWithBrace(es[0]);
    } else {
      BeginsWithBrace(es[..|es| - 1]);
      hide EntryText;
    }
  }

  lemma EntryBeginsWithBrace(e: Entry)
    ensures EntryText(e) != [] && EntryText(e)[0] == 123
  {
    assert Ascii("{\"participant\":")[0] == 123;
    hide Quoted;
  }

  /** The page as it comes out at the other end. */
  function MendedPage(p: Page): Page
  {
    Page(MendedEntries(p.entries), Mended(p.next), p.total)
  }

  lemma KindSurvives()
    ensures Mended(Ascii("presence.page")) == Ascii("presence.page")
  {
    var kind := Ascii("presence.page");
    assert forall i | 0 <= i < |kind| :: kind[i] < 128;
    PlainSurvives(kind);
  }

  lemma {:induction false} PlainSurvives(t: Bytes)
    requires forall i :: 0 <= i < |t| ==> t[i] < 128
    ensures Mended(t) == t
  {
    if t != [] {
      PlainSurvives(t[1..]);
      assert t == t[..1] + t[1..];
    }
  }

  lemma Seven(a: Bytes, b: Bytes, c: Bytes, d: Bytes, e: Bytes, f: Bytes, g: Bytes, h: Bytes)
    ensures a + b + c + d + e + f + g + h == a + (b + (c + (d + (e + (f + (g + h))))))
  {
    Five(a, b, c + d, e, f + g + h);
    assert a + b + c + d + e + f + g + h == a + b + (c + d) + e + (f + g + h);
    assert c + d + e + (f + g + h) == c + (d + (e + (f + (g + h))));
  }

  lemma PageTextApart(p: Page, rest: Bytes)
    ensures var total := Ascii(",\"total\":") + (Decimal.Digits(p.total) + (Ascii("}") + rest));
            var next := Ascii(",\"next\":") + Quoted(p.next) + total;
            PageText(p) + rest == Ascii("{\"entries\":[") + (EntriesText(p.entries) + [93] + next)
  {
    var bracket, comma := Ascii("],\"next\":"), Ascii(",\"next\":");
    assert bracket == [93] + comma;
    var front, es, q := Ascii("{\"entries\":["), EntriesText(p.entries), Quoted(p.next);
    var t, d, b := Ascii(",\"total\":"), Decimal.Digits(p.total), Ascii("}");
    Seven(front, es, bracket, q, t, d, b, rest);
    assert PageText(p) == front + es + bracket + q + t + d + b;
    hide *;
    Bracket(es, comma, q, t + (d + (b + rest)));
  }

  lemma Bracket(es: Bytes, comma: Bytes, q: Bytes, total: Bytes)
    ensures es + (([93] + comma) + (q + total)) == es + [93] + (comma + q + total)
  {
  }

  lemma ReadPageTextBack(p: Page, rest: Bytes)
    ensures ReadPageText(PageText(p) + rest) == Got(MendedPage(p), rest)
  {
    PageTextApart(p, rest);
    var number := Decimal.Digits(p.total) + (Ascii("}") + rest);
    var total := Ascii(",\"total\":") + number;
    var next := Ascii(",\"next\":") + Quoted(p.next) + total;
    ExpectLiteral(Ascii("{\"entries\":["), EntriesText(p.entries) + [93] + next);
    ReadListBack(p.entries, next);
    ReadMemberBack(Ascii(",\"next\":"), p.next, total);
    ExpectLiteral(Ascii(",\"total\":"), number);
    ReadTotal(p.total, rest);
    ExpectLiteral(Ascii("}"), rest);
    hide PageText, EntriesText, Quoted, Ascii, ReadMember, ReadList, Expect, Mended, MendedEntries, DigitsOf;
    hide Decimal.Digits, Decimal.Value;
  }

  lemma MessageApart(p: Page)
    ensures var kind := Quoted(Ascii("presence.page"));
            PageMessage(p) == Ascii("{\"type\":") + kind + (Ascii(",\"data\":") + (PageText(p) + Ascii("}")))
  {
    hide Ascii, Quoted, PageText;
    Four(Ascii("{\"type\":") + Quoted(Ascii("presence.page")), Ascii(",\"data\":"), PageText(p), Ascii("}"));
  }

  lemma Four(a: Bytes, b: Bytes, c: Bytes, d: Bytes)
    ensures a + b + c + d == a + (b + (c + d))
  {
  }

  /** What a client reads of a page's message is the page, every text with what is not UTF-8 replaced. */
  lemma APageIsReadBack(p: Page)
    ensures ReadPage(PageMessage(p)) == Got(MendedPage(p), [])
  {
    MessageApart(p);
    var data := PageText(p) + Ascii("}");
    ReadMemberBack(Ascii("{\"type\":"), Ascii("presence.page"), Ascii(",\"data\":") + data);
    KindSurvives();
    ExpectLiteral(Ascii(",\"data\":"), data);
    ReadPageTextBack(p, Ascii("}"));
    hide PageMessage, PageText, Quoted, Ascii, ReadMember, ReadPageText, Expect, Mended, MendedPage;
  }

  ghost predicate Utf8Entry(e: Entry)
  {
    Utf8(e.id) && Utf8(e.identity) && Utf8(e.role)
  }

  lemma EntriesSurvive(es: seq<Entry>)
    ensures MendedEntries(es) == es <==> forall e | e in es :: Utf8Entry(e)
  {
    forall i | 0 <= i < |es| ensures MendedEntries(es)[i] == es[i] <==> Utf8Entry(es[i]) {
      SurvivesExactlyWhenUtf8(es[i].id);
      SurvivesExactlyWhenUtf8(es[i].identity);
      SurvivesExactlyWhenUtf8(es[i].role);
      hide Mended, Utf8;
    }
    hide MendedEntries, Utf8Entry;
    if forall e | e in es :: Utf8Entry(e) {
      assert forall i | 0 <= i < |es| :: es[i] in es;
    }
  }

  /** So it is the very page, and the cursor the one that was given, exactly when all its texts are UTF-8. */
  lemma APageIsItselfExactlyWhenUtf8(p: Page)
    ensures ReadPage(PageMessage(p)) == Got(p, []) <==> Utf8(p.next) && forall e | e in p.entries :: Utf8Entry(e)
  {
    APageIsReadBack(p);
    SurvivesExactlyWhenUtf8(p.next);
    EntriesSurvive(p.entries);
    assert MendedPage(p) == p <==> MendedEntries(p.entries) == p.entries && Mended(p.next) == p.next;
    hide *;
  }

  /** Two participants, under two identifiers of one byte that are not UTF-8. */
  function TwoBytes(identity: Id, role: Id): Roll
  {
    Roll([Entry([0x80], identity, role), Entry([0x81], identity, role)], [], 0, 1)
  }

  lemma TwoBytesCursors(identity: Id, role: Id)
    ensures var r := TwoBytes(identity, role);
            && Orderly(r) && FirstAfter(r.entries, []) == 0
            && FirstAfter(r.entries, Mended(r.entries[0].id)) == 2
  {
    var r := TwoBytes(identity, role);
    assert Mended([0x80]) == FFFD + Mended([]) == FFFD;
    assert !Less(FFFD, [0x80]) && !Less(FFFD, [0x81]);
    assert r.entries[1..][1..] == [];
  }

  lemma TwoBytesLength(identity: Id, role: Id)
    ensures |PageMessage(PageOf(TwoBytes(identity, role), 0, 1))| == 120 + |Escaped(identity)| + |Escaped(role)|
  {
    var r := TwoBytes(identity, role);
    assert |Escaped([0x80])| == 6;
    PagesOfTwo(r, r.entries[0], r.entries[1]);
    hide Escaped, PageMessage, PageOf;
  }

  /** Where they are not, a client that sends back the cursor it read can miss somebody. Of these two, asked for one
      at a time, it is answered with the first, unless that one is too long for any message, and, past the cursor as
      it came out, with nobody and no cursor. */
  lemma AClientCanMissSomebody(identity: Id, role: Id)
    ensures var r := TwoBytes(identity, role);
            && Orderly(r) && PageOf(r, 0, 1).entries == r.entries[..1] && PageOf(r, 0, 1).next == r.entries[0].id
            && (Answers(r, [], 1, Made(PageOf(r, 0, 1)))
                <==> |Escaped(identity)| + |Escaped(role)| <= MAX_MESSAGE_BYTES - 120)
            && Answers(r, Mended(r.entries[0].id), 1, Made(Page([], [], 2)))
  {
    var r := TwoBytes(identity, role);
    TwoBytesCursors(identity, role);
    TwoBytesLength(identity, role);
    assert PageOf(r, 0, 1) == Page(r.entries[..1], r.entries[0].id, 2) && PageOf(r, 2, 0) == Page([], [], 2);
    hide TwoBytes, PageMessage, PageOf, FirstAfter, Mended, Escaped, Orderly;
    assert FitsMessage(PageOf(r, 0, 1)) <==> |Escaped(identity)| + |Escaped(role)| <= MAX_MESSAGE_BYTES - 120;
    hide FitsMessage;
  }
}
