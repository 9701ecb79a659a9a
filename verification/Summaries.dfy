/** Summaries as messages: how long they are, and what is read from them. */
module Summaries {
  import opened Ids
  import opened Json
  import opened JsonReading
  import opened PageReading
  import opened Presence
  import Paging
  import Decimal

  /** The summary of a roll at a revision, as one message. */
  function SummaryText(r: Roll, revision: nat): Bytes
  {
    Ascii("{\"revision\":") + Decimal.Digits(revision) + Ascii(",\"participants\":") + Decimal.Digits(|r.entries|)
    + Ascii(",\"identities\":") + Decimal.Digits(r.identities) + Ascii(",\"attending\":[") + EntriesText(r.attending)
    + Ascii("],\"attendingTotal\":") + Decimal.Digits(r.attendingTotal) + Ascii("}")
  }

  function SummaryMessage(r: Roll, revision: nat): Bytes
  {
    Envelope(Ascii("presence.summary"), SummaryText(r, revision))
  }

  lemma KindLength()
    ensures |Quoted(Ascii("presence.summary"))| == 18
  {
    var kind := Ascii("presence.summary");
    forall i | 0 <= i < |kind| ensures Plain(kind[i]) {
    }
    PlainIsWrittenAsIs(kind);
  }

  lemma SummaryLength(r: Roll, revision: nat)
    ensures |SummaryMessage(r, revision)|
            == 111 + |Decimal.Digits(revision)| + |Decimal.Digits(|r.entries|)| + |Decimal.Digits(r.identities)|
                + |EntriesText(r.attending)| + |Decimal.Digits(r.attendingTotal)|
  {
    KindLength();
    hide Decimal.Digits, EntriesText, Quoted;
  }

  /** The most that `n` entries take, each with what separates it. */
  function Most(n: nat, most: nat): nat
  {
    if n == 0 then 0 else Most(n - 1, most) + most + 1
  }

  lemma {:induction false} MostGrows(n: nat, most: nat)
    requires n <= MAX_ATTENDING
    ensures Most(n, most) <= Most(MAX_ATTENDING, most)
    decreases MAX_ATTENDING - n
  {
    if n < MAX_ATTENDING {
      MostGrows(n + 1, most);
    }
  }

  lemma {:induction false} EntriesLength(es: seq<Entry>, most: nat)
    requires forall e | e in es :: Paging.EntryLength(e) <= most
    ensures |EntriesText(es)| <= Most(|es|, most)
  {
    if es != [] {
      Paging.EntryTextLength(es[0]);
      EntriesLength(es[1..], most);
      assert es[0] in es && |COMMA| == 1;
      hide EntryText, Paging.EntryLength;
    }
  }

  lemma {:induction false} AsManyAsElements(ids: seq<Id>)
    requires Distinct(ids)
    ensures |set id | id in ids| == |ids|
  {
    if ids != [] {
      var past, last := ids[..|ids| - 1], ids[|ids| - 1];
      AsManyAsElements(past);
      assert (set id | id in ids) == (set id | id in past) + {last};
      assert last !in past;
    }
  }

  lemma NoMoreThanWithin(a: seq<Id>, b: seq<Id>)
    requires Distinct(a) && Distinct(b) && forall id :: id in a ==> id in b
    ensures |a| <= |b|
  {
    AsManyAsElements(a);
    AsManyAsElements(b);
    var within, all := set id | id in a, set id | id in b;
    assert within <= all;
    Subset(within, all);
  }

  lemma {:induction false} Subset(a: set<Id>, b: set<Id>)
    requires a <= b
    ensures |a| <= |b|
  {
    if a != {} {
      var x :| x in a;
      Subset(a - {x}, b - {x});
    }
  }

  /** No more are attended to than there are. */
  lemma AttendingAreEntries(entries: seq<Entry>, attending: seq<Id>, r: Roll)
    requires Rollable(entries, attending) && RollOf(entries, attending, r)
    ensures r.attendingTotal <= |r.entries|
  {
    var ids := IdsOf(r.entries);
    forall id | id in attending ensures id in ids {
      var i :| 0 <= i < |entries| && IdsOf(entries)[i] == id;
      assert entries[i] in r.entries;
      var k :| 0 <= k < |r.entries| && r.entries[k] == entries[i];
      assert ids[k] == id;
    }
    forall i, j | 0 <= i < j < |ids| ensures ids[i] != ids[j] {
      LessIrreflexive(ids[i]);
    }
    NoMoreThanWithin(attending, ids);
  }

  /** A summary names at most eight participants however many there are: with entries that come to at most `most`
      bytes as written, its length is that of eight of those and a constant, and beyond that only the digits of the
      revision and, three times, of the number in the room. */
  lemma ASummaryDoesNotGrowWithTheRoom(entries: seq<Entry>, attending: seq<Id>, r: Roll, revision: nat, most: nat)
    requires Rollable(entries, attending) && RollOf(entries, attending, r)
    requires forall e | e in entries :: Paging.EntryLength(e) <= most
    ensures |SummaryMessage(r, revision)|
            <= 111 + 8 * (most + 1) + |Decimal.Digits(revision)| + 3 * |Decimal.Digits(|r.entries|)|
  {
    SummaryLength(r, revision);
    FewAttending(entries, attending, r);
    EntriesLength(r.attending, most);
    MostGrows(|r.attending|, most);
    EightAtMost(most);
    PeopleInTheRoll(entries, attending, r);
    AttendingAreEntries(entries, attending, r);
    hide *;
    Decimal.WidthGrows(r.identities, |r.entries|);
    Decimal.WidthGrows(r.attendingTotal, |r.entries|);
  }

  lemma EightAtMost(most: nat)
    ensures Most(MAX_ATTENDING, most) == 8 * (most + 1)
  {
    MostIsProduct(MAX_ATTENDING, most);
  }

  lemma {:induction false} MostIsProduct(n: nat, most: nat)
    ensures Most(n, most) == n * (most + 1)
  {
    if n > 0 {
      MostIsProduct(n - 1, most);
    }
  }

  lemma FewAttending(entries: seq<Entry>, attending: seq<Id>, r: Roll)
    requires RollOf(entries, attending, r)
    ensures |r.attending| <= MAX_ATTENDING && forall e | e in r.attending :: e in entries
  {
    assert |IdsOf(r.attending)| == |r.attending|;
  }

  lemma PeopleInTheRoll(entries: seq<Entry>, attending: seq<Id>, r: Roll)
    requires RollOf(entries, attending, r)
    ensures r.identities <= |r.entries|
  {
    PeopleAtMostEntries(r.entries);
    assert (set e | e in entries :: e.identity) == (set e | e in r.entries :: e.identity);
  }

  // ---------------------------------------------------------------- what a client reads of it

  /** A summary as a client has it. */
  datatype Summary = Summary(revision: int, participants: int, identities: int, attending: seq<Entry>,
                             attendingTotal: int)

  /** A literal and then a number. */
  function ReadCount(s: Bytes, literal: Bytes): Read<int>
  {
    match Expect(s, literal)
    case Unreadable => Unreadable
    case Got(_, rest) =>
      var n := DigitsOf(rest);
      if n == 0 then Unreadable else Got(Decimal.Value(rest[..n]), rest[n..])
  }

  const REVISION := Ascii("{\"revision\":")
  const PARTICIPANTS := Ascii(",\"participants\":")
  const IDENTITIES := Ascii(",\"identities\":")
  const ATTENDING := Ascii(",\"attending\":[")
  const ATTENDING_TOTAL := Ascii(",\"attendingTotal\":")

  /** Those attended to and how many they were. */
  function ReadAttending(s: Bytes): Read<(seq<Entry>, int)>
  {
    match Expect(s, ATTENDING)
    case Unreadable => Unreadable
    case Got(_, list) =>
      match ReadList(list)
      case Unreadable => Unreadable
      case Got(attending, d) =>
        match ReadCount(d, ATTENDING_TOTAL)
        case Unreadable => Unreadable
        case Got(total, e) =>
          match Expect(e, Ascii("}"))
          case Unreadable => Unreadable
          case Got(_, rest) => Got((attending, total), rest)
  }

  function ReadSummaryText(s: Bytes): Read<Summary>
  {
    match ReadCount(s, REVISION)
    case Unreadable => Unreadable
    case Got(revision, a) =>
      match ReadCount(a, PARTICIPANTS)
      case Unreadable => Unreadable
      case Got(participants, b) =>
        match ReadCount(b, IDENTITIES)
        case Unreadable => Unreadable
        case Got(identities, c) =>
          match ReadAttending(c)
          case Unreadable => Unreadable
          case Got(named, rest) => Got(Summary(revision, participants, identities, named.0, named.1), rest)
  }

  /** The summary a message carries, where it carries one and nothing else. */
  function ReadSummary(s: Bytes): Read<Summary>
  {
    match ReadMember(s, Ascii("{\"type\":"))
    case Unreadable => Unreadable
    case Got(kind, more) =>
      match Expect(more, Ascii(",\"data\":"))
      case Unreadable => Unreadable
      case Got(_, data) =>
        match ReadSummaryText(data)
        case Unreadable => Unreadable
        case Got(summary, last) =>
          if kind == Ascii("presence.summary") && last == Ascii("}") then Got(summary, []) else Unreadable
  }

  lemma ReadCountBack(literal: Bytes, n: nat, tail: Bytes)
    requires tail != [] && !(48 <= tail[0] <= 57)
    ensures ReadCount(literal + (Decimal.Digits(n) + tail), literal) == Got(n, tail)
  {
    var ds := Decimal.Digits(n);
    ExpectLiteral(literal, ds + tail);
    DigitsEnd(ds, tail);
    Decimal.ValueDigits(n);
    hide Decimal.Digits, Decimal.Value, DigitsOf, Expect;
    assert (ds + tail)[..|ds|] == ds && (ds + tail)[|ds|..] == tail;
  }

  lemma Two(p: Bytes, x: Bytes, y: Bytes, z: Bytes)
    ensures p + x + y + z == p + (x + (y + z))
  {
  }

  lemma One(p: Bytes, x: Bytes, y: Bytes)
    ensures p + x + y == p + (x + y)
  {
  }

  /** What follows each member of a summary. */
  function Tail(r: Roll, rest: Bytes): Bytes
  {
    ATTENDING + (EntriesText(r.attending) + [93]
                 + (ATTENDING_TOTAL + (Decimal.Digits(r.attendingTotal) + (Ascii("}") + rest))))
  }

  lemma SummaryTextApart(r: Roll, revision: nat, rest: Bytes)
    ensures SummaryText(r, revision) + rest
            == REVISION + (Decimal.Digits(revision) + (PARTICIPANTS + (Decimal.Digits(|r.entries|)
               + (IDENTITIES + (Decimal.Digits(r.identities) + Tail(r, rest))))))
  {
    var f := Ascii("],\"attendingTotal\":");
    assert f == [93] + ATTENDING_TOTAL;
    var revs, people, ids := Decimal.Digits(revision), Decimal.Digits(|r.entries|), Decimal.Digits(r.identities);
    var es, ts := EntriesText(r.attending), Decimal.Digits(r.attendingTotal);
    var p0 := REVISION + revs;
    var p1 := p0 + PARTICIPANTS + people;
    var p2 := p1 + IDENTITIES + ids;
    var p3 := p2 + ATTENDING + es;
    var brace := Ascii("}");
    assert SummaryText(r, revision) == p3 + f + ts + brace;
    assert Tail(r, rest) == ATTENDING + (es + [93] + (ATTENDING_TOTAL + (ts + (brace + rest))));
    hide *;
    var last := ts + (brace + rest);
    One(p3 + f + ts, brace, rest);
    Two(p3, f, ts, brace + rest);
    One([93], ATTENDING_TOTAL, last);
    Two(p2, ATTENDING, es, [93] + (ATTENDING_TOTAL + last));
    One(es, [93], ATTENDING_TOTAL + last);
    var tail := ATTENDING + (es + [93] + (ATTENDING_TOTAL + last));
    Two(p1, IDENTITIES, ids, tail);
    Two(p0, PARTICIPANTS, people, IDENTITIES + (ids + tail));
    One(REVISION, revs, PARTICIPANTS + (people + (IDENTITIES + (ids + tail))));
  }

  lemma ReadAttendingBack(r: Roll, rest: Bytes)
    ensures ReadAttending(Tail(r, rest)) == Got((MendedEntries(r.attending), r.attendingTotal), rest)
  {
    var brace := Ascii("}") + rest;
    var total := ATTENDING_TOTAL + (Decimal.Digits(r.attendingTotal) + brace);
    var list := EntriesText(r.attending) + [93] + total;
    assert brace[0] == 125;
    assert Tail(r, rest) == ATTENDING + list;
    hide Tail, Ascii, ReadList, Expect, EntriesText, Decimal.Digits, MendedEntries, ReadCount;
    ExpectLiteral(ATTENDING, list);
    ReadListBack(r.attending, total);
    ReadCountBack(ATTENDING_TOTAL, r.attendingTotal, brace);
    ExpectLiteral(Ascii("}"), rest);
  }

  lemma TailsBegin(r: Roll, rest: Bytes, more: Bytes)
    ensures Tail(r, rest) != [] && Tail(r, rest)[0] == 44
    ensures (IDENTITIES + more)[0] == 44 && (PARTICIPANTS + more)[0] == 44
  {
    assert ATTENDING[0] == 44 && IDENTITIES[0] == 44 && PARTICIPANTS[0] == 44;
    hide EntriesText, Decimal.Digits;
  }

  lemma ReadSummaryTextBack(r: Roll, revision: nat, rest: Bytes)
    ensures ReadSummaryText(SummaryText(r, revision) + rest)
            == Got(Summary(revision, |r.entries|, r.identities, MendedEntries(r.attending), r.attendingTotal), rest)
  {
    SummaryTextApart(r, revision, rest);
    var tail := Tail(r, rest);
    var people := Decimal.Digits(r.identities) + tail;
    var identities := IDENTITIES + people;
    var participants := PARTICIPANTS + (Decimal.Digits(|r.entries|) + identities);
    hide SummaryText, Tail, Ascii, ReadAttending, EntriesText, Decimal.Digits, MendedEntries, ReadCount;
    TailsBegin(r, rest, people);
    TailsBegin(r, rest, Decimal.Digits(|r.entries|) + identities);
    ReadCountBack(REVISION, revision, participants);
    ReadCountBack(PARTICIPANTS, |r.entries|, identities);
    ReadCountBack(IDENTITIES, r.identities, tail);
    ReadAttendingBack(r, rest);
  }

  lemma KindSurvives()
    ensures Mended(Ascii("presence.summary")) == Ascii("presence.summary")
  {
    var kind := Ascii("presence.summary");
    assert forall i | 0 <= i < |kind| :: kind[i] < 128;
    PlainSurvives(kind);
  }

  lemma MessageApart(r: Roll, revision: nat)
    ensures SummaryMessage(r, revision)
            == Ascii("{\"type\":") + Quoted(Ascii("presence.summary"))
               + (Ascii(",\"data\":") + (SummaryText(r, revision) + Ascii("}")))
  {
    hide Ascii, Quoted, SummaryText;
    Four(Ascii("{\"type\":") + Quoted(Ascii("presence.summary")), Ascii(",\"data\":"), SummaryText(r, revision),
         Ascii("}"));
  }

  /** What a client reads of a summary is its revision, the counts of the roll, those attended to in order and how
      many they were, every text with what is not UTF-8 replaced. */
  lemma ASummaryIsReadBack(r: Roll, revision: nat)
    ensures ReadSummary(SummaryMessage(r, revision))
            == Got(Summary(revision, |r.entries|, r.identities, MendedEntries(r.attending), r.attendingTotal), [])
  {
    MessageApart(r, revision);
    var data := SummaryText(r, revision) + Ascii("}");
    ReadMemberBack(Ascii("{\"type\":"), Ascii("presence.summary"), Ascii(",\"data\":") + data);
    KindSurvives();
    ExpectLiteral(Ascii(",\"data\":"), data);
    ReadSummaryTextBack(r, revision, Ascii("}"));
    hide SummaryMessage, SummaryText, Quoted, Ascii, ReadMember, ReadSummaryText, Expect, Mended, MendedEntries;
  }
}
