/** Rolls, pages and what a page looks like on the wire: `internal/presence/presence.go`, with the envelope
    `internal/wire/wire.go` puts round it. */
module Presence {
  import opened Ids
  import opened Sorting
  import opened Json
  import Decimal

  const MAX_ATTENDING := 8
  const MAX_PAGE := 100
  const MAX_MESSAGE_BYTES := 65536

  datatype Error = Empty | Duplicate | Unknown | PageSize | TooLarge

  datatype Made<T> = Refused(why: Error) | Made(value: T)

  datatype Entry = Entry(id: Id, identity: Id, role: Id)

  datatype Roll = Roll(entries: seq<Entry>, attending: seq<Entry>, attendingTotal: nat, identities: nat)

  datatype Page = Page(entries: seq<Entry>, next: Id, total: nat)

  function IdsOf(es: seq<Entry>): (r: seq<Id>)
    ensures |r| == |es| && forall i :: 0 <= i < |es| ==> r[i] == es[i].id
  {
    seq(|es|, i requires 0 <= i < |es| => es[i].id)
  }

  predicate Distinct(ids: seq<Id>)
  {
    forall i, j :: 0 <= i < j < |ids| ==> ids[i] != ids[j]
  }

  predicate EntryBefore(a: Entry, b: Entry)
  {
    Less(a.id, b.id)
  }

  // ---------------------------------------------------------------- the roll

  /** What a roll may be made of: every entry under an identifier of its own, and those attended to among them,
      each once. */
  ghost predicate Rollable(entries: seq<Entry>, attending: seq<Id>)
  {
    && [] !in IdsOf(entries) && Distinct(IdsOf(entries))
    && (forall id :: id in attending ==> id in IdsOf(entries)) && Distinct(attending)
  }

  /** The roll of those entries: everybody by identifier, the first few attended to in the order given, how many
      were attended to, and how many people there are. */
  ghost predicate RollOf(entries: seq<Entry>, attending: seq<Id>, r: Roll)
  {
    && Ascending(IdsOf(r.entries)) && [] !in IdsOf(r.entries)
    && (forall e :: e in r.entries <==> e in entries)
    && r.attendingTotal == |attending|
    && IdsOf(r.attending) == (if |attending| <= MAX_ATTENDING then attending else attending[..MAX_ATTENDING])
    && (forall e :: e in r.attending ==> e in entries)
    && r.identities == |set e | e in entries :: e.identity|
  }

  method NewRoll(entries: seq<Entry>, attending: seq<Id>) returns (r: Made<Roll>)
    ensures r.Made? <==> Rollable(entries, attending)
    ensures r.Made? ==> RollOf(entries, attending, r.value)
    ensures r.Refused? ==>
              || (r.why == Empty && [] in IdsOf(entries))
              || (r.why == Duplicate && !(Distinct(IdsOf(entries)) && Distinct(attending)))
              || (r.why == Unknown && exists id :: id in attending && id !in IdsOf(entries))
  {
    var held, identities, ordered, bad := Enter(entries);
    if bad != Fine {
      return Refused(bad.why);
    }
    ByIdentifier(entries);
    ordered := Sort(ordered, EntryBefore);
    var front, wrong := Attend(held, attending);
    hide Sort;
    if wrong != Fine {
      return Refused(wrong.why);
    }
    FrontOf(held, entries, front);
    return Made(Roll(ordered, front, |attending|, |identities|));
  }

  datatype Check = Fine | Bad(why: Error)

  /** The entries by identifier, the people they are, and the entries again to be put in order. */
  method Enter(entries: seq<Entry>) returns (held: map<Id, Entry>, identities: set<Id>, ordered: seq<Entry>, bad: Check)
    ensures bad == Fine <==> [] !in IdsOf(entries) && Distinct(IdsOf(entries))
    ensures bad.Bad? ==>
              (bad.why == Empty && [] in IdsOf(entries)) || (bad.why == Duplicate && !Distinct(IdsOf(entries)))
    ensures bad == Fine ==>
            HeldIs(held, entries) && ordered == entries && identities == set e | e in entries :: e.identity
  {
    held, identities, ordered, bad := map[], {}, [], Fine;
    for i := 0 to |entries|
      invariant ordered == entries[..i] && HeldIs(held, entries[..i])
      invariant identities == set e | e in entries[..i] :: e.identity
      invariant [] !in IdsOf(entries[..i]) && Distinct(IdsOf(entries[..i]))
    {
      var e := entries[i];
      OneMoreEntry(held, entries, i);
      hide HeldIs, Distinct;
      if e.id == [] {
        bad := Bad(Empty);
        return;
      }
      if e.id in held {
        bad := Bad(Duplicate);
        return;
      }
      held := held[e.id := e];
      identities := identities + {e.identity};
      ordered := ordered + [e];
    }
    assert entries[..|entries|] == entries;
  }

  /** The first few of those attended to. */
  method Attend(held: map<Id, Entry>, attending: seq<Id>) returns (front: seq<Entry>, bad: Check)
    requires forall id :: id in held ==> held[id].id == id
    ensures bad == Fine <==> (forall id :: id in attending ==> id in held) && Distinct(attending)
    ensures bad.Bad? ==>
              || (bad.why == Unknown && exists id :: id in attending && id !in held)
              || (bad.why == Duplicate && !Distinct(attending))
    ensures bad == Fine ==>
            IdsOf(front) == (if |attending| <= MAX_ATTENDING then attending else attending[..MAX_ATTENDING])
    ensures forall e :: e in front ==> e.id in held && held[e.id] == e
  {
    var named: set<Id> := {};
    front, bad := [], Fine;
    for i := 0 to |attending|
      invariant forall id :: id in named <==> id in attending[..i]
      invariant Distinct(attending[..i]) && forall id :: id in attending[..i] ==> id in held
      invariant IdsOf(front) == if i <= MAX_ATTENDING then attending[..i] else attending[..MAX_ATTENDING]
      invariant forall e :: e in front ==> e.id in held && held[e.id] == e
    {
      var id := attending[i];
      assert attending[..i + 1] == attending[..i] + [id];
      if id !in held {
        assert id in attending;
        bad := Bad(Unknown);
        return;
      }
      if id in named {
        bad := Bad(Duplicate);
        return;
      }
      named := named + {id};
      if |front| < MAX_ATTENDING {
        assert IdsOf(front + [held[id]]) == IdsOf(front) + [id];
        front := front + [held[id]];
      }
    }
    assert attending[..|attending|] == attending;
  }

  lemma FrontOf(held: map<Id, Entry>, entries: seq<Entry>, front: seq<Entry>)
    requires HeldIs(held, entries) && forall e :: e in front ==> e.id in held && held[e.id] == e
    ensures forall e :: e in front ==> e in entries
    ensures forall id :: id in held <==> id in IdsOf(entries)
  {
  }

  /** The entries so far, by identifier. */
  ghost predicate HeldIs(held: map<Id, Entry>, es: seq<Entry>)
  {
    && (forall id :: id in held <==> id in IdsOf(es))
    && (forall id :: id in held ==> held[id].id == id && held[id] in es)
  }

  lemma OneMoreEntry(held: map<Id, Entry>, entries: seq<Entry>, i: nat)
    requires i < |entries| && HeldIs(held, entries[..i]) && Distinct(IdsOf(entries[..i]))
    ensures entries[..i + 1] == entries[..i] + [entries[i]]
    ensures IdsOf(entries[..i + 1]) == IdsOf(entries[..i]) + [entries[i].id]
    ensures entries[i].id !in held ==>
            HeldIs(held[entries[i].id := entries[i]], entries[..i + 1]) && Distinct(IdsOf(entries[..i + 1]))
    ensures entries[i].id in held || entries[i].id == [] ==> !([] !in IdsOf(entries) && Distinct(IdsOf(entries)))
  {
    assert IdsOf(entries)[i] == entries[i].id && IdsOf(entries)[..i] == IdsOf(entries[..i]);
    assert IdsOf(entries[..i + 1]) == IdsOf(entries[..i]) + [entries[i].id];
  }

  lemma ByIdentifier(entries: seq<Entry>)
    requires Distinct(IdsOf(entries)) && [] !in IdsOf(entries)
    ensures var s := Sort(entries, EntryBefore);
            Ascending(IdsOf(s)) && [] !in IdsOf(s) && forall e :: e in s <==> e in entries
  {
    var s := Sort(entries, EntryBefore);
    ByKeyIsStrictWeak((a: Entry) => a.id, EntryBefore);
    SortInOrder(entries, EntryBefore);
    SameElements(entries, EntryBefore);
    forall i, j | 0 <= i < j < |entries| ensures entries[i] != entries[j] {
      assert IdsOf(entries)[i] != IdsOf(entries)[j];
    }
    SortNoDuplicates(entries, EntryBefore);
    hide Sort;
    forall i | 0 <= i < |s| ensures s[i].id != [] {
      assert s[i] in entries;
      var k :| 0 <= k < |entries| && entries[k] == s[i];
      assert IdsOf(entries)[k] in IdsOf(entries);
    }
    forall i, j | 0 <= i < j < |s| ensures Less(s[i].id, s[j].id) {
      assert s[i] in entries && s[j] in entries && s[i] != s[j];
      OfOneIdentifier(entries, s[i], s[j]);
      LessTotal(s[i].id, s[j].id);
      assert !EntryBefore(s[j], s[i]);
    }
  }

  lemma OfOneIdentifier(entries: seq<Entry>, a: Entry, b: Entry)
    requires Distinct(IdsOf(entries)) && a in entries && b in entries
    ensures a.id == b.id ==> a == b
  {
    var i :| 0 <= i < |entries| && entries[i] == a;
    var j :| 0 <= j < |entries| && entries[j] == b;
    assert IdsOf(entries)[i] == a.id && IdsOf(entries)[j] == b.id;
  }

  /** A roll does not depend on the order its entries were given in: only the order of those attended to counts. */
  lemma ARollIsOfItsEntries(entries: seq<Entry>, others: seq<Entry>, attending: seq<Id>, r: Roll, s: Roll)
    requires Rollable(entries, attending) && forall e :: e in entries <==> e in others
    requires RollOf(entries, attending, r) && RollOf(others, attending, s)
    ensures r == s
  {
    SameInOrder(r.entries, s.entries);
    assert (set e | e in entries :: e.identity) == (set e | e in others :: e.identity);
    assert |r.attending| == |IdsOf(r.attending)| == |s.attending|;
    forall i | 0 <= i < |r.attending| ensures r.attending[i] == s.attending[i] {
      assert r.attending[i] in entries && s.attending[i] in others;
      assert IdsOf(r.attending)[i] == IdsOf(s.attending)[i];
      OfOneIdentifier(entries, r.attending[i], s.attending[i]);
    }
  }

  lemma SameInOrder(a: seq<Entry>, b: seq<Entry>)
    requires Ascending(IdsOf(a)) && Ascending(IdsOf(b)) && forall e :: e in a <==> e in b
    ensures a == b
  {
    forall x ensures x in IdsOf(a) <==> x in IdsOf(b) {
      if x in IdsOf(a) {
        var i :| 0 <= i < |a| && IdsOf(a)[i] == x;
        assert a[i] in b;
      }
      if x in IdsOf(b) {
        var i :| 0 <= i < |b| && IdsOf(b)[i] == x;
        assert b[i] in a;
      }
    }
    AscendingUnique(IdsOf(a), IdsOf(b));
    forall i | 0 <= i < |a| ensures a[i] == b[i] {
      assert a[i] in b;
      var k :| 0 <= k < |b| && b[k] == a[i];
      AscendingDistinct(IdsOf(b), i, k);
    }
  }

  /** The people in a room are at most the endpoints. */
  lemma {:induction false} PeopleAtMostEntries(entries: seq<Entry>)
    ensures |set e | e in entries :: e.identity| <= |entries|
  {
    if entries != [] {
      var past, last := entries[..|entries| - 1], entries[|entries| - 1];
      PeopleAtMostEntries(past);
      assert entries == past + [last];
      assert (set e | e in entries :: e.identity) == (set e | e in past :: e.identity) + {last.identity};
    }
  }

  // ---------------------------------------------------------------- the bytes of a page

  const COMMA := Ascii(",")

  function EntryText(e: Entry): Bytes
  {
    Ascii("{\"participant\":") + Quoted(e.id) + Ascii(",\"identity\":") + Quoted(e.identity)
    + Ascii(",\"role\":") + Quoted(e.role) + Ascii("}")
  }

  function EntriesText(es: seq<Entry>): Bytes
  {
    if es == [] then []
    else if |es| == 1 then EntryText(es[0])
    else EntryText(es[0]) + COMMA + EntriesText(es[1..])
  }

  function PageText(p: Page): Bytes
  {
    Ascii("{\"entries\":[") + EntriesText(p.entries) + Ascii("],\"next\":") + Quoted(p.next) + Ascii(",\"total\":")
    + Decimal.Digits(p.total) + Ascii("}")
  }

  /** One message: the type and what it carries. */
  function Envelope(kind: Bytes, data: Bytes): Bytes
  {
    Ascii("{\"type\":") + Quoted(kind) + Ascii(",\"data\":") + data + Ascii("}")
  }

  function PageMessage(p: Page): Bytes
  {
    Envelope(Ascii("presence.page"), PageText(p))
  }

  predicate FitsMessage(p: Page)
  {
    |PageMessage(p)| <= MAX_MESSAGE_BYTES
  }

  // ---------------------------------------------------------------- one page

  /** The index of the first entry past a cursor. */
  function FirstAfter(es: seq<Entry>, after: Id): (start: nat)
    ensures start <= |es|
    ensures forall i :: 0 <= i < start ==> !Less(after, es[i].id)
    ensures start < |es| ==> Less(after, es[start].id)
  {
    if es == [] || Less(after, es[0].id) then 0 else 1 + FirstAfter(es[1..], after)
  }

  function CursorAt(es: seq<Entry>, start: nat, all: nat): Id
  {
    if es == [] || start + |es| >= all then [] else es[|es| - 1].id
  }

  /** The page of the first `k` entries from `start` on. */
  function PageOf(r: Roll, start: nat, k: nat): (p: Page)
    requires start + k <= |r.entries|
    ensures |p.entries| == k
  {
    var es := r.entries[start..start + k];
    Page(es, CursorAt(es, start, |r.entries|), |r.entries|)
  }

  /** The page the source answers with, said of it as a whole: as many entries as are asked for, are left and fit
      in one message, a size out of bounds refused, and a place from which not even one entry fits refused. */
  ghost predicate Answers(r: Roll, after: Id, size: int, a: Made<Page>)
  {
    if size < 1 || size > MAX_PAGE then a == Refused(PageSize)
    else
      var start := FirstAfter(r.entries, after);
      var most := if start + size > |r.entries| then |r.entries| - start else size;
      if most == 0 then a == Made(PageOf(r, start, 0))
      else if a.Refused? then a.why == TooLarge && forall k | 1 <= k <= most :: !FitsMessage(PageOf(r, start, k))
      else
        && 1 <= |a.value.entries| <= most && a.value == PageOf(r, start, |a.value.entries|) && FitsMessage(a.value)
        && forall k | |a.value.entries| < k <= most :: !FitsMessage(PageOf(r, start, k))
  }

  method PageAfter(r: Roll, after: Id, size: int) returns (a: Made<Page>)
    requires [] !in IdsOf(r.entries)
    ensures Answers(r, after, size, a)
  {
    hide FitsMessage, PageOf, Less;
    if size < 1 || size > MAX_PAGE {
      return Refused(PageSize);
    }
    var start := 0;
    if after != [] {
      start := FirstAfter(r.entries, after);
    } else {
      BeginsAtTheBeginning(r.entries);
    }
    var end := start + size;
    if end > |r.entries| {
      end := |r.entries|;
    }
    hide FirstAfter, Answers;
    var k;
    a, k := Shorten(r, start, end - start);
    if a.Refused? {
      NoPrefixFits(r, after, size, start, end - start);
    } else {
      LongestPrefix(r, after, size, start, end - start, k);
    }
  }

  /** Takes entries off the end of a page, one by one, until it fits in one message. */
  method Shorten(r: Roll, start: nat, most: nat) returns (a: Made<Page>, k: nat)
    requires start + most <= |r.entries|
    ensures a.Made? ==>
            k <= most && (most > 0 ==> k >= 1 && FitsMessage(PageOf(r, start, k))) && a.value == PageOf(r, start, k)
    ensures a.Refused? ==> a.why == TooLarge && most > 0 && k == 0
    ensures forall j | k < j <= most :: !FitsMessage(PageOf(r, start, j))
  {
    hide FitsMessage, CursorAt;
    var page := Page(r.entries[start..start + most], [], |r.entries|);
    page := page.(next := CursorAt(page.entries, start, |r.entries|));
    k := most;
    assert page == PageOf(r, start, k);
    hide PageOf;
    while |page.entries| > 1 && !FitsMessage(page)
      invariant |page.entries| == k <= most && (most > 0 ==> k >= 1) && page == PageOf(r, start, k)
      invariant forall j | k < j <= most :: !FitsMessage(PageOf(r, start, j))
      decreases k
    {
      Shortened(r, start, k - 1);
      k := k - 1;
      page := page.(entries := page.entries[..k]);
      page := page.(next := CursorAt(page.entries, start, |r.entries|));
    }
    if |page.entries| == 1 && !FitsMessage(page) {
      return Refused(TooLarge), 0;
    }
    return Made(page), k;
  }

  lemma Shortened(r: Roll, start: nat, k: nat)
    requires start + k + 1 <= |r.entries|
    ensures var es := PageOf(r, start, k + 1).entries;
            |es| == k + 1 && PageOf(r, start, k) == Page(es[..k], CursorAt(es[..k], start, |r.entries|), |r.entries|)
  {
    assert r.entries[start..start + k + 1][..k] == r.entries[start..start + k];
  }

  lemma NoPrefixFits(r: Roll, after: Id, size: int, start: nat, most: nat)
    requires 1 <= size <= MAX_PAGE && start == FirstAfter(r.entries, after)
    requires most == if start + size > |r.entries| then |r.entries| - start else size
    requires most > 0 && forall k | 1 <= k <= most :: !FitsMessage(PageOf(r, start, k))
    ensures Answers(r, after, size, Refused(TooLarge))
  {
    hide FirstAfter, FitsMessage, PageOf;
  }

  lemma LongestPrefix(r: Roll, after: Id, size: int, start: nat, most: nat, k: nat)
    requires 1 <= size <= MAX_PAGE && start == FirstAfter(r.entries, after)
    requires most == if start + size > |r.entries| then |r.entries| - start else size
    requires k <= most && (most > 0 ==> k >= 1 && FitsMessage(PageOf(r, start, k)))
    requires forall j | k < j <= most :: !FitsMessage(PageOf(r, start, j))
    ensures Answers(r, after, size, Made(PageOf(r, start, k)))
  {
    hide FirstAfter, FitsMessage, PageOf;
  }

  lemma BeginsAtTheBeginning(es: seq<Entry>)
    requires [] !in IdsOf(es)
    ensures FirstAfter(es, []) == 0
  {
    if es != [] {
      assert IdsOf(es)[0] in IdsOf(es);
    }
  }

  /** There is one answer. */
  lemma OneAnswer(r: Roll, after: Id, size: int, a: Made<Page>, b: Made<Page>)
    requires Answers(r, after, size, a) && Answers(r, after, size, b)
    ensures a == b
  {
    hide FitsMessage, FirstAfter;
  }
}
