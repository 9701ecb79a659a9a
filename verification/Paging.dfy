/** Walking the pages of a room, while people come and go and while they do not. */
module Paging {
  import opened Ids
  import opened Json
  import opened Presence
  import Decimal

  /** One request of a walk: the roll it met, the size asked for and the page answered. */
  datatype Asked = Asked(roll: Roll, size: int, page: Page)

  ghost predicate Orderly(r: Roll)
  {
    Ascending(IdsOf(r.entries)) && [] !in IdsOf(r.entries)
  }

  /** A walk from a cursor to the end: each page asked for with the cursor of the one before, until one has none. */
  ghost predicate Completed(walk: seq<Asked>, after: Id)
  {
    && walk != [] && Orderly(walk[0].roll)
    && Answers(walk[0].roll, after, walk[0].size, Made(walk[0].page))
    && (if |walk| == 1 then walk[0].page.next == []
        else walk[0].page.next != [] && Completed(walk[1..], walk[0].page.next))
  }

  /** Everybody listed, in the order they were. */
  function Listed(walk: seq<Asked>): seq<Entry>
  {
    if walk == [] then [] else walk[0].page.entries + Listed(walk[1..])
  }

  /** The cursor is reached: an identifier comes no later than it, or there is none left to come. */
  predicate UpTo(id: Id, next: Id)
  {
    next == [] || id == next || Less(id, next)
  }

  /** The entries past the cursor are those from `start` on. */
  ghost predicate Begins(es: seq<Entry>, after: Id, start: nat)
  {
    && start <= |es|
    && (forall i :: 0 <= i < start ==> !Less(after, es[i].id))
    && (forall i :: start <= i < |es| ==> Less(after, es[i].id))
  }

  lemma FirstAfterBegins(es: seq<Entry>, after: Id)
    requires Ascending(IdsOf(es))
    ensures Begins(es, after, FirstAfter(es, after))
  {
    var start := FirstAfter(es, after);
    forall i | start < i < |es| ensures Less(after, es[i].id) {
      assert Less(IdsOf(es)[start], IdsOf(es)[i]);
      LessTransitive(after, es[start].id, es[i].id);
    }
  }

  lemma BeginsOnce(es: seq<Entry>, after: Id, start: nat, other: nat)
    requires Begins(es, after, start) && Begins(es, after, other)
    ensures start == other
  {
    assert start < |es| ==> Less(after, es[start].id);
    assert other < |es| ==> Less(after, es[other].id);
    hide Less;
  }

  /** The page is the roll's entries from `start` on, as many as it has, and gives the last of them as the cursor
      where there are more. */
  ghost predicate Cut(r: Roll, start: nat, p: Page)
  {
    && start + |p.entries| <= |r.entries| && p.entries == r.entries[start..start + |p.entries|]
    && (if start + |p.entries| == |r.entries| then p.next == []
        else p.entries != [] && p.next == p.entries[|p.entries| - 1].id && p.next != [])
  }

  lemma AnswersCut(r: Roll, after: Id, size: int, p: Page)
    requires Orderly(r) && Answers(r, after, size, Made(p))
    ensures Begins(r.entries, after, FirstAfter(r.entries, after)) && Cut(r, FirstAfter(r.entries, after), p)
  {
    hide FitsMessage;
    FirstAfterBegins(r.entries, after);
    var start := FirstAfter(r.entries, after);
    hide FirstAfter;
    if p.entries != [] {
      assert IdsOf(r.entries)[start + |p.entries| - 1] in IdsOf(r.entries);
    }
  }

  /** A page holds exactly the roll's entries past the cursor it was asked with and up to the one it gives. */
  lemma PageHolds(r: Roll, after: Id, start: nat, p: Page, i: nat)
    requires Orderly(r) && Begins(r.entries, after, start) && Cut(r, start, p) && i < |r.entries|
    ensures Less(after, r.entries[i].id) && UpTo(r.entries[i].id, p.next) <==> start <= i < start + |p.entries|
  {
    hide Less;
    if p.next != [] {
      var last := start + |p.entries| - 1;
      assert p.next == r.entries[last].id;
      if i < last {
        assert Less(IdsOf(r.entries)[i], IdsOf(r.entries)[last]);
      } else if i > last {
        assert Less(IdsOf(r.entries)[last], IdsOf(r.entries)[i]);
        LessAsymmetric(r.entries[last].id, r.entries[i].id);
      }
    }
  }

  /** The entries of a page ascend from past its cursor, and up to the one it gives. */
  lemma PageBetween(r: Roll, after: Id, start: nat, p: Page)
    requires Orderly(r) && Begins(r.entries, after, start) && Cut(r, start, p)
    ensures Ascending(IdsOf(p.entries))
    ensures forall e | e in p.entries :: e in r.entries && Less(after, e.id) && UpTo(e.id, p.next)
  {
    hide Less;
    forall i | 0 <= i < |p.entries|
      ensures p.entries[i] in r.entries && Less(after, p.entries[i].id) && UpTo(p.entries[i].id, p.next) {
      assert p.entries[i] == r.entries[start + i];
      PageHolds(r, after, start, p, start + i);
    }
    forall i, j | 0 <= i < j < |p.entries| ensures Less(p.entries[i].id, p.entries[j].id) {
      assert Less(IdsOf(r.entries)[start + i], IdsOf(r.entries)[start + j]);
    }
  }

  /** The first page of a walk, and the walk that goes on from it. */
  lemma FirstPage(walk: seq<Asked>, after: Id) returns (start: nat)
    requires Completed(walk, after)
    ensures walk != [] && walk[0] in walk && Orderly(walk[0].roll)
    ensures Begins(walk[0].roll.entries, after, start) && Cut(walk[0].roll, start, walk[0].page)
    ensures walk[0].page.next == [] ==> |walk| == 1
    ensures walk[0].page.next != [] ==> Completed(walk[1..], walk[0].page.next)
  {
    start := FirstAfter(walk[0].roll.entries, after);
    AnswersCut(walk[0].roll, after, walk[0].size, walk[0].page);
    hide Answers, FirstAfter;
  }

  lemma IdsOfBoth(a: seq<Entry>, b: seq<Entry>)
    ensures IdsOf(a + b) == IdsOf(a) + IdsOf(b)
  {
  }

  lemma AscendingBoth(a: seq<Entry>, b: seq<Entry>, mid: Id)
    requires Ascending(IdsOf(a)) && Ascending(IdsOf(b)) && mid != []
    requires (forall e | e in a :: UpTo(e.id, mid)) && (forall e | e in b :: Less(mid, e.id))
    ensures Ascending(IdsOf(a + b))
  {
    var ids := IdsOf(a + b);
    forall i, j | 0 <= i < j < |ids| ensures Less(ids[i], ids[j]) {
      if i < |a| <= j {
        assert a[i] in a && b[j - |a|] in b;
        if a[i].id != mid {
          LessTransitive(a[i].id, mid, b[j - |a|].id);
        }
      } else if j < |a| {
        assert Less(IdsOf(a)[i], IdsOf(a)[j]);
      } else {
        assert Less(IdsOf(b)[i - |a|], IdsOf(b)[j - |a|]);
      }
    }
  }

  /** The list ascends, past the cursor it began with, and everybody in it was in some roll it met. */
  lemma {:induction false} WalkAscends(walk: seq<Asked>, after: Id)
    requires Completed(walk, after)
    ensures Ascending(IdsOf(Listed(walk)))
    ensures forall e | e in Listed(walk) :: Less(after, e.id) && exists a :: a in walk && e in a.roll.entries
  {
    var start := FirstPage(walk, after);
    hide Cut, Less, Begins, Completed;
    var a, rest := walk[0], walk[1..];
    PageBetween(a.roll, after, start, a.page);
    if a.page.next == [] {
      assert Listed(rest) == [] && Listed(walk) == a.page.entries;
    } else {
      var mid := a.page.next;
      WalkAscends(rest, mid);
      AscendingBoth(a.page.entries, Listed(rest), mid);
      Onward(a.roll, after, start, a.page);
      forall e | e in Listed(rest) ensures Less(after, e.id) && exists b :: b in walk && e in b.roll.entries {
        LessTransitive(after, mid, e.id);
        var b :| b in rest && e in b.roll.entries;
        assert b in walk;
      }
    }
  }

  /** A cursor given is past the one asked with. */
  lemma Onward(r: Roll, after: Id, start: nat, p: Page)
    requires Orderly(r) && Begins(r.entries, after, start) && Cut(r, start, p) && p.next != []
    ensures Less(after, p.next)
  {
    assert p.next == r.entries[start + |p.entries| - 1].id;
  }

  /** A participant who was in every roll the walk met. */
  ghost predicate AlwaysThere(walk: seq<Asked>, id: Id)
  {
    forall a | a in walk :: id in IdsOf(a.roll.entries)
  }

  lemma AlwaysThereSplits(walk: seq<Asked>, id: Id) returns (i: nat)
    requires walk != [] && AlwaysThere(walk, id)
    ensures i < |walk[0].roll.entries| && walk[0].roll.entries[i].id == id && AlwaysThere(walk[1..], id)
  {
    var es := walk[0].roll.entries;
    assert walk[0] in walk;
    i :| 0 <= i < |es| && IdsOf(es)[i] == id;
  }

  /** Somebody past the cursor a page was asked with is on it, or past the cursor it gives. */
  lemma OnThisPage(r: Roll, after: Id, start: nat, p: Page, i: nat)
    requires Orderly(r) && Begins(r.entries, after, start) && Cut(r, start, p)
    requires i < |r.entries| && Less(after, r.entries[i].id)
    ensures r.entries[i].id in IdsOf(p.entries) || (p.next != [] && Less(p.next, r.entries[i].id))
  {
    PageHolds(r, after, start, p, i);
    hide Orderly, Begins, Less;
    var id := r.entries[i].id;
    if UpTo(id, p.next) {
      assert p.entries[i - start].id == id;
      assert IdsOf(p.entries)[i - start] == id;
    } else {
      LessTotal(id, p.next);
    }
  }

  lemma ListedIs(walk: seq<Asked>)
    requires walk != []
    ensures IdsOf(Listed(walk)) == IdsOf(walk[0].page.entries) + IdsOf(Listed(walk[1..]))
  {
    IdsOfBoth(walk[0].page.entries, Listed(walk[1..]));
  }

  lemma {:induction false} NobodyIsMissed(walk: seq<Asked>, after: Id, id: Id)
    requires Completed(walk, after) && Less(after, id) && AlwaysThere(walk, id)
    ensures id in IdsOf(Listed(walk))
  {
    hide *;
    var start := FirstPage(walk, after);
    var i := AlwaysThereSplits(walk, id);
    var a := walk[0];
    OnThisPage(a.roll, after, start, a.page, i);
    ListedIs(walk);
    if id !in IdsOf(a.page.entries) {
      NobodyIsMissed(walk[1..], a.page.next, id);
    }
  }

  lemma NobodyIsNameless(r: Roll, i: nat)
    requires Orderly(r) && i < |r.entries|
    ensures Less([], r.entries[i].id)
  {
    assert IdsOf(r.entries)[i] in IdsOf(r.entries);
  }

  /** Whoever comes and goes while a room is walked, nobody is listed twice, nobody is listed who was in none of the
      rolls met, and everybody who was in all of them is listed. */
  lemma AWalkListsEverybodyOnce(walk: seq<Asked>)
    requires Completed(walk, [])
    ensures Distinct(IdsOf(Listed(walk)))
    ensures forall e | e in Listed(walk) :: exists a :: a in walk && e in a.roll.entries
    ensures forall id: Id | AlwaysThere(walk, id) :: id in IdsOf(Listed(walk))
  {
    WalkAscends(walk, []);
    var ids := IdsOf(Listed(walk));
    forall i, j | 0 <= i < j < |ids| ensures ids[i] != ids[j] {
      LessIrreflexive(ids[i]);
    }
    forall id: Id | AlwaysThere(walk, id) ensures id in ids {
      var i := AlwaysThereSplits(walk, id);
      NobodyIsNameless(walk[0].roll, i);
      NobodyIsMissed(walk, [], id);
    }
  }

  // ---------------------------------------------------------------- a room that does not change

  lemma NextBegins(r: Roll, start: nat, p: Page)
    requires Orderly(r) && Cut(r, start, p) && p.next != []
    ensures Begins(r.entries, p.next, start + |p.entries|)
  {
    var end := start + |p.entries|;
    assert p.next == IdsOf(r.entries)[end - 1];
    forall i | 0 <= i < end ensures !Less(p.next, r.entries[i].id) {
      if i < end - 1 {
        assert Less(IdsOf(r.entries)[i], IdsOf(r.entries)[end - 1]);
        LessAsymmetric(r.entries[i].id, p.next);
      } else {
        LessIrreflexive(p.next);
      }
    }
    forall i | end <= i < |r.entries| ensures Less(p.next, r.entries[i].id) {
      assert Less(IdsOf(r.entries)[end - 1], IdsOf(r.entries)[i]);
    }
  }

  lemma RestOf(r: Roll, start: nat, p: Page)
    requires Cut(r, start, p)
    ensures start <= |r.entries| && start + |p.entries| <= |r.entries|
    ensures r.entries[start..] == p.entries + r.entries[start + |p.entries|..]
    ensures p.next == [] ==> p.entries == r.entries[start..]
    ensures p.next != [] ==> p.entries != [] && start + |p.entries| < |r.entries|
  {
  }

  /** Every request of the walk met the same roll. */
  ghost predicate AllMet(walk: seq<Asked>, r: Roll)
  {
    forall a | a in walk :: a.roll == r
  }

  lemma AllMetSplits(walk: seq<Asked>, r: Roll)
    requires walk != [] && AllMet(walk, r)
    ensures walk[0].roll == r && AllMet(walk[1..], r)
  {
  }

  lemma OneStep(r: Roll, walk: seq<Asked>, after: Id, start: nat)
    requires Completed(walk, after) && AllMet(walk, r) && Begins(r.entries, after, start)
    ensures walk != [] && Listed(walk) == walk[0].page.entries + Listed(walk[1..])
    ensures start <= |r.entries| && start + |walk[0].page.entries| <= |r.entries|
    ensures var p := walk[0].page;
            && r.entries[start..] == p.entries + r.entries[start + |p.entries|..]
            && (p.next == [] ==> |walk| == 1 && start + |p.entries| == |r.entries|)
            && (p.next != [] ==>
                  && |p.entries| > 0 && start + |p.entries| < |r.entries|
                  && Completed(walk[1..], p.next) && AllMet(walk[1..], r)
                  && Begins(r.entries, p.next, start + |p.entries|))
  {
    var begun := FirstPage(walk, after);
    AllMetSplits(walk, r);
    hide Less, Completed, AllMet;
    BeginsOnce(r.entries, after, start, begun);
    hide Begins;
    var p := walk[0].page;
    RestOf(r, start, p);
    if p.next != [] {
      NextBegins(r, start, p);
    }
  }

  lemma {:induction false} TheRestIsListed(r: Roll, walk: seq<Asked>, after: Id, start: nat)
    requires Completed(walk, after) && AllMet(walk, r) && Begins(r.entries, after, start)
    ensures start <= |r.entries| && Listed(walk) == r.entries[start..]
    ensures |walk| <= if start < |r.entries| then |r.entries| - start else 1
  {
    hide *;
    OneStep(r, walk, after, start);
    var p, rest := walk[0].page, walk[1..];
    if p.next == [] {
      NothingListed(rest);
    } else {
      TheRestIsListed(r, rest, p.next, start + |p.entries|);
    }
  }

  lemma NothingListed(walk: seq<Asked>)
    ensures walk == [] ==> Listed(walk) == []
  {
  }

  /** The pages of a room that does not change are, end to end, exactly its entries, and there are at most as many
      of them as entries, or one for an empty room. */
  lemma PagesOfOneRollAreItsEntries(r: Roll, walk: seq<Asked>)
    requires Completed(walk, []) && AllMet(walk, r)
    ensures Listed(walk) == r.entries
    ensures |walk| <= if r.entries == [] then 1 else |r.entries|
  {
    AllMetSplits(walk, r);
    BeginsAtTheBeginning(r.entries);
    FirstAfterBegins(r.entries, []);
    TheRestIsListed(r, walk, [], 0);
  }

  // ---------------------------------------------------------------- how long a page is

  function EntryLength(e: Entry): nat
  {
    42 + |Escaped(e.id)| + |Escaped(e.identity)| + |Escaped(e.role)|
  }

  lemma EntryTextLength(e: Entry)
    ensures |EntryText(e)| == EntryLength(e)
  {
  }

  lemma KindLength()
    ensures |Quoted(Ascii("presence.page"))| == 15
  {
    var kind := Ascii("presence.page");
    forall i | 0 <= i < |kind| ensures Plain(kind[i]) {
    }
    PlainIsWrittenAsIs(kind);
  }

  lemma PageMessageLength(p: Page)
    ensures |PageMessage(p)| == 65 + |EntriesText(p.entries)| + |Escaped(p.next)| + |Decimal.Digits(p.total)|
  {
    KindLength();
    hide Escaped, Decimal.Digits, EntriesText;
  }

  lemma OneEntry(e: Entry)
    ensures |EntriesText([e])| == EntryLength(e)
  {
    EntryTextLength(e);
    hide EntryText, EntryLength;
  }

  lemma TwoEntries(e: Entry, f: Entry)
    ensures |EntriesText([e, f])| == EntryLength(e) + 1 + EntryLength(f)
  {
    assert [e, f][1..] == [f] && |COMMA| == 1;
    EntryTextLength(e);
    OneEntry(f);
    hide EntryText, EntryLength;
  }

  /** Where every entry fits in one message together with its own identifier as the cursor. */
  ghost predicate EachFits(r: Roll)
  {
    forall e | e in r.entries ::
      EntryLength(e) + |Escaped(e.id)| + 65 + |Decimal.Digits(|r.entries|)| <= MAX_MESSAGE_BYTES
  }

  /** There no page is refused, so a walk never stops short. */
  lemma PagesAreNeverRefused(r: Roll, after: Id, size: int, a: Made<Page>)
    requires 1 <= size <= MAX_PAGE && Answers(r, after, size, a)
    requires EachFits(r)
    ensures a.Made?
  {
    hide Escaped, Decimal.Digits, EntryLength, FitsMessage;
    var start := FirstAfter(r.entries, after);
    if start < |r.entries| {
      var e, one := r.entries[start], PageOf(r, start, 1);
      assert one.entries == [e] && e in r.entries;
      PageMessageLength(one);
      OneEntry(e);
      EmptyCursor();
      AtMost(one);
      hide PageOf;
    }
  }

  lemma AtMost(p: Page)
    requires |PageMessage(p)| <= MAX_MESSAGE_BYTES
    ensures FitsMessage(p)
  {
    hide PageMessage;
  }

  lemma EmptyCursor()
    ensures |Escaped([])| == 0
  {
  }

  /** A roll of a participant under an identifier of `n` plain bytes and one more after it. */
  function TwoOf(n: nat): Roll
  {
    Roll([Entry(seq(n, _ => 97), [105], [114]), Entry([98], [105], [114])], [], 0, 1)
  }

  /** The two ways to begin a roll of two. */
  lemma PagesOfTwo(r: Roll, e: Entry, f: Entry)
    requires r.entries == [e, f]
    ensures |PageMessage(PageOf(r, 0, 1))| == 66 + EntryLength(e) + |Escaped(e.id)|
    ensures |PageMessage(PageOf(r, 0, 2))| == 67 + EntryLength(e) + EntryLength(f)
  {
    var one, two := PageOf(r, 0, 1), PageOf(r, 0, 2);
    assert one == Page([e], e.id, 2) && two == Page([e, f], [], 2);
    assert |Decimal.Digits(2)| == 1;
    EmptyCursor();
    hide Escaped, EntryLength, PageMessage, PageOf, EntriesText;
    PageMessageLength(one);
    PageMessageLength(two);
    OneEntry(e);
    TwoEntries(e, f);
  }

  lemma PlainEntry(e: Entry)
    requires forall i :: 0 <= i < |e.id| ==> Plain(e.id[i])
    requires e.identity == [105] && e.role == [114]
    ensures EntryLength(e) == 44 + |e.id| && |Escaped(e.id)| == |e.id|
  {
    PlainIsWrittenAsIs(e.id);
    PlainIsWrittenAsIs(e.identity);
    PlainIsWrittenAsIs(e.role);
    hide Escaped;
  }

  lemma TwoOfLengths(n: nat)
    ensures |PageMessage(PageOf(TwoOf(n), 0, 1))| == 2 * n + 110
    ensures |PageMessage(PageOf(TwoOf(n), 0, 2))| == n + 156
  {
    var r := TwoOf(n);
    PlainEntry(r.entries[0]);
    PlainEntry(r.entries[1]);
    hide EntryLength, Escaped, PageMessage, PageOf;
    PagesOfTwo(r, r.entries[0], r.entries[1]);
  }

  lemma TwoOfIsOrderly(n: nat)
    requires n > 0
    ensures Orderly(TwoOf(n)) && FirstAfter(TwoOf(n).entries, []) == 0
  {
    var r := TwoOf(n);
    assert r.entries[0].id[0] == 97;
    assert Less(r.entries[0].id, r.entries[1].id);
  }

  /** A page is not refused only for an entry no message could carry: with a participant identifier of any length
      from half a message on, asking for one entry is refused and asking for two is answered with both, because a
      page that reaches the end carries no cursor and one that does not carries the identifier twice. */
  lemma AskingForMoreMayFit(n: nat)
    requires 32714 <= n <= 65380
    ensures Orderly(TwoOf(n))
    ensures Answers(TwoOf(n), [], 1, Refused(TooLarge))
    ensures Answers(TwoOf(n), [], 2, Made(PageOf(TwoOf(n), 0, 2)))
    ensures PageOf(TwoOf(n), 0, 2).entries == TwoOf(n).entries
  {
    TwoOfLengths(n);
    TwoOfIsOrderly(n);
    var r := TwoOf(n);
    var one, two := PageOf(r, 0, 1), PageOf(r, 0, 2);
    assert |r.entries| == 2 && two.entries == r.entries;
    hide PageMessage, PageOf, FirstAfter, TwoOf;
    assert !FitsMessage(one) && FitsMessage(two);
    hide FitsMessage, Orderly, Answers;
    NoPrefixFits(r, [], 1, 0, 1);
    LongestPrefix(r, [], 2, 0, 2, 2);
  }

  /** How long the message of the first `k` entries from `start` on is. */
  function PageLength(r: Roll, start: nat, k: nat): nat
    requires start + k <= |r.entries|
  {
    var es := r.entries[start..start + k];
    65 + |EntriesText(es)| + |Escaped(CursorAt(es, start, |r.entries|))| + |Decimal.Digits(|r.entries|)|
  }

  lemma FitsExactlyWhen(r: Roll, start: nat, k: nat)
    requires start + k <= |r.entries|
    ensures FitsMessage(PageOf(r, start, k)) <==> PageLength(r, start, k) <= MAX_MESSAGE_BYTES
  {
    PageMessageLength(PageOf(r, start, k));
    hide PageMessage, EntriesText, Escaped, Decimal.Digits, CursorAt;
  }

  lemma RefusedAtAnySize(r: Roll, after: Id, start: nat, size: int, other: int)
    requires 1 <= size <= MAX_PAGE && 1 <= other <= MAX_PAGE && start == FirstAfter(r.entries, after)
    requires Answers(r, after, size, Refused(TooLarge))
    requires forall k | size < k <= MAX_PAGE && start + k <= |r.entries| :: !FitsMessage(PageOf(r, start, k))
    ensures Answers(r, after, other, Refused(TooLarge))
  {
    hide FirstAfter, FitsMessage, PageOf;
  }

  lemma RefusedSaysNothingFits(r: Roll, after: Id, start: nat, size: int, k: nat)
    requires 1 <= size <= MAX_PAGE && start == FirstAfter(r.entries, after)
    requires 1 <= k <= size && start + k <= |r.entries|
    requires Answers(r, after, size, Refused(TooLarge))
    ensures !FitsMessage(PageOf(r, start, k))
  {
    hide FirstAfter, FitsMessage, PageOf;
  }

  /** A refusal is one that asking for any other number of entries would meet with too, exactly when no longer run of
      entries comes to a shorter message that fits: the entries it adds, against the cursor it changes or drops. */
  lemma NoPagingWouldAnswerExactlyWhen(r: Roll, after: Id, size: int)
    requires 1 <= size <= MAX_PAGE && Answers(r, after, size, Refused(TooLarge))
    ensures var start := FirstAfter(r.entries, after);
            (forall other | 1 <= other <= MAX_PAGE :: Answers(r, after, other, Refused(TooLarge)))
            <==> forall k | size < k <= MAX_PAGE && start + k <= |r.entries| ::
                   PageLength(r, start, k) > MAX_MESSAGE_BYTES
  {
    var start := FirstAfter(r.entries, after);
    forall k | 0 <= k && start + k <= |r.entries|
      ensures FitsMessage(PageOf(r, start, k)) <==> PageLength(r, start, k) <= MAX_MESSAGE_BYTES {
      FitsExactlyWhen(r, start, k);
    }
    hide PageLength, FitsMessage, PageOf, FirstAfter, Answers;
    if forall k | size < k <= MAX_PAGE && start + k <= |r.entries| :: PageLength(r, start, k) > MAX_MESSAGE_BYTES {
      forall other | 1 <= other <= MAX_PAGE ensures Answers(r, after, other, Refused(TooLarge)) {
        RefusedAtAnySize(r, after, start, size, other);
      }
    }
    if forall other | 1 <= other <= MAX_PAGE :: Answers(r, after, other, Refused(TooLarge)) {
      forall k | size < k <= MAX_PAGE && start + k <= |r.entries| ensures PageLength(r, start, k) > MAX_MESSAGE_BYTES {
        RefusedSaysNothingFits(r, after, start, k, k);
      }
    }
  }

  // ---------------------------------------------------------------- a walk finishes

  /** A walk that has not finished: each page asked for with the cursor of the one before, and every one has one. */
  ghost predicate Underway(walk: seq<Asked>, after: Id)
  {
    walk == []
    || (&& Orderly(walk[0].roll)
        && Answers(walk[0].roll, after, walk[0].size, Made(walk[0].page))
        && walk[0].page.next != [] && Underway(walk[1..], walk[0].page.next))
  }

  /** The cursor a walk has come to. */
  function Reached(walk: seq<Asked>, after: Id): Id
  {
    if walk == [] then after else Reached(walk[1..], walk[0].page.next)
  }

  /** Every answer a walk goes on from leaves fewer entries. */
  lemma GoesOn(r: Roll, after: Id, start: nat, size: int, p: Page)
    requires Orderly(r) && Begins(r.entries, after, start) && Answers(r, after, size, Made(p)) && p.next != []
    ensures start < start + |p.entries| < |r.entries| && Begins(r.entries, p.next, start + |p.entries|)
  {
    hide Less;
    AnswersCut(r, after, size, p);
    hide Answers;
    BeginsOnce(r.entries, after, start, FirstAfter(r.entries, after));
    hide Begins, Orderly;
    RestOf(r, start, p);
    hide Cut;
    NextBegins(r, start, p);
  }

  /** A walk of a room that does not change has had fewer pages than there were entries to come. */
  lemma {:induction false} UnderwayIsShort(r: Roll, walk: seq<Asked>, after: Id, start: nat)
    requires Orderly(r) && Begins(r.entries, after, start) && Underway(walk, after) && AllMet(walk, r)
    ensures walk != [] ==> |walk| < |r.entries| - start
  {
    hide Orderly, Begins, Answers, AllMet;
    if walk != [] {
      AllMetSplits(walk, r);
      var p := walk[0].page;
      GoesOn(r, after, start, walk[0].size, p);
      UnderwayIsShort(r, walk[1..], p.next, start + |p.entries|);
    }
  }

  /** The longest run of entries that fits, or none. */
  lemma {:induction false} Longest(r: Roll, start: nat, most: nat) returns (k: nat)
    requires start + most <= |r.entries|
    ensures k <= most && (k > 0 ==> FitsMessage(PageOf(r, start, k)))
    ensures forall j | k < j <= most :: !FitsMessage(PageOf(r, start, j))
  {
    hide FitsMessage, PageOf;
    k := most;
    if most > 0 && !FitsMessage(PageOf(r, start, most)) {
      k := Longest(r, start, most - 1);
    }
  }

  lemma AnAnswer(r: Roll, after: Id, size: int) returns (a: Made<Page>)
    requires 1 <= size <= MAX_PAGE
    ensures Answers(r, after, size, a) && (a.Refused? ==> a.why == TooLarge)
  {
    var start := FirstAfter(r.entries, after);
    var most := if start + size > |r.entries| then |r.entries| - start else size;
    hide FirstAfter, Answers, FitsMessage;
    var k := Longest(r, start, most);
    if k == 0 && most > 0 {
      NoPrefixFits(r, after, size, start, most);
      a := Refused(TooLarge);
    } else {
      LongestPrefix(r, after, size, start, most, k);
      a := Made(PageOf(r, start, k));
    }
  }

  /** Where a walk stops: its last page has no cursor, or the next is refused, whatever is asked for next. */
  ghost predicate Stops(walk: seq<Asked>, after: Id, r: Roll, size: int)
  {
    Completed(walk, after) || (Underway(walk, after) && Answers(r, Reached(walk, after), size, Refused(TooLarge)))
  }

  lemma StopsOneOn(a: Asked, walk: seq<Asked>, after: Id, r: Roll, size: int)
    requires Orderly(a.roll) && Answers(a.roll, after, a.size, Made(a.page)) && a.page.next != []
    requires Stops(walk, a.page.next, r, size)
    ensures Stops([a] + walk, after, r, size)
    ensures Completed(walk, a.page.next) ==> Completed([a] + walk, after)
  {
    hide Orderly, Answers;
    var all := [a] + walk;
    assert all[0] == a && all[1..] == walk;
  }

  lemma StopsHere(a: Asked, after: Id, r: Roll, size: int)
    requires Orderly(a.roll) && Answers(a.roll, after, a.size, Made(a.page)) && a.page.next == []
    ensures Completed([a], after) && Stops([a], after, r, size)
  {
    hide Orderly, Answers;
  }

  /** From any cursor a walk can be taken to its end, whatever is asked for each time. */
  lemma {:induction false} AWalkFrom(r: Roll, after: Id, start: nat, sizes: nat -> int)
    returns (walk: seq<Asked>)
    requires Orderly(r) && Begins(r.entries, after, start) && forall i :: 1 <= sizes(i) <= MAX_PAGE
    ensures AllMet(walk, r) && (forall i | 0 <= i < |walk| :: walk[i].size == sizes(i))
    ensures Stops(walk, after, r, sizes(|walk|))
    decreases if start <= |r.entries| then |r.entries| - start else 0
  {
    hide Orderly, Begins, Answers, Completed, Underway;
    var size := sizes(0);
    var answer := AnAnswer(r, after, size);
    if answer.Refused? {
      walk := [];
      NothingYet(after);
    } else {
      var a := Asked(r, size, answer.value);
      walk := [a];
      if a.page.next == [] {
        StopsHere(a, after, r, sizes(1));
      } else {
        GoesOn(r, after, start, size, a.page);
        var rest := AWalkFrom(r, a.page.next, start + |a.page.entries|, (i: nat) => sizes(i + 1));
        walk := [a] + rest;
        StopsOneOn(a, rest, after, r, sizes(|walk|));
      }
    }
  }

  lemma NothingYet(after: Id)
    ensures Underway([], after) && Reached([], after) == after
  {
  }

  lemma UnderwaySplits(walk: seq<Asked>, after: Id)
    requires walk != [] && Underway(walk, after)
    ensures Orderly(walk[0].roll) && Answers(walk[0].roll, after, walk[0].size, Made(walk[0].page))
    ensures walk[0].page.next != [] && Underway(walk[1..], walk[0].page.next)
  {
    hide Orderly, Answers;
  }

  /** Wherever a walk has come to, it can be taken on to its end. */
  lemma {:induction false} OnToTheEnd(r: Roll, begun: seq<Asked>, after: Id, start: nat, sizes: nat -> int)
    returns (rest: seq<Asked>)
    requires Orderly(r) && Begins(r.entries, after, start) && forall i :: 1 <= sizes(i) <= MAX_PAGE
    requires Underway(begun, after) && AllMet(begun, r)
    ensures AllMet(begun + rest, r) && (forall i | 0 <= i < |rest| :: rest[i].size == sizes(i))
    ensures Stops(begun + rest, after, r, sizes(|rest|))
  {
    hide Orderly, Begins, Answers, Completed, Underway, Stops;
    if begun == [] {
      rest := AWalkFrom(r, after, start, sizes);
      assert begun + rest == rest;
    } else {
      UnderwaySplits(begun, after);
      AllMetSplits(begun, r);
      var a := begun[0];
      assert a.roll == r;
      GoesOn(r, after, start, a.size, a.page);
      rest := OnToTheEnd(r, begun[1..], a.page.next, start + |a.page.entries|, sizes);
      StopsOneOn(a, begun[1..] + rest, after, r, sizes(|rest|));
      assert begun + rest == [a] + (begun[1..] + rest);
    }
  }

  /** A walk of a room that does not change finishes. Wherever it has come to, and whatever it asks for from there,
      it comes to a page without a cursor, or to an entry no message can carry: in all in at most as many pages as
      there are entries, or one for an empty room, which are then end to end those entries. Where every entry fits,
      it is not refused. */
  lemma EveryWalkFinishes(r: Roll, begun: seq<Asked>, sizes: nat -> int) returns (rest: seq<Asked>)
    requires Orderly(r) && forall i :: 1 <= sizes(i) <= MAX_PAGE
    requires Underway(begun, []) && AllMet(begun, r)
    ensures AllMet(begun + rest, r) && (forall i | 0 <= i < |rest| :: rest[i].size == sizes(i))
    ensures |begun + rest| <= if r.entries == [] then 1 else |r.entries|
    ensures || (Completed(begun + rest, []) && Listed(begun + rest) == r.entries)
            || (&& Underway(begun + rest, [])
                && Answers(r, Reached(begun + rest, []), sizes(|rest|), Refused(TooLarge)))
    ensures EachFits(r) ==> Completed(begun + rest, [])
  {
    BeginsAtTheBeginning(r.entries);
    FirstAfterBegins(r.entries, []);
    hide Orderly, Begins, Answers, Completed, Underway;
    rest := OnToTheEnd(r, begun, [], 0, sizes);
    var walk := begun + rest;
    if Completed(walk, []) {
      PagesOfOneRollAreItsEntries(r, walk);
    } else {
      UnderwayIsShort(r, walk, [], 0);
      if EachFits(r) {
        PagesAreNeverRefused(r, Reached(walk, []), sizes(|rest|), Refused(TooLarge));
      }
    }
  }
}
