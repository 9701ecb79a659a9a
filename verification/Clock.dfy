/** The clock the tests move: `internal/clock/test.go`.

    A channel is the number of the wait it was made for, and what has been put on
    the channels is kept as one log, in the order the sends happened. */
module TestClock {
  import opened Sorting

  /** One wait: the instant it is due, and the channel that instant is put on. The same pair is what a
      delivery leaves in the log. */
  datatype Waiter = Waiter(due: int, ch: nat)

  datatype Clock = Clock(now: int, waiting: seq<Waiter>, sent: seq<Waiter>, made: nat)

  predicate EarlierDue(a: Waiter, b: Waiter)
  {
    a.due < b.due
  }

  /** The waits that have come due at `t`, and those that have not, each in registration order. */
  function DueBy(ws: seq<Waiter>, t: int): seq<Waiter>
  {
    if ws == [] then []
    else (if ws[0].due <= t then [ws[0]] else []) + DueBy(ws[1..], t)
  }

  function DueAfter(ws: seq<Waiter>, t: int): seq<Waiter>
  {
    if ws == [] then []
    else (if ws[0].due > t then [ws[0]] else []) + DueAfter(ws[1..], t)
  }

  function New(start: int): Clock
  {
    Clock(start, [], [], 0)
  }

  function AfterOf(c: Clock, d: int): Clock
  {
    if c.now + d <= c.now then c.(sent := c.sent + [Waiter(c.now, c.made)], made := c.made + 1)
    else c.(waiting := c.waiting + [Waiter(c.now + d, c.made)], made := c.made + 1)
  }

  function AdvanceOf(c: Clock, d: nat): Clock
  {
    Clock(c.now + d, DueAfter(c.waiting, c.now + d),
          c.sent + Sort(DueBy(c.waiting, c.now + d), EarlierDue), c.made)
  }

  // ---------------------------------------------------------------- the clock as the source writes it

  class Test {
    var now: int
    var waiting: array<Waiter>
    var held: nat
    var sent: seq<Waiter>
    var made: nat

    ghost predicate Valid()
      reads this
    {
      held <= waiting.Length
    }

    ghost function View(): Clock
      reads this, waiting
      requires Valid()
    {
      Clock(now, waiting[..held], sent, made)
    }

    constructor (start: int)
      ensures Valid() && fresh(waiting) && View() == New(start)
    {
      now, waiting, held, sent, made := start, new Waiter[0], 0, [], 0;
    }

    /** A wait of `d` from now: kept until it is due, or delivered at once if that is already so. */
    method After(d: int) returns (ch: nat)
      requires Valid()
      modifies this, waiting
      ensures Valid() && (waiting == old(waiting) || fresh(waiting))
      ensures ch == old(made) && View() == AfterOf(old(View()), d)
    {
      ch := made;
      made := made + 1;
      var due := now + d;
      if due <= now {
        sent := sent + [Waiter(now, ch)];
        return;
      }
      if held == waiting.Length {
        var more := new Waiter[2 * held + 1];
        forall i | 0 <= i < held {
          more[i] := waiting[i];
        }
        waiting := more;
      }
      waiting[held] := Waiter(due, ch);
      held := held + 1;
    }

    /** The in-place filter: the waits that have not come due move to the front of their own array. */
    method Compact() returns (due: seq<Waiter>)
      requires Valid()
      modifies this`held, waiting
      ensures Valid()
      ensures waiting[..held] == DueAfter(old(waiting[..held]), now)
      ensures due == DueBy(old(waiting[..held]), now)
    {
      ghost var was := waiting[..held];
      due := [];
      var keep := 0;
      CompactingStarts(was, now);
      for i := 0 to held
        invariant held == old(held) <= waiting.Length && Compacting(was, now, i, waiting[..held], keep, due)
      {
        CompactOne(was, now, i, waiting[..held], keep, due);
        hide Compacting;
        var w := waiting[i];
        if w.due > now {
          ghost var cells := waiting[..held];
          waiting[keep] := w;
          assert waiting[..held] == cells[keep := w];
          keep := keep + 1;
        } else {
          due := due + [w];
        }
      }
      assert was[..held] == was && waiting[..held][..keep] == waiting[..keep];
      held := keep;
    }

    /** Moves the clock forward and delivers every wait that came due, in the order they came due.
        A negative duration panics and changes nothing. */
    method Advance(d: int) returns (panicked: bool)
      requires Valid()
      modifies this, waiting
      ensures Valid() && waiting == old(waiting)
      ensures panicked <==> d < 0
      ensures View() == if d < 0 then old(View()) else AdvanceOf(old(View()), d)
    {
      if d < 0 {
        return true;
      }
      now := now + d;
      var due := Compact();
      var ordered := Sort(due, EarlierDue);
      ghost var all := sent + ordered;
      for i := 0 to |ordered|
        invariant sent + ordered[i..] == all
        invariant waiting == old(waiting) && held <= waiting.Length
        invariant now == old(now) + d && made == old(made)
        invariant waiting[..held] == DueAfter(old(waiting[..held]), now)
      {
        assert ordered[i..] == [ordered[i]] + ordered[i + 1..];
        sent := sent + [ordered[i]];
      }
      return false;
    }
  }

  /** What the in-place filter keeps: the waits not yet looked at are where they were, those kept are at the front,
      and the others have been taken out in order. */
  ghost predicate Compacting(was: seq<Waiter>, t: int, i: nat, cells: seq<Waiter>, keep: nat, due: seq<Waiter>)
  {
    && keep <= i <= |cells| == |was| && cells[i..] == was[i..]
    && cells[..keep] == DueAfter(was[..i], t) && due == DueBy(was[..i], t)
  }

  lemma CompactingStarts(was: seq<Waiter>, t: int)
    ensures Compacting(was, t, 0, was, 0, [])
  {
  }

  lemma CompactOne(was: seq<Waiter>, t: int, i: nat, cells: seq<Waiter>, keep: nat, due: seq<Waiter>)
    requires i < |cells| && Compacting(was, t, i, cells, keep, due)
    ensures keep < |cells|
    ensures if cells[i].due > t then Compacting(was, t, i + 1, cells[keep := cells[i]], keep + 1, due)
            else Compacting(was, t, i + 1, cells, keep, due + [cells[i]])
  {
    var w := cells[i];
    assert w == cells[i..][0] == was[i..][0] && was[..i + 1] == was[..i] + [w];
    FilterSnoc(was[..i], w, t);
    hide DueAfter, DueBy;
    assert cells[i..][1..] == cells[i + 1..] && was[i..][1..] == was[i + 1..];
    assert cells[keep := w][i + 1..] == cells[i + 1..];
    assert cells[keep := w][..keep + 1] == cells[..keep] + [w];
  }

  // ---------------------------------------------------------------- advancing twice is advancing once

  lemma {:induction false} FilterSnoc(ws: seq<Waiter>, w: Waiter, t: int)
    ensures DueBy(ws + [w], t) == DueBy(ws, t) + (if w.due <= t then [w] else [])
    ensures DueAfter(ws + [w], t) == DueAfter(ws, t) + (if w.due > t then [w] else [])
  {
    if ws != [] {
      assert (ws + [w])[1..] == ws[1..] + [w];
      FilterSnoc(ws[1..], w, t);
    }
  }

  lemma {:induction false} DueByBounds(ws: seq<Waiter>, t: int)
    ensures forall w :: w in DueBy(ws, t) <==> w in ws && w.due <= t
    ensures forall w :: w in DueAfter(ws, t) <==> w in ws && w.due > t
  {
    if ws != [] {
      DueByBounds(ws[1..], t);
    }
  }

  lemma SortUnfold(w: Waiter, rest: seq<Waiter>)
    ensures Sort([w] + rest, EarlierDue) == Insert(w, Sort(rest, EarlierDue), EarlierDue)
  {
    assert ([w] + rest)[1..] == rest;
  }

  lemma FilterUnfold(ws: seq<Waiter>, t: int)
    requires ws != []
    ensures ws[0].due <= t ==> DueBy(ws, t) == [ws[0]] + DueBy(ws[1..], t) && DueAfter(ws, t) == DueAfter(ws[1..], t)
    ensures ws[0].due > t ==> DueBy(ws, t) == DueBy(ws[1..], t) && DueAfter(ws, t) == [ws[0]] + DueAfter(ws[1..], t)
  {
  }

  /** Sorting what came due by `u` is sorting what came due by `t` first and then the rest. */
  lemma {:induction false} SortSplits(ws: seq<Waiter>, t: int, u: int)
    requires t <= u
    ensures Sort(DueBy(ws, u), EarlierDue)
         == Sort(DueBy(ws, t), EarlierDue) + Sort(DueBy(DueAfter(ws, t), u), EarlierDue)
  {
    if ws != [] {
      var w, rest := ws[0], ws[1..];
      SortSplits(rest, t, u);
      FilterUnfold(ws, t);
      FilterUnfold(ws, u);
      if w.due <= t {
        SplitEarly(w, rest, t, u);
      } else {
        var later := [w] + DueAfter(rest, t);
        assert later[1..] == DueAfter(rest, t);
        FilterUnfold(later, u);
        if w.due <= u {
          SplitLate(w, rest, t, u);
        }
      }
    }
  }

  lemma SplitEarly(w: Waiter, rest: seq<Waiter>, t: int, u: int)
    requires w.due <= t <= u
    ensures var early, late := Sort(DueBy(rest, t), EarlierDue), Sort(DueBy(DueAfter(rest, t), u), EarlierDue);
            Sort(DueBy(rest, u), EarlierDue) == early + late
            ==> Sort([w] + DueBy(rest, u), EarlierDue) == Sort([w] + DueBy(rest, t), EarlierDue) + late
  {
    var early, late := Sort(DueBy(rest, t), EarlierDue), Sort(DueBy(DueAfter(rest, t), u), EarlierDue);
    SortUnfold(w, DueBy(rest, u));
    SortUnfold(w, DueBy(rest, t));
    DueByBounds(rest, t);
    DueByBounds(DueAfter(rest, t), u);
    SameElements(DueBy(DueAfter(rest, t), u), EarlierDue);
    assert late != [] ==> late[0] in late;
    InsertFront(w, early, late, EarlierDue);
  }

  lemma SplitLate(w: Waiter, rest: seq<Waiter>, t: int, u: int)
    requires t < w.due <= u
    ensures var early, late := Sort(DueBy(rest, t), EarlierDue), Sort(DueBy(DueAfter(rest, t), u), EarlierDue);
            Sort(DueBy(rest, u), EarlierDue) == early + late
            ==> Sort([w] + DueBy(rest, u), EarlierDue) == early + Sort([w] + DueBy(DueAfter(rest, t), u), EarlierDue)
  {
    var early, late := Sort(DueBy(rest, t), EarlierDue), Sort(DueBy(DueAfter(rest, t), u), EarlierDue);
    SortUnfold(w, DueBy(rest, u));
    SortUnfold(w, DueBy(DueAfter(rest, t), u));
    DueByBounds(rest, t);
    SameElements(DueBy(rest, t), EarlierDue);
    forall i | 0 <= i < |early| ensures EarlierDue(early[i], w) {
      assert early[i] in early;
    }
    InsertBack(w, early, late, EarlierDue);
  }

  lemma {:induction false} FilterTwice(ws: seq<Waiter>, t: int, u: int)
    requires t <= u
    ensures DueAfter(DueAfter(ws, t), u) == DueAfter(ws, u)
  {
    if ws != [] {
      FilterTwice(ws[1..], t, u);
      FilterUnfold(ws, t);
      FilterUnfold(ws, u);
      if ws[0].due > t {
        var later := [ws[0]] + DueAfter(ws[1..], t);
        assert later[1..] == DueAfter(ws[1..], t);
        FilterUnfold(later, u);
      }
    }
  }

  /** Moving by `a` and then by `b` leaves the clock, the waits and everything delivered, in order,
      as moving by `a + b` at once does. */
  lemma AdvanceComposes(c: Clock, a: nat, b: nat)
    ensures AdvanceOf(AdvanceOf(c, a), b) == AdvanceOf(c, a + b)
  {
    hide Sort, DueBy, DueAfter;
    var t, u := c.now + a, c.now + a + b;
    SortSplits(c.waiting, t, u);
    FilterTwice(c.waiting, t, u);
    var first, second := Sort(DueBy(c.waiting, t), EarlierDue), Sort(DueBy(DueAfter(c.waiting, t), u), EarlierDue);
    assert c.sent + (first + second) == c.sent + first + second;
  }

  // ---------------------------------------------------------------- whole runs

  datatype Op = After(d: int) | Advance(d: int)

  /** A negative Advance panics and leaves the clock as it was. */
  function Step(c: Clock, op: Op): Clock
  {
    match op
    case After(d) => AfterOf(c, d)
    case Advance(d) => if d < 0 then c else AdvanceOf(c, d)
  }

  function Run(start: int, ops: seq<Op>): Clock
  {
    if ops == [] then New(start) else Step(Run(start, ops[..|ops| - 1]), ops[|ops| - 1])
  }

  /** How far the clock has been moved. */
  function Moved(ops: seq<Op>): int
  {
    if ops == [] then 0
    else
      var op := ops[|ops| - 1];
      Moved(ops[..|ops| - 1]) + if op.Advance? && op.d >= 0 then op.d else 0
  }

  /** The clock says when it was started and how far it has been moved since, and nothing else moves it. */
  lemma {:induction false} NowIsWhatItWasMovedTo(start: int, ops: seq<Op>)
    ensures Run(start, ops).now == start + Moved(ops)
  {
    if ops != [] {
      NowIsWhatItWasMovedTo(start, ops[..|ops| - 1]);
    }
  }

  /** One call of After: when it was made and what it came due at. */
  datatype Ask = Ask(at: int, due: int) {
    /** The instant the wait is to be delivered with: when it is due, or now if that has passed. */
    function Instant(): int
    {
      if due <= at then at else due
    }
  }

  function Asks(start: int, ops: seq<Op>): seq<Ask>
  {
    if ops == [] then []
    else
      var past := ops[..|ops| - 1];
      var now := Run(start, past).now;
      match ops[|ops| - 1]
      case After(d) => Asks(start, past) + [Ask(now, now + d)]
      case Advance(_) => Asks(start, past)
  }

  /** By instant, and among equals by which was asked for first. */
  ghost predicate Settled(ws: seq<Waiter>)
  {
    forall i, j :: 0 <= i < j < |ws| ==> Sooner(ws[i], ws[j])
  }

  predicate Sooner(a: Waiter, b: Waiter)
  {
    a.due < b.due || (a.due == b.due && a.ch < b.ch)
  }

  ghost predicate Registered(ws: seq<Waiter>)
  {
    forall i, j :: 0 <= i < j < |ws| ==> ws[i].ch < ws[j].ch
  }

  ghost predicate Faithful(c: Clock, asks: seq<Ask>)
  {
    && c.made == |asks|
    && Registered(c.waiting)
    && Settled(c.sent)
    && (forall k :: 0 <= k < |asks| ==> asks[k].at <= c.now)
    && (forall w :: w in c.waiting <==> w.ch < |asks| && w.due == asks[w.ch].Instant() && w.due > c.now)
    && (forall e :: e in c.sent <==> e.ch < |asks| && e.due == asks[e.ch].Instant() && e.due <= c.now)
  }

  lemma {:induction false} FilterRegistered(ws: seq<Waiter>, t: int)
    requires Registered(ws)
    ensures Registered(DueBy(ws, t)) && Registered(DueAfter(ws, t))
  {
    if ws != [] {
      FilterRegistered(ws[1..], t);
      FilterUnfold(ws, t);
      hide DueBy, DueAfter;
      DueByBounds(ws[1..], t);
      assert forall w | w in ws[1..] :: ws[0].ch < w.ch;
      RegisteredFirst(ws[0], DueBy(ws[1..], t));
      RegisteredFirst(ws[0], DueAfter(ws[1..], t));
    }
  }

  lemma RegisteredFirst(w: Waiter, ws: seq<Waiter>)
    requires Registered(ws) && forall v | v in ws :: w.ch < v.ch
    ensures Registered([w] + ws)
  {
  }

  /** A stable sort by due instant leaves ties in registration order. */
  lemma {:induction false} SortKeepsTies(ws: seq<Waiter>)
    requires Registered(ws)
    ensures Settled(Sort(ws, EarlierDue))
  {
    if ws != [] {
      SortKeepsTies(ws[1..]);
      SameElements(ws[1..], EarlierDue);
      var rest := Sort(ws[1..], EarlierDue);
      forall i | 0 <= i < |rest| ensures ws[0].ch < rest[i].ch {
        assert rest[i] in rest;
      }
      InsertKeepsTies(ws[0], rest);
    }
  }

  lemma {:induction false} InsertKeepsTies(w: Waiter, xs: seq<Waiter>)
    requires Settled(xs) && forall i | 0 <= i < |xs| :: w.ch < xs[i].ch
    ensures Settled(Insert(w, xs, EarlierDue))
  {
    if xs != [] && EarlierDue(xs[0], w) {
      InsertKeepsTies(w, xs[1..]);
      InsertElements(w, xs[1..], EarlierDue);
      var rest := Insert(w, xs[1..], EarlierDue);
      forall i | 0 <= i < |rest|
        ensures Sooner(xs[0], rest[i])
      {
        assert rest[i] in rest;
      }
    }
  }

  lemma BatchElements(c: Clock, t: int)
    ensures forall w :: w in Sort(DueBy(c.waiting, t), EarlierDue) <==> w in c.waiting && w.due <= t
  {
    SameElements(DueBy(c.waiting, t), EarlierDue);
    DueByBounds(c.waiting, t);
  }

  lemma AdvanceInOrder(c: Clock, asks: seq<Ask>, d: nat)
    requires Faithful(c, asks)
    ensures Settled(AdvanceOf(c, d).sent)
  {
    hide Sort, DueBy, DueAfter;
    var t := c.now + d;
    FilterRegistered(c.waiting, t);
    SortKeepsTies(DueBy(c.waiting, t));
    BatchElements(c, t);
    var batch := Sort(DueBy(c.waiting, t), EarlierDue);
    forall i, j | 0 <= i < |c.sent| && 0 <= j < |batch| ensures Sooner(c.sent[i], batch[j]) {
      assert c.sent[i] in c.sent && batch[j] in batch;
    }
  }

  lemma AdvanceFaithful(c: Clock, asks: seq<Ask>, d: nat)
    requires Faithful(c, asks)
    ensures Faithful(AdvanceOf(c, d), asks)
  {
    hide Sort, DueBy, DueAfter;
    var t := c.now + d;
    FilterRegistered(c.waiting, t);
    DueByBounds(c.waiting, t);
    AdvanceInOrder(c, asks, d);
    BatchElements(c, t);
  }

  lemma AfterFaithful(c: Clock, asks: seq<Ask>, d: int)
    requires Faithful(c, asks)
    ensures Faithful(AfterOf(c, d), asks + [Ask(c.now, c.now + d)])
  {
    var next := AfterOf(c, d);
    assert forall i | 0 <= i < |c.sent| :: c.sent[i] in c.sent;
    assert forall i | 0 <= i < |c.waiting| :: c.waiting[i] in c.waiting;
  }

  lemma {:induction false} RunFaithful(start: int, ops: seq<Op>)
    ensures Faithful(Run(start, ops), Asks(start, ops))
  {
    if ops != [] {
      var past := ops[..|ops| - 1];
      RunFaithful(start, past);
      match ops[|ops| - 1] {
        case After(d) => AfterFaithful(Run(start, past), Asks(start, past), d);
        case Advance(d) => if d >= 0 { AdvanceFaithful(Run(start, past), Asks(start, past), d); }
      }
    }
  }

  /** After any run, a wait has been delivered exactly when its instant has been reached: once, with that
      instant, and otherwise not at all, in which case it is still held with it. */
  lemma EveryWaitIsDeliveredOnce(start: int, ops: seq<Op>, k: nat)
    requires k < |Asks(start, ops)|
    ensures var c, ask := Run(start, ops), Asks(start, ops)[k];
            if ask.Instant() <= c.now then
              exists i :: 0 <= i < |c.sent| && c.sent[i] == Waiter(ask.Instant(), k)
                          && forall j | 0 <= j < |c.sent| :: c.sent[j].ch == k ==> j == i
            else
              && Waiter(ask.due, k) in c.waiting
              && forall j | 0 <= j < |c.sent| :: c.sent[j].ch != k
  {
    RunFaithful(start, ops);
    var c, ask := Run(start, ops), Asks(start, ops)[k];
    assert forall j | 0 <= j < |c.sent| :: c.sent[j] in c.sent;
    if ask.Instant() <= c.now {
      assert Waiter(ask.Instant(), k) in c.sent;
    } else {
      assert Waiter(ask.Instant(), k) in c.waiting;
    }
  }

  /** Over a whole run the sends are in order of their instants, ties in registration order, and none
      carries an instant later than the clock. */
  lemma DeliveriesAreInOrder(start: int, ops: seq<Op>)
    ensures Settled(Run(start, ops).sent)
    ensures forall i | 0 <= i < |Run(start, ops).sent| :: Run(start, ops).sent[i].due <= Run(start, ops).now
  {
    RunFaithful(start, ops);
    assert forall i | 0 <= i < |Run(start, ops).sent| :: Run(start, ops).sent[i] in Run(start, ops).sent;
  }
}
