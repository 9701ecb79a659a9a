/** How changes are gathered into summaries: the second half of `internal/presence/presence.go`. Instants and windows
    are nanoseconds. */
module Emitter {

  const REVISIONS := 0x1_0000_0000_0000_0000

  /** `sent` is whether anything has been taken yet, `last` when. */
  datatype State = State(window: int, last: int, sent: bool, pending: bool, revision: nat)

  datatype Taken = Taken(revision: nat, due: bool)

  datatype Waiting = Waiting(left: int, pending: bool)

  predicate Due(s: State, now: int)
  {
    s.pending && (s.sent ==> now - s.last >= s.window)
  }

  function TakeOf(s: State, now: int): (State, Taken)
  {
    if !Due(s, now) then (s, Taken(s.revision, false))
    else
      var next := (s.revision + 1) % REVISIONS;
      (State(s.window, now, true, false, next), Taken(next, true))
  }

  function WaitOf(s: State, now: int): Waiting
  {
    if !s.pending then Waiting(0, false)
    else if !s.sent || s.window - (now - s.last) < 0 then Waiting(0, true)
    else Waiting(s.window - (now - s.last), true)
  }

  class Emitter {
    const window: int
    var last: int
    var sent: bool
    var pending: bool
    var revision: nat

    ghost function View(): State
      reads this
    {
      State(window, last, sent, pending, revision)
    }

    constructor (window: int)
      requires window > 0
      ensures View() == State(window, 0, false, false, 0)
    {
      this.window, last, sent, pending, revision := window, 0, false, false, 0;
    }

    method Note()
      modifies this`pending
      ensures View() == old(View()).(pending := true)
    {
      pending := true;
    }

    method Take(now: int) returns (taken: Taken)
      modifies this
      ensures (View(), taken) == TakeOf(old(View()), now)
    {
      if !pending {
        return Taken(revision, false);
      }
      if sent && now - last < window {
        return Taken(revision, false);
      }
      pending, sent, last := false, true, now;
      revision := (revision + 1) % REVISIONS;
      return Taken(revision, true);
    }

    method Wait(now: int) returns (w: Waiting)
      ensures w == WaitOf(View(), now)
    {
      if !pending {
        return Waiting(0, false);
      }
      if !sent {
        return Waiting(0, true);
      }
      var left := window - (now - last);
      if left < 0 {
        left := 0;
      }
      return Waiting(left, true);
    }
  }

  /** A window that is not positive is refused rather than taken for a setting. */
  method NewEmitter(window: int) returns (e: Emitter?)
    ensures e != null <==> window > 0
    ensures e != null ==> fresh(e) && e.View() == State(window, 0, false, false, 0)
  {
    if window <= 0 {
      return null;
    }
    e := new Emitter(window);
  }

  // ---------------------------------------------------------------- whole runs

  datatype Op = Note | Take(now: int)

  function Apply(s: State, op: Op): State
  {
    match op
    case Note => s.(pending := true)
    case Take(now) => TakeOf(s, now).0
  }

  function Run(window: int, ops: seq<Op>): State
  {
    if ops == [] then State(window, 0, false, false, 0) else Apply(Run(window, ops[..|ops| - 1]), ops[|ops| - 1])
  }

  /** The take at `i` yielded a summary. */
  predicate DueAt(window: int, ops: seq<Op>, i: nat)
    requires i < |ops|
  {
    ops[i].Take? && Due(Run(window, ops[..i]), ops[i].now)
  }

  /** When the summaries were taken, in order. */
  function Times(window: int, ops: seq<Op>): seq<int>
  {
    if ops == [] then []
    else
      var past, op := ops[..|ops| - 1], ops[|ops| - 1];
      Times(window, past) + if op.Take? && Due(Run(window, past), op.now) then [op.now] else []
  }

  /** What a run keeps: the state remembers the last summary and how many there were, and no two are closer than
      the window. */
  lemma {:induction false} RunKeeps(window: int, ops: seq<Op>)
    ensures var s, ts := Run(window, ops), Times(window, ops);
            && s.window == window && s.sent == (ts != []) && (ts != [] ==> s.last == ts[|ts| - 1])
            && s.revision == |ts| % REVISIONS
            && forall i :: 0 < i < |ts| ==> ts[i - 1] + window <= ts[i]
  {
    if ops != [] {
      var past, op := ops[..|ops| - 1], ops[|ops| - 1];
      RunKeeps(window, past);
      var n := |Times(window, past)|;
      Counting(n);
    }
  }

  lemma Counting(n: nat)
    ensures (n % REVISIONS + 1) % REVISIONS == (n + 1) % REVISIONS
  {
  }

  lemma {:induction false} Spaced(ts: seq<int>, window: int, i: nat, j: nat)
    requires forall k :: 0 < k < |ts| ==> ts[k - 1] + window <= ts[k]
    requires i <= j < |ts|
    ensures ts[i] + (j - i) * window <= ts[j]
  {
    if i < j {
      Spaced(ts, window, i, j - 1);
      assert ts[j - 1] + window <= ts[j];
      assert (j - i) * window == (j - 1 - i) * window + window;
    }
  }

  /** However many changes arrive and however often summaries are asked for, `n` summaries take at least `n - 1`
      windows from the first to the last, and the revision says how many there were. No order among the readings of
      the clock is assumed. */
  lemma TrafficIsBoundedByTime(window: int, ops: seq<Op>)
    ensures var ts := Times(window, ops);
            ts != [] ==> (|ts| - 1) * window <= ts[|ts| - 1] - ts[0]
    ensures Run(window, ops).revision == |Times(window, ops)| % REVISIONS
  {
    RunKeeps(window, ops);
    var ts := Times(window, ops);
    if ts != [] {
      Spaced(ts, window, 0, |ts| - 1);
    }
  }

  /** A change is waiting exactly when one was noted and no summary was taken since: none is lost and none is sent
      for nothing. */
  lemma {:induction false} PendingExactly(window: int, ops: seq<Op>)
    ensures Run(window, ops).pending <==>
              exists i :: 0 <= i < |ops| && ops[i].Note? && forall j | i < j < |ops| :: !DueAt(window, ops, j)
  {
    if ops == [] {
      return;
    }
    var past, op := ops[..|ops| - 1], ops[|ops| - 1];
    var n := |past|;
    PendingExactly(window, past);
    hide Run;
    forall j | 0 <= j < n ensures DueAt(window, ops, j) == DueAt(window, past, j) {
      assert ops[..j] == past[..j];
    }
    PendingStep(window, past, op);
    assert ops == past + [op];
    if i :| 0 <= i < n && past[i].Note? && forall j | i < j < n :: !DueAt(window, past, j) {
      assert !DueAt(window, ops, n) ==> ops[i].Note? && forall j | i < j < |ops| :: !DueAt(window, ops, j);
    }
    if i :| 0 <= i < |ops| && ops[i].Note? && forall j | i < j < |ops| :: !DueAt(window, ops, j) {
      assert i < n ==> past[i].Note? && forall j | i < j < n :: !DueAt(window, past, j);
    }
  }

  lemma PendingStep(window: int, past: seq<Op>, op: Op)
    ensures var ops := past + [op];
            Run(window, ops).pending <==> op.Note? || (Run(window, past).pending && !DueAt(window, ops, |past|))
  {
    assert (past + [op])[..|past|] == past;
  }

  /** The takes in it are all made from `now` on and before `until`. */
  ghost predicate Within(ops: seq<Op>, now: int, until: int)
  {
    forall i | 0 <= i < |ops| && ops[i].Take? :: now <= ops[i].now < until
  }

  lemma Waited(s: State, now: int, later: int)
    requires s.pending && now <= later
    ensures WaitOf(s, now).pending && WaitOf(s, now).left >= 0
    ensures Due(s, later) <==> now + WaitOf(s, now).left <= later
  {
  }

  /** When a wait is answered with a time, then whatever is noted and however often a summary is asked for within
      it, none is due; and one is due at every moment from its end on. */
  lemma {:induction false} WaitsAreExact(window: int, ops: seq<Op>, more: seq<Op>, now: int, later: int)
    requires Run(window, ops).pending && Within(more, now, now + WaitOf(Run(window, ops), now).left) && now <= later
    ensures Run(window, ops + more) == Run(window, ops)
    ensures Due(Run(window, ops + more), later) <==> now + WaitOf(Run(window, ops), now).left <= later
  {
    Waited(Run(window, ops), now, later);
    if more == [] {
      assert ops + more == ops;
    } else {
      var past, op := more[..|more| - 1], more[|more| - 1];
      WaitsAreExact(window, ops, past, now, later);
      assert (ops + more)[..|ops + more| - 1] == ops + past;
      if op.Take? {
        Waited(Run(window, ops), now, op.now);
      }
    }
  }

  /** What the take at `i` is answered. */
  function AnswerAt(window: int, ops: seq<Op>, i: nat): Taken
    requires i < |ops| && ops[i].Take?
  {
    TakeOf(Run(window, ops[..i]), ops[i].now).1
  }

  lemma TimesGrow(window: int, ops: seq<Op>, i: nat)
    requires i < |ops|
    ensures Times(window, ops[..i + 1]) == Times(window, ops[..i]) + if DueAt(window, ops, i) then [ops[i].now] else []
  {
    assert ops[..i + 1][..i] == ops[..i];
    hide Due, Run;
  }

  /** The `n`th summary goes out as revision `n`, and a take that yields none is answered with how many there have
      been. One is yielded exactly when something was noted since the last and that was a window ago or longer, or
      there was none. */
  lemma TakesAreAnsweredExactly(window: int, ops: seq<Op>, i: nat)
    requires i < |ops| && ops[i].Take?
    ensures var before, all := Times(window, ops[..i]), Times(window, ops[..i + 1]);
            && AnswerAt(window, ops, i) == Taken(|all| % REVISIONS, all != before)
            && (all != before <==>
                  && (exists j :: 0 <= j < i && ops[j].Note? && forall m | j < m < i :: !DueAt(window, ops, m))
                  && (before == [] || before[|before| - 1] + window <= ops[i].now))
  {
    var past := ops[..i];
    TimesGrow(window, ops, i);
    RunKeeps(window, past);
    Counting(|Times(window, past)|);
    PendingExactly(window, past);
    hide Run, Times;
    forall m | 0 <= m < i ensures DueAt(window, past, m) == DueAt(window, ops, m) && past[m] == ops[m] {
      assert past[..m] == ops[..m];
    }
    hide DueAt;
    assert |past| == i;
  }

  /** A wait is answered exactly when a change is waiting, and never with a time that has passed. */
  lemma WaitsAreAnsweredExactlyWhen(window: int, ops: seq<Op>, now: int)
    ensures var w := WaitOf(Run(window, ops), now);
            && (w.pending <==>
                  exists i :: 0 <= i < |ops| && ops[i].Note? && forall j | i < j < |ops| :: !DueAt(window, ops, j))
            && w.left >= 0 && (w.left > 0 ==> w.pending)
  {
    PendingExactly(window, ops);
    hide Run, DueAt;
  }
}
