/** The streams a unit tells of losses over: the fault streams of `internal/mediafake/mediafake.go`. */
module FaultStreams {
  import opened Histories
  import opened Ids

  const STREAM_BUFFER := 64

  datatype Fault = UnitGone | ConferenceGone(c: Id) | ParticipantGone(c: Id, p: Id) | LinkGone(c: Id, link: Bytes)

  /** What a reader has still to read, whether the stream has ended, and whether it broke rather than was stopped. */
  datatype Stream = Stream(queue: seq<Fault>, closed: bool, broken: bool)

  /** Every stream ever opened, and the numbers of those the unit delivers to. */
  datatype State = State(alive: bool, streams: seq<Stream>, open: seq<nat>)

  function Broken(s: Stream): Stream
  {
    if s.closed then s else s.(closed := true, broken := true)
  }

  function Delivered(s: Stream, f: Fault): Stream
  {
    if s.closed then s else if |s.queue| < STREAM_BUFFER then s.(queue := s.queue + [f]) else Broken(s)
  }

  /** Those of a list whose streams are open. */
  function Still(streams: seq<Stream>, open: seq<nat>): seq<nat>
  {
    if open == [] then []
    else
      var k := open[|open| - 1];
      Still(streams, open[..|open| - 1]) + if k < |streams| && !streams[k].closed then [k] else []
  }

  function OpenOf(s: State): (State, bool)
  {
    if !s.alive then (s, false)
    else (s.(streams := s.streams + [Stream([], false, false)], open := s.open + [|s.streams|]), true)
  }

  function FailOf(s: State, f: Fault): State
  {
    var after := seq(|s.streams|, k requires 0 <= k < |s.streams| =>
                       if k in s.open then Delivered(s.streams[k], f) else s.streams[k]);
    State(s.alive, after, Still(after, s.open))
  }

  function DieOf(s: State): State
  {
    State(false,
          seq(|s.streams|, k requires 0 <= k < |s.streams| =>
                if k in s.open then Broken(s.streams[k]) else s.streams[k]),
          [])
  }

  function StopOf(s: State, k: nat): State
  {
    if k < |s.streams| then s.(streams := s.streams[k := s.streams[k].(closed := true)]) else s
  }

  /** A reader takes the next notice, if there is one. */
  function ReadOf(s: State, k: nat): (State, seq<Fault>)
  {
    if k < |s.streams| && s.streams[k].queue != [] then
      (s.(streams := s.streams[k := s.streams[k].(queue := s.streams[k].queue[1..])]), s.streams[k].queue[..1])
    else (s, [])
  }

  /** The unit delivers to streams that exist, to each once, and to every one that has not ended. */
  ghost predicate Sound(s: State)
  {
    && (forall i, j :: 0 <= i < j < |s.open| ==> s.open[i] != s.open[j])
    && (forall k :: k in s.open ==> k < |s.streams|)
    && (forall k :: 0 <= k < |s.streams| && !s.streams[k].closed ==> k in s.open)
    && (forall k :: 0 <= k < |s.streams| ==>
          |s.streams[k].queue| <= STREAM_BUFFER && (s.streams[k].broken ==> s.streams[k].closed))
  }

  class Unit {
    var alive: bool
    var streams: seq<Stream>
    var open: seq<nat>

    ghost function View(): State
      reads this
    {
      State(alive, streams, open)
    }

    ghost predicate Valid()
      reads this
    {
      Sound(View())
    }

    constructor ()
      ensures Valid() && View() == State(true, [], [])
    {
      alive, streams, open := true, [], [];
    }

    method ReportFaults() returns (given: bool)
      requires Valid()
      modifies this
      ensures Valid() && (View(), given) == OpenOf(old(View()))
    {
      given := alive;
      OpenKeeps(View());
      if alive {
        streams := streams + [Stream([], false, false)];
        open := open + [|streams| - 1];
      }
    }

    method Fail(f: Fault)
      requires Valid()
      modifies this
      ensures Valid() && View() == FailOf(old(View()), f)
    {
      ghost var was := View();
      FailStarts(was, f);
      streams, open := DeliverAll(was, f, streams, open);
      hide Sound, FailOf;
    }

    /** Delivers to every open stream, and keeps at the front of the same list those still open. */
    static method DeliverAll(ghost was: State, f: Fault, streams: seq<Stream>, open: seq<nat>)
        returns (all: seq<Stream>, keep: seq<nat>)
      requires Sound(was) && streams == was.streams && open == was.open
      ensures all == FailOf(was, f).streams && keep == FailOf(was, f).open
    {
      hide *;
      DeliveryStarts(was, f);
      all, keep := streams, open;
      var kept := 0;
      for i := 0 to |open|
        invariant Delivering(was, f, i, all, keep, kept)
      {
        DeliverStep(was, f, i, all, keep, kept);
        var k := keep[i];
        all := all[k := Delivered(all[k], f)];
        if !all[k].closed {
          keep := keep[kept := k];
          kept := kept + 1;
        }
      }
      DeliveryEnds(was, f, all, keep, kept);
      keep := keep[..kept];
    }

    method Die()
      requires Valid()
      modifies this
      ensures Valid() && View() == DieOf(old(View()))
    {
      ghost var was := View();
      alive := false;
      for i := 0 to |open|
        invariant open == was.open && |streams| == |was.streams| && !alive
        invariant forall k :: 0 <= k < |streams| ==>
                  streams[k] == if k in open[..i] then Broken(was.streams[k]) else was.streams[k]
      {
        assert open[i] in open && open[..i + 1] == open[..i] + [open[i]];
        streams := streams[open[i] := Broken(streams[open[i]])];
      }
      assert open[..|open|] == open;
      open := [];
    }

    method Stop(k: nat)
      requires Valid()
      modifies this
      ensures Valid() && View() == StopOf(old(View()), k)
    {
      if k < |streams| && !streams[k].closed {
        streams := streams[k := streams[k].(closed := true)];
      }
    }
  }

  // ---------------------------------------------------------------- whole runs

  datatype Op = Open | Fail(f: Fault) | Die | Restart | Stop(k: nat) | Read(k: nat)

  function Apply(s: State, op: Op): State
  {
    match op
    case Open => OpenOf(s).0
    case Fail(f) => FailOf(s, f)
    case Die => DieOf(s)
    case Restart => s.(alive := true)
    case Stop(k) => StopOf(s, k)
    case Read(k) => ReadOf(s, k).0
  }

  function Run(ops: seq<Op>): State
  {
    if ops == [] then State(true, [], []) else Apply(Run(ops[..|ops| - 1]), ops[|ops| - 1])
  }

  lemma {:induction false} StillElements(streams: seq<Stream>, open: seq<nat>)
    requires forall i, j :: 0 <= i < j < |open| ==> open[i] != open[j]
    ensures forall k :: k in Still(streams, open) <==> k in open && k < |streams| && !streams[k].closed
    ensures forall i, j :: 0 <= i < j < |Still(streams, open)| ==> Still(streams, open)[i] != Still(streams, open)[j]
  {
    if open != [] {
      var n := |open| - 1;
      StillElements(streams, open[..n]);
      assert open == open[..n] + [open[n]];
      assert open[n] !in open[..n];
    }
  }

  lemma KeptInPlace(was: seq<nat>, now: seq<nat>, i: nat, kept: nat)
    requires |was| == |now| && kept <= i < |now| && now[i..] == was[i..]
    ensures now[i] == was[i] && now[i + 1..] == was[i + 1..]
    ensures var next := now[kept := now[i]]; next[i + 1..] == was[i + 1..] && next[..kept + 1] == now[..kept] + [now[i]]
  {
    assert now[i..][0] == now[i] && was[i..][0] == was[i];
    assert now[i..][1..] == now[i + 1..] && was[i..][1..] == was[i + 1..];
  }

  /** The streams reached so far are as they are to be, the others as they were. */
  ghost predicate ReachedTo(was: seq<Stream>, goal: seq<Stream>, done: seq<nat>, now: seq<Stream>)
  {
    |now| == |was| == |goal| && forall k :: 0 <= k < |now| ==> now[k] == if k in done then goal[k] else was[k]
  }

  lemma FailStarts(s: State, f: Fault)
    requires Sound(s)
    ensures Sound(FailOf(s, f)) && FailOf(s, f).alive == s.alive
    ensures FailOf(s, f).open == Still(FailOf(s, f).streams, s.open)
    ensures ReachedTo(s.streams, FailOf(s, f).streams, s.open[..0], s.streams)
    ensures Still(FailOf(s, f).streams, s.open[..0]) == []
  {
    FailKeeps(s, f);
    hide Delivered, Sound;
  }

  lemma FailStep(s: State, f: Fault, i: nat, streams: seq<Stream>)
    requires Sound(s) && i < |s.open| && ReachedTo(s.streams, FailOf(s, f).streams, s.open[..i], streams)
    ensures var k, goal := s.open[i], FailOf(s, f).streams;
            && k < |streams| && |goal| == |streams| && goal[k] == Delivered(streams[k], f)
            && ReachedTo(s.streams, goal, s.open[..i + 1], streams[k := Delivered(streams[k], f)])
            && Still(goal, s.open[..i + 1]) == Still(goal, s.open[..i]) + if goal[k].closed then [] else [k]
  {
    assert s.open[i] in s.open && s.open[..i + 1][..i] == s.open[..i] && s.open[..i + 1] == s.open[..i] + [s.open[i]];
    hide Delivered;
  }

  lemma AllReached(s: State, f: Fault, streams: seq<Stream>)
    requires ReachedTo(s.streams, FailOf(s, f).streams, s.open, streams)
    ensures streams == FailOf(s, f).streams
  {
    hide Delivered, Still;
  }

  /** What the loop keeps: the streams reached so far, and those of them still open at the front of the list. */
  ghost predicate Delivering(s: State, f: Fault, i: nat, all: seq<Stream>, keep: seq<nat>, kept: nat)
  {
    && Sound(s) && kept <= i <= |keep| == |s.open| && keep[i..] == s.open[i..]
    && keep[..kept] == Still(FailOf(s, f).streams, s.open[..i])
    && ReachedTo(s.streams, FailOf(s, f).streams, s.open[..i], all)
  }

  lemma DeliveryStarts(s: State, f: Fault)
    requires Sound(s)
    ensures Delivering(s, f, 0, s.streams, s.open, 0)
  {
    FailStarts(s, f);
    hide FailOf, Still, ReachedTo, Sound;
  }

  /** One stream of the list: delivered to, and kept if it is open afterwards. */
  lemma DeliverStep(s: State, f: Fault, i: nat, all: seq<Stream>, keep: seq<nat>, kept: nat)
    requires i < |s.open| && Delivering(s, f, i, all, keep, kept)
    ensures i < |keep| && kept < |keep| && keep[i] < |all|
    ensures var k := keep[i];
            var next := all[k := Delivered(all[k], f)];
            if next[k].closed then Delivering(s, f, i + 1, next, keep, kept)
            else Delivering(s, f, i + 1, next, keep[kept := k], kept + 1)
  {
    KeptInPlace(s.open, keep, i, kept);
    FailStep(s, f, i, all);
    hide Sound, FailOf, Still, ReachedTo, Delivered;
  }

  lemma DeliveryEnds(s: State, f: Fault, all: seq<Stream>, keep: seq<nat>, kept: nat)
    requires Delivering(s, f, |s.open|, all, keep, kept)
    ensures kept <= |keep| && all == FailOf(s, f).streams && keep[..kept] == FailOf(s, f).open
  {
    assert s.open[..|s.open|] == s.open;
    AllReached(s, f, all);
    FailStarts(s, f);
    hide Sound, FailOf, Still, ReachedTo;
  }

  lemma OpenKeeps(s: State)
    requires Sound(s)
    ensures Sound(OpenOf(s).0)
  {
    assert |s.streams| !in s.open;
  }

  lemma FailKeeps(s: State, f: Fault)
    requires Sound(s)
    ensures Sound(FailOf(s, f))
  {
    StillElements(FailOf(s, f).streams, s.open);
    hide Still;
  }

  lemma ApplyKeeps(s: State, op: Op)
    requires Sound(s)
    ensures Sound(Apply(s, op)) && |s.streams| <= |Apply(s, op).streams|
    ensures forall k | 0 <= k < |s.streams| && s.streams[k].closed :: Apply(s, op).streams[k].closed
  {
    if op.Fail? {
      FailKeeps(s, op.f);
    }
    OpenKeeps(s);
    hide Still;
  }

  lemma {:induction false} RunKeeps(ops: seq<Op>)
    ensures Sound(Run(ops))
  {
    if ops != [] {
      RunKeeps(ops[..|ops| - 1]);
      ApplyKeeps(Run(ops[..|ops| - 1]), ops[|ops| - 1]);
      hide Sound, Apply;
    }
  }

  predicate Running(s: State, k: nat)
  {
    k < |s.streams| && !s.streams[k].closed
  }

  /** What was told on the unit from `from` on, in order. */
  function Told(ops: seq<Op>, from: nat): seq<Fault>
  {
    if |ops| <= from then []
    else
      var op := ops[|ops| - 1];
      Told(ops[..|ops| - 1], from) + if op.Fail? then [op.f] else []
  }

  /** What a reader has taken off a stream. */
  function Taken(ops: seq<Op>, k: nat): seq<Fault>
  {
    if ops == [] then []
    else
      var op := ops[|ops| - 1];
      Taken(ops[..|ops| - 1], k) + if op.Read? && op.k == k then ReadOf(Run(ops[..|ops| - 1]), k).1 else []
  }

  function Queue(s: State, k: nat): seq<Fault>
  {
    if k < |s.streams| then s.streams[k].queue else []
  }

  /** What a stream has been given: every notice it took. */
  lemma StreamStep(s: State, op: Op, k: nat)
    requires Sound(s)
    ensures (if op.Read? && op.k == k then ReadOf(s, k).1 else []) + Queue(Apply(s, op), k)
            == Queue(s, k) + if op.Fail? && Running(s, k) && Running(Apply(s, op), k) then [op.f] else []
    ensures Running(Apply(s, op), k) ==> Running(s, k) || (op.Open? && k == |s.streams|)
    ensures op.Open? && k == |s.streams| ==> Queue(s, k) == []
  {
    hide Still;
    if op.Read? && op.k == k && Queue(s, k) != [] {
      assert Queue(s, k) == [Queue(s, k)[0]] + Queue(s, k)[1..];
    }
  }

  /** The stream was opened by the operation at `o`. */
  predicate OpenedAt(ops: seq<Op>, o: nat, k: nat)
  {
    o < |ops| && ops[o].Open? && Run(ops[..o]).alive && |Run(ops[..o]).streams| == k
  }

  lemma {:induction false} NothingBeforeItOpens(ops: seq<Op>, k: nat)
    requires |Run(ops).streams| <= k
    ensures Taken(ops, k) == [] && Queue(Run(ops), k) == []
  {
    if ops != [] {
      RunKeeps(ops[..|ops| - 1]);
      ApplyKeeps(Run(ops[..|ops| - 1]), ops[|ops| - 1]);
      NothingBeforeItOpens(ops[..|ops| - 1], k);
      hide Sound, Apply;
    }
  }

  lemma GivenStep(past: seq<Op>, op: Op, k: nat)
    ensures Taken(past + [op], k) + Queue(Run(past + [op]), k)
            == Taken(past, k) + Queue(Run(past), k)
               + if op.Fail? && Running(Run(past), k) && Running(Run(past + [op]), k) then [op.f] else []
    ensures Running(Run(past + [op]), k) ==> Running(Run(past), k) || (op.Open? && k == |Run(past).streams|)
  {
    assert (past + [op])[..|past|] == past;
    RunKeeps(past);
    var s := Run(past);
    StreamStep(s, op, k);
    var read := if op.Read? && op.k == k then ReadOf(s, k).1 else [];
    var more := if op.Fail? && Running(s, k) && Running(Apply(s, op), k) then [op.f] else [];
    assert Taken(past + [op], k) == Taken(past, k) + read && Run(past + [op]) == Apply(s, op);
    Regroup(Taken(past, k), read, Queue(Apply(s, op), k), Queue(s, k), more);
    hide *;
  }

  lemma Regroup(t: seq<Fault>, read: seq<Fault>, after: seq<Fault>, before: seq<Fault>, more: seq<Fault>)
    requires read + after == before + more
    ensures (t + read) + after == (t + before) + more
  {
    assert (t + read) + after == t + (read + after);
    assert (t + before) + more == t + (before + more);
  }

  lemma OpenedBefore(past: seq<Op>, op: Op, o: nat, k: nat)
    requires OpenedAt(past + [op], o, k) && o < |past|
    ensures OpenedAt(past, o, k)
  {
    assert (past + [op])[..o] == past[..o];
  }

  lemma JustOpened(past: seq<Op>, op: Op, k: nat)
    requires OpenedAt(past + [op], |past|, k)
    ensures op.Open? && Taken(past, k) == [] && Queue(Run(past), k) == []
  {
    assert (past + [op])[..|past|] == past;
    NothingBeforeItOpens(past, k);
  }

  lemma ToldOnce(past: seq<Op>, op: Op, o: nat)
    requires o <= |past|
    ensures Told(past + [op], o) == Told(past, o) + if op.Fail? then [op.f] else []
    ensures o == |past| ==> Told(past, o) == []
  {
    assert (past + [op])[..|past|] == past;
  }

  /** A stream gives its reader exactly the notices told while it ran, in order and without a gap: those read and
      those waiting are a run of what the unit told since it was opened, and all of it while the stream runs. */
  lemma {:induction false} NothingIsMissedWhileItRuns(ops: seq<Op>, o: nat, k: nat)
    requires OpenedAt(ops, o, k)
    ensures Taken(ops, k) + Queue(Run(ops), k) <= Told(ops, o)
    ensures Running(Run(ops), k) ==> Taken(ops, k) + Queue(Run(ops), k) == Told(ops, o)
  {
    var past, op := ops[..|ops| - 1], ops[|ops| - 1];
    assert ops == past + [op] && o <= |past|;
    GivenStep(past, op, k);
    ToldOnce(past, op, o);
    if o == |past| {
      JustOpened(past, op, k);
      hide *;
    } else {
      OpenedBefore(past, op, o, k);
      OpenedExists(past, o, k);
      NothingIsMissedWhileItRuns(past, o, k);
      hide *;
    }
  }

  lemma {:induction false} OpenedExists(ops: seq<Op>, o: nat, k: nat)
    requires OpenedAt(ops, o, k)
    ensures k < |Run(ops).streams|
  {
    var past, op := ops[..|ops| - 1], ops[|ops| - 1];
    RunKeeps(past);
    ApplyKeeps(Run(past), op);
    if o < |past| {
      assert past[..o] == ops[..o];
      OpenedExists(past, o, k);
      hide Apply, Sound;
    }
  }

  /** What breaks a stream: its unit dying, or one notice more than a reader this far behind has room for. */
  predicate Breaks(s: State, op: Op, k: nat)
  {
    Running(s, k) && (op.Die? || (op.Fail? && |s.streams[k].queue| == STREAM_BUFFER))
  }

  lemma BreakStep(s: State, op: Op, k: nat)
    requires Sound(s)
    ensures k < |Apply(s, op).streams| && Apply(s, op).streams[k].broken <==>
              (k < |s.streams| && s.streams[k].broken) || Breaks(s, op, k)
  {
    hide Still;
  }

  lemma BreaksSomewhere(past: seq<Op>, op: Op, k: nat)
    ensures var ops := past + [op];
            (exists i :: 0 <= i < |ops| && Breaks(Run(ops[..i]), ops[i], k)) <==>
              (exists i :: 0 <= i < |past| && Breaks(Run(past[..i]), past[i], k)) || Breaks(Run(past), op, k)
  {
    hide Breaks, Run;
    var ops := past + [op];
    assert ops[..|past|] == past && ops[|past|] == op;
    if i :| 0 <= i < |past| && Breaks(Run(past[..i]), past[i], k) {
      assert ops[..i] == past[..i] && ops[i] == past[i];
    }
    if i :| 0 <= i < |ops| && Breaks(Run(ops[..i]), ops[i], k) {
      assert i < |past| ==> ops[..i] == past[..i] && ops[i] == past[i];
    }
  }

  /** A stream says it broke exactly if, while it ran, the unit died or told of more than its reader had room for; one
      that its reader stopped never does. */
  lemma {:induction false} BrokenExactlyWhen(ops: seq<Op>, k: nat)
    ensures k < |Run(ops).streams| && Run(ops).streams[k].broken <==>
              exists i :: 0 <= i < |ops| && Breaks(Run(ops[..i]), ops[i], k)
  {
    if ops != [] {
      var past, op := ops[..|ops| - 1], ops[|ops| - 1];
      BrokenExactlyWhen(past, k);
      RunKeeps(past);
      BreakStep(Run(past), op, k);
      hide Apply, Sound, Breaks;
      BreaksSomewhere(past, op, k);
      assert ops == past + [op];
    }
  }

  // ---------------------------------------------------------------- opening, reading and stopping

  /** The state after the first `k` operations. */
  function After(ops: seq<Op>, k: nat): State
  {
    if k <= |ops| then Run(ops[..k]) else Run(ops)
  }

  lemma OneOn(ops: seq<Op>, k: nat)
    requires k < |ops|
    ensures After(ops, k + 1) == Apply(After(ops, k), ops[k]) && Sound(After(ops, k))
  {
    assert ops[..k + 1][..k] == ops[..k];
    RunKeeps(ops[..k]);
    hide Apply, Sound;
  }

  function Powering(ops: seq<Op>): nat -> Maybe<bool>
  {
    (k: nat) =>
      if k < |ops| && ops[k].Die? then Just(false) else if k < |ops| && ops[k].Restart? then Just(true) else Nothing
  }

  lemma PowerOne(ops: seq<Op>, k: nat)
    requires k < |ops|
    ensures var said := Powering(ops)(k);
            After(ops, k + 1).alive == if said.Just? then said.value else After(ops, k).alive
  {
    OneOn(ops, k);
    hide After, Still, Sound;
  }

  lemma AliveAsLastPowered(ops: seq<Op>)
    ensures Run(ops).alive == Last(Powering(ops), true, |ops|)
  {
    assert ops[..|ops|] == ops && After(ops, 0).alive && After(ops, |ops|) == Run(ops);
    hide *;
    forall k: nat | k < |ops|
      ensures var said := Powering(ops)(k);
              After(ops, k + 1).alive == if said.Just? then said.value else After(ops, k).alive {
      PowerOne(ops, k);
    }
    FollowsTheLast((k: nat) => After(ops, k).alive, Powering(ops), |ops|);
  }

  /** A stream is given exactly by a unit that has not died since it last came up, and runs from then on. */
  lemma OpensExactlyWhenAlive(ops: seq<Op>)
    ensures OpenOf(Run(ops)).1 <==> Last(Powering(ops), true, |ops|)
    ensures OpenOf(Run(ops)).1 <==> Running(Run(ops + [Open]), |Run(ops).streams|)
  {
    AliveAsLastPowered(ops);
    assert (ops + [Open])[..|ops|] == ops;
    hide Last, Powering;
  }

  /** A reader that finds a notice waiting is given the first of those told since the stream was opened that it has not
      had, and one that finds none is given nothing. */
  lemma AReaderIsGivenTheNext(ops: seq<Op>, o: nat, k: nat)
    requires OpenedAt(ops, o, k)
    ensures var had, told, given := |Taken(ops, k)|, Told(ops, o), ReadOf(Run(ops), k).1;
            if Queue(Run(ops), k) == [] then given == [] else had < |told| && given == [told[had]]
  {
    NothingIsMissedWhileItRuns(ops, o, k);
    var had, waiting, told := Taken(ops, k), Queue(Run(ops), k), Told(ops, o);
    hide Run, Taken, Told, OpenedAt;
    if waiting != [] {
      assert (had + waiting)[|had|] == waiting[0] == told[|had|];
      assert waiting[..1] == [waiting[0]];
    }
  }

  /** The reader of a stream that has been opened stops it, or something breaks it. */
  predicate Finishes(ops: seq<Op>, i: nat, k: nat)
  {
    && i < |ops|
    && ((ops[i] == Stop(k) && k < |After(ops, i).streams|) || Breaks(After(ops, i), ops[i], k))
  }

  function Finishing(ops: seq<Op>, k: nat): nat -> bool
  {
    (i: nat) => Finishes(ops, i, k)
  }

  predicate Finished(s: State, k: nat)
  {
    k < |s.streams| && s.streams[k].closed
  }

  lemma FinishOne(ops: seq<Op>, i: nat, k: nat)
    requires i < |ops|
    ensures Finished(After(ops, i + 1), k) <==> Finishing(ops, k)(i) || Finished(After(ops, i), k)
  {
    OneOn(ops, i);
    hide After, Still;
  }

  /** A stream has ended exactly if its reader stopped it or it broke, and stays ended. */
  lemma EndedExactlyWhen(ops: seq<Op>, k: nat)
    ensures Finished(Run(ops), k) <==> Ever(Finishing(ops, k), |ops|)
  {
    assert ops[..|ops|] == ops && !Finished(After(ops, 0), k) && After(ops, |ops|) == Run(ops);
    hide *;
    forall i: nat | i < |ops|
      ensures Finished(After(ops, i + 1), k) <==> Finishing(ops, k)(i) || Finished(After(ops, i), k) {
      FinishOne(ops, i, k);
    }
    FollowsEver((i: nat) => Finished(After(ops, i), k), Finishing(ops, k), |ops|);
  }
}
