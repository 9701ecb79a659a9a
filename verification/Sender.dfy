/** The outbound side of one client: `internal/wire/send.go`.

    Any number of goroutines call Send and Close while one writer empties the queue, and every write runs
    on a goroutine of its own so that the writer can stop waiting for it. The protocol is a step system:
    each event below is one action that no other goroutine can divide. */
module Sender {
  import opened Ids

  type Message = Bytes

  const MAX_QUEUED: nat := 64

  /** Ten seconds, in nanoseconds. */
  const WRITE_TIMEOUT: nat := 10_000_000_000

  /** What a Sender can stop for. */
  datatype Fault = TooSlow | WriteTimedOut | ConnFailed(detail: Bytes)

  /** A reason to stop for: none for a deliberate close, or a fault. It is also what a write answers. */
  datatype Why = NoFault | Because(fault: Fault)

  /** What a call is answered with. The message of a send that was accepted is history that no step reads. */
  datatype Answer = Accepted(m: Message) | Failed(fault: Fault) | SenderClosed | Ended

  /** Where one caller is: in Send, in Close, or returned. `Finishing` is inside finish with the reason
      given, which is no fault exactly for Close. */
  datatype Caller =
    | Sending(m: Message)
    | PastCheck(m: Message)
    | Rejected
    | Finishing(why: Why)
    | AwaitingDone
    | Returned(answer: Answer)

  datatype Writer =
    | AtTop
    | AtSelect
    | Taken(m: Message, draining: bool)
    | Writing(m: Message, draining: bool, deadline: int)
    | FinishingWith(fault: Fault)
    | Recording(fault: Fault)
    | DrainStart
    | Draining
    | Leaving
    | ConnectionDone
    | Gone

  datatype Who = TheWriter | TheCaller(t: nat)

  /** The steps of the body of stopOnce, in order; `Running` names the last one taken. */
  datatype Stage = Entered | Recorded | Stopped | Closed

  datatype Once = Fresh | Running(who: Who, why: Why, stage: Stage) | Finished

  /** The argument finish was called with by whoever entered stopOnce. */
  datatype Cause = Undecided | Decided(why: Why)

  /** What stopping goes through: stopOnce, the stop channel, the reason, and the connection. `cause` and
      `atStop`, the number of messages queued when stop closed, are history that no step reads. */
  datatype Gate = Gate(once: Once, stop: bool, reason: Why, connClosed: bool, closes: nat, cause: Cause, atStop: nat)

  /** The goroutine of one write: started, inside conn.Write, or returned with its error. */
  datatype Progress = Started | InConn | Back(err: Why)

  datatype Write = Write(m: Message, at: Progress)

  /** The queue, the writes begun, and, as history, every message ever queued. */
  datatype Pipe = Pipe(queue: seq<Message>, writes: seq<Write>, enqueued: seq<Message>)

  /** How the writer came to stop writing, as history: a write that failed or timed out, with whether it
      was one of the drain's, or the drain finding the queue empty after `n` messages. */
  datatype Verdict = Pending | WriteFailed(fault: Fault, draining: bool) | Emptied(n: nat)

  datatype State = State(now: int, pipe: Pipe, gate: Gate, writer: Writer, callers: seq<Caller>, done: bool,
                         verdict: Verdict)

  function Init(): State
  {
    State(0, Pipe([], [], []), Gate(Fresh, false, NoFault, false, 0, Undecided, 0), AtTop, [], false, Pending)
  }

  datatype Event =
    | Send(m: Message) | Close
    | Check(t: nat) | Reject(t: nat) | Offer(t: nat) | AwaitDone(t: nat)
    | Finish(who: Who)
    | Look | Pick | SeeStop | Begin | Hear | TimeUp | Record | DrainCheck | DrainPick | CloseConn | CloseDone
    | EnterConn(i: nat) | ReturnConn(i: nat, err: Why)
    | Tick(d: nat)

  /** The reason `who` is calling finish with, if it is. */
  function Calling(writer: Writer, callers: seq<Caller>, who: Who): Cause
  {
    match who
    case TheWriter => if writer.FinishingWith? then Decided(Because(writer.fault)) else Undecided
    case TheCaller(t) => if t < |callers| && callers[t].Finishing? then Decided(callers[t].why) else Undecided
  }

  predicate Enabled(s: State, e: Event)
  {
    match e
    case Send(_) => true
    case Close => true
    case Check(t) => t < |s.callers| && s.callers[t].Sending?
    case Reject(t) => t < |s.callers| && s.callers[t].Rejected?
    case Offer(t) => t < |s.callers| && s.callers[t].PastCheck?
    case AwaitDone(t) => t < |s.callers| && s.callers[t].AwaitingDone? && s.done
    case Finish(who) =>
      Calling(s.writer, s.callers, who).Decided? && (s.gate.once.Running? ==> s.gate.once.who == who)
    case Look => s.writer.AtTop?
    case Pick => s.writer.AtSelect? && s.pipe.queue != []
    case SeeStop => s.writer.AtSelect? && s.gate.stop
    case Begin => s.writer.Taken?
    case Hear => s.writer.Writing? && s.pipe.writes != [] && s.pipe.writes[|s.pipe.writes| - 1].at.Back?
    case TimeUp => s.writer.Writing? && s.now >= s.writer.deadline
    case Record => s.writer.Recording?
    case DrainCheck => s.writer.DrainStart?
    case DrainPick => s.writer.Draining?
    case CloseConn => s.writer.Leaving?
    case CloseDone => s.writer.ConnectionDone?
    case EnterConn(i) => i < |s.pipe.writes| && s.pipe.writes[i].at.Started?
    case ReturnConn(i, err) =>
      i < |s.pipe.writes| && s.pipe.writes[i].at.InConn? && (err.Because? ==> err.fault.ConnFailed?)
    case Tick(_) => true
  }

  /** closeConnection: once, however many decide it is time. */
  function CloseConnection(g: Gate): Gate
  {
    if g.connClosed then g else g.(connClosed := true, closes := g.closes + 1)
  }

  /** record: the first reason is kept. */
  function RecordReason(g: Gate, why: Why): Gate
  {
    if g.reason.NoFault? then g.(reason := why) else g
  }

  /** One step of finish(why) by `who`, up to and including leaving stopOnce. `queued` is how many
      messages have been queued so far. */
  function GateStep(g: Gate, who: Who, why: Why, queued: nat): Gate
  {
    match g.once
    case Fresh => g.(once := Running(who, why, Entered), cause := Decided(why))
    case Running(_, _, Entered) => RecordReason(g, why).(once := Running(who, why, Recorded))
    case Running(_, _, Recorded) => g.(stop := true, once := Running(who, why, Stopped), atStop := queued)
    case Running(_, _, Stopped) => (if why.Because? then CloseConnection(g) else g).(once := Running(who, why, Closed))
    case Running(_, _, Closed) => g.(once := Finished)
    case Finished => g
  }

  /** What comes after finish: the writer leaves its loop, Close waits, Send returns. */
  function PastFinish(s: State, who: Who): State
    requires Calling(s.writer, s.callers, who).Decided?
  {
    match who
    case TheWriter => s.(writer := Leaving)
    case TheCaller(t) =>
      s.(callers := s.callers[t := if s.callers[t].why.NoFault? then AwaitingDone else Returned(Failed(TooSlow))])
  }

  /** What the writer does once its write has come back with `err`, or timed out. */
  function WriteOver(s: State, err: Why): State
    requires s.writer.Writing?
  {
    match err
    case NoFault => s.(writer := if s.writer.draining then Draining else AtTop)
    case Because(f) =>
      s.(writer := if s.writer.draining then Recording(f) else FinishingWith(f),
         verdict := WriteFailed(f, s.writer.draining))
  }

  function Take(s: State, draining: bool): State
    requires s.pipe.queue != []
  {
    s.(writer := Taken(s.pipe.queue[0], draining), pipe := s.pipe.(queue := s.pipe.queue[1..]))
  }

  function SetWrite(s: State, i: nat, at: Progress): State
    requires i < |s.pipe.writes|
  {
    s.(pipe := s.pipe.(writes := s.pipe.writes[i := s.pipe.writes[i].(at := at)]))
  }

  function Next(s: State, e: Event): State
    requires Enabled(s, e)
  {
    match e
    case Send(m) => s.(callers := s.callers + [Sending(m)])
    case Close => s.(callers := s.callers + [Finishing(NoFault)])
    case Check(t) => s.(callers := s.callers[t := if s.gate.stop then Rejected else PastCheck(s.callers[t].m)])
    case Reject(t) =>
      var answer := if s.gate.reason.Because? then Failed(s.gate.reason.fault) else SenderClosed;
      s.(callers := s.callers[t := Returned(answer)])
    case Offer(t) =>
      var m := s.callers[t].m;
      if |s.pipe.queue| < MAX_QUEUED then
        s.(callers := s.callers[t := Returned(Accepted(m))],
           pipe := s.pipe.(queue := s.pipe.queue + [m], enqueued := s.pipe.enqueued + [m]))
      else s.(callers := s.callers[t := Finishing(Because(TooSlow))])
    case AwaitDone(t) => s.(callers := s.callers[t := Returned(Ended)])
    case Finish(who) =>
      if s.gate.once.Finished? then PastFinish(s, who)
      else s.(gate := GateStep(s.gate, who, Calling(s.writer, s.callers, who).why, |s.pipe.enqueued|))
    case Look => s.(writer := if s.gate.stop then DrainStart else AtSelect)
    case Pick => Take(s, false)
    case SeeStop => s.(writer := DrainStart)
    case Begin =>
      s.(writer := Writing(s.writer.m, s.writer.draining, s.now + WRITE_TIMEOUT),
         pipe := s.pipe.(writes := s.pipe.writes + [Write(s.writer.m, Started)]))
    case Hear => WriteOver(s, s.pipe.writes[|s.pipe.writes| - 1].at.err)
    case TimeUp => WriteOver(s, Because(WriteTimedOut))
    case Record => s.(gate := RecordReason(s.gate, Because(s.writer.fault)), writer := Leaving)
    case DrainCheck => s.(writer := if s.gate.reason.Because? then Leaving else Draining)
    case DrainPick =>
      if s.pipe.queue != [] then Take(s, true) else s.(writer := Leaving, verdict := Emptied(|s.pipe.enqueued|))
    case CloseConn => s.(gate := CloseConnection(s.gate), writer := ConnectionDone)
    case CloseDone => s.(writer := Gone, done := true)
    case EnterConn(i) => SetWrite(s, i, InConn)
    case ReturnConn(i, err) => SetWrite(s, i, Back(err))
    case Tick(d) => s.(now := s.now + d)
  }

  datatype Outcome = Impossible | Reached(state: State)

  /** The state a run ends in, or that some event of it could not happen. */
  function Exec(s: State, es: seq<Event>): Outcome
  {
    if es == [] then Reached(s)
    else
      match Exec(s, es[..|es| - 1])
      case Impossible => Impossible
      case Reached(p) => if Enabled(p, es[|es| - 1]) then Reached(Next(p, es[|es| - 1])) else Impossible
  }

  // ---------------------------------------------------------------- what every step keeps

  /** The messages handed to a write, in order. */
  function Handed(ws: seq<Write>): (r: seq<Message>)
    ensures |r| == |ws|
  {
    seq(|ws|, i requires 0 <= i < |ws| => ws[i].m)
  }

  function InHand(w: Writer): seq<Message>
  {
    if w.Taken? then [w.m] else []
  }

  /** Nothing is lost, repeated or reordered, and the queue is bounded. */
  ghost predicate Flow(p: Pipe, w: Writer)
  {
    && p.enqueued == Handed(p.writes) + InHand(w) + p.queue
    && |p.queue| <= MAX_QUEUED
  }

  predicate After(w: Writer)
  {
    w.Leaving? || w.ConnectionDone? || w.Gone?
  }

  /** The drain has looked at the reason and gone on. */
  predicate Drains(w: Writer)
  {
    w.Draining? || (w.Taken? && w.draining) || (w.Writing? && w.draining) || w.Recording?
  }

  /** Every write but the newest has returned without an error, and so has the newest unless the writer
      is still waiting for it or gave up on it. */
  ghost predicate Writes(ws: seq<Write>, w: Writer, v: Verdict, now: int)
  {
    && (forall i :: 0 <= i < |ws| - 1 ==> ws[i].at == Back(NoFault))
    && (w.Writing? ==> ws != [] && ws[|ws| - 1].m == w.m && w.deadline <= now + WRITE_TIMEOUT)
    && (ws != [] && !w.Writing? && !v.WriteFailed? ==> ws[|ws| - 1].at == Back(NoFault))
    && (v.WriteFailed? ==>
          && ws != []
          && (w == FinishingWith(v.fault) || w == Recording(v.fault) || After(w))
          && (w.FinishingWith? ==> !v.draining)
          && (w.Recording? ==> v.draining)
          && (v.fault == WriteTimedOut || ws[|ws| - 1].at == Back(Because(v.fault))))
    && (w.FinishingWith? || w.Recording? ==> v.WriteFailed?)
    && (v.Emptied? ==> v.n == |ws|)
  }

  /** How far the body of stopOnce has got. */
  function Depth(o: Once): nat
  {
    match o
    case Fresh => 0
    case Running(_, _, Entered) => 1
    case Running(_, _, Recorded) => 2
    case Running(_, _, Stopped) => 3
    case Running(_, _, Closed) => 4
    case Finished => 5
  }

  predicate Faulted(c: Cause)
  {
    c.Decided? && c.why.Because?
  }

  /** stopOnce runs for one caller, who is in finish with the reason it runs for. */
  ghost predicate Stopping(g: Gate, w: Writer, callers: seq<Caller>, queued: nat)
  {
    && (g.cause.Decided? <==> !g.once.Fresh?)
    && (g.once.Running? ==> Calling(w, callers, g.once.who) == Decided(g.once.why) == g.cause)
    && (g.stop <==> Depth(g.once) >= 3)
    && (Depth(g.once) <= 1 || !(g.stop || Faulted(g.cause)) ==> g.reason.NoFault?)
    && (Depth(g.once) >= 2 && Faulted(g.cause) ==> g.reason == g.cause.why)
    && g.atStop <= queued
  }

  ghost predicate Ending(g: Gate, w: Writer, done: bool, v: Verdict)
  {
    && (w.DrainStart? || Drains(w) || After(w) ==> g.stop)
    && (Drains(w) || v.Emptied? ==> !Faulted(g.cause))
    && (done <==> w.Gone?)
    && (g.connClosed <==> (Faulted(g.cause) && Depth(g.once) >= 4) || w.ConnectionDone? || w.Gone?)
    && g.closes == (if g.connClosed then 1 else 0)
    && (v.Emptied? ==> After(w) && g.atStop <= v.n)
    && (After(w) && v.Pending? ==> Faulted(g.cause))
    && (g.stop && !Faulted(g.cause) ==>
          g.reason == if After(w) && v.WriteFailed? && v.draining then Because(v.fault) else NoFault)
  }

  ghost predicate Inv(s: State)
  {
    && Flow(s.pipe, s.writer)
    && Writes(s.pipe.writes, s.writer, s.verdict, s.now)
    && Stopping(s.gate, s.writer, s.callers, |s.pipe.enqueued|)
    && Ending(s.gate, s.writer, s.done, s.verdict)
  }

  lemma CallerKeeps(s: State, e: Event)
    requires Inv(s) && Enabled(s, e)
    requires e.Send? || e.Close? || e.Check? || e.Reject? || e.AwaitDone? || e.Tick?
    ensures Inv(Next(s, e))
  {
    hide GateStep, WriteOver, Handed, Drains, After, Faulted, Depth, InHand, Take, SetWrite, PastFinish;
  }

  lemma OfferKeeps(s: State, t: nat)
    requires Inv(s) && Enabled(s, Offer(t))
    ensures Inv(Next(s, Offer(t)))
  {
    var p, m := s.pipe, s.callers[t].m;
    assert Handed(p.writes) + InHand(s.writer) + (p.queue + [m]) == Handed(p.writes) + InHand(s.writer) + p.queue + [m];
    hide GateStep, WriteOver, Handed, Drains, After, Faulted, Depth, InHand, Take, SetWrite, PastFinish;
  }

  lemma GateKeeps(g: Gate, w: Writer, callers: seq<Caller>, queued: nat, who: Who, done: bool, v: Verdict)
    requires Stopping(g, w, callers, queued) && Ending(g, w, done, v)
    requires Calling(w, callers, who).Decided? && (g.once.Running? ==> g.once.who == who)
    ensures var n := GateStep(g, who, Calling(w, callers, who).why, queued);
            Stopping(n, w, callers, queued) && Ending(n, w, done, v)
  {
  }

  lemma FinishKeeps(s: State, who: Who)
    requires Inv(s) && Enabled(s, Finish(who))
    ensures Inv(Next(s, Finish(who)))
  {
    GateKeeps(s.gate, s.writer, s.callers, |s.pipe.enqueued|, who, s.done, s.verdict);
    hide GateStep, Handed;
  }

  lemma TakeFlows(s: State, draining: bool)
    requires Flow(s.pipe, s.writer) && !s.writer.Taken? && s.pipe.queue != []
    ensures Flow(Take(s, draining).pipe, Take(s, draining).writer)
  {
    assert s.pipe.queue == [s.pipe.queue[0]] + s.pipe.queue[1..];
    hide Handed;
  }

  lemma TakeKeeps(s: State, e: Event)
    requires Inv(s) && Enabled(s, e) && (e.Pick? || e.DrainPick?)
    ensures Inv(Next(s, e))
  {
    if s.pipe.queue != [] {
      TakeFlows(s, e.DrainPick?);
      hide Flow;
    }
    hide GateStep, Handed;
  }

  lemma WriterKeeps(s: State, e: Event)
    requires Inv(s) && Enabled(s, e)
    requires e.Look? || e.SeeStop? || e.Record? || e.DrainCheck? || e.CloseConn? || e.CloseDone?
    ensures Inv(Next(s, e))
  {
    hide GateStep, Handed;
  }

  lemma BeginKeeps(s: State)
    requires Inv(s) && Enabled(s, Begin)
    ensures Inv(Next(s, Begin))
  {
    assert Handed(Next(s, Begin).pipe.writes) == Handed(s.pipe.writes) + [s.writer.m];
  }

  lemma OverKeeps(s: State, e: Event)
    requires Inv(s) && Enabled(s, e) && (e.Hear? || e.TimeUp?)
    ensures Inv(Next(s, e))
  {
    hide GateStep, Handed;
  }

  lemma ConnKeeps(s: State, e: Event)
    requires Inv(s) && Enabled(s, e) && (e.EnterConn? || e.ReturnConn?)
    ensures Inv(Next(s, e))
  {
    assert Handed(Next(s, e).pipe.writes) == Handed(s.pipe.writes);
  }

  /** A run is its past and then its last event. */
  lemma ExecLast(s: State, es: seq<Event>)
    requires es != [] && Exec(s, es).Reached?
    ensures var past, e := es[..|es| - 1], es[|es| - 1];
            && Exec(s, past).Reached?
            && Enabled(Exec(s, past).state, e)
            && Exec(s, es) == Reached(Next(Exec(s, past).state, e))
  {
    hide Enabled, Next;
  }

  lemma StepKeeps(s: State, e: Event)
    requires Inv(s) && Enabled(s, e)
    ensures Inv(Next(s, e))
  {
    hide Next, Enabled, Inv;
    match e {
      case Finish(who) => FinishKeeps(s, who);
      case Pick => TakeKeeps(s, e);
      case DrainPick => TakeKeeps(s, e);
      case Look => WriterKeeps(s, e);
      case SeeStop => WriterKeeps(s, e);
      case Record => WriterKeeps(s, e);
      case DrainCheck => WriterKeeps(s, e);
      case CloseConn => WriterKeeps(s, e);
      case CloseDone => WriterKeeps(s, e);
      case Begin => BeginKeeps(s);
      case Hear => OverKeeps(s, e);
      case TimeUp => OverKeeps(s, e);
      case EnterConn(_) => ConnKeeps(s, e);
      case ReturnConn(_, _) => ConnKeeps(s, e);
      case Offer(t) => OfferKeeps(s, t);
      case _ => CallerKeeps(s, e);
    }
  }

  /** Every state a run from a new Sender reaches satisfies the invariant. */
  lemma {:induction false} RunKeeps(es: seq<Event>)
    requires Exec(Init(), es).Reached?
    ensures Inv(Exec(Init(), es).state)
  {
    if es != [] {
      ExecLast(Init(), es);
      hide Exec, Enabled, Next;
      RunKeeps(es[..|es| - 1]);
      StepKeeps(Exec(Init(), es[..|es| - 1]).state, es[|es| - 1]);
    }
  }

  ghost predicate Reachable(s: State)
  {
    exists es :: Exec(Init(), es) == Reached(s)
  }

  lemma ReachableInv(s: State)
    requires Reachable(s)
    ensures Inv(s)
  {
    var es :| Exec(Init(), es) == Reached(s);
    RunKeeps(es);
  }

  lemma ReachableStep(s: State, e: Event)
    requires Reachable(s) && Enabled(s, e)
    ensures Reachable(Next(s, e))
  {
    hide Enabled, Next;
    var es :| Exec(Init(), es) == Reached(s);
    assert (es + [e])[..|es|] == es;
    assert Exec(Init(), es + [e]) == Reached(Next(s, e));
  }

  // ---------------------------------------------------------------- the order of the messages

  /** In every interleaving, what was queued is what was handed to a write, then a message taken and not
      yet begun, then what still waits, in that order; and the wait is bounded. */
  lemma FirstInFirstOut(s: State)
    requires Reachable(s)
    ensures s.pipe.enqueued == Handed(s.pipe.writes) + InHand(s.writer) + s.pipe.queue
    ensures |s.pipe.queue| <= MAX_QUEUED
  {
    ReachableInv(s);
  }

  /** At most one conn.Write is ever unfinished, and it is the newest. */
  lemma OneWriteAtATime(s: State, i: nat)
    requires Reachable(s) && i < |s.pipe.writes| && !s.pipe.writes[i].at.Back?
    ensures i == |s.pipe.writes| - 1
    ensures s.writer.Writing? || (s.verdict.WriteFailed? && s.verdict.fault == WriteTimedOut)
  {
    ReachableInv(s);
  }

  /** No write is started once one has failed or timed out, and the only goroutine that can still enter
      conn.Write then is that of the very write that was given up on. */
  lemma NoWriteAfterAFailure(s: State, e: Event)
    requires Reachable(s) && s.verdict.WriteFailed? && Enabled(s, e)
    ensures Next(s, e).verdict == s.verdict && Handed(Next(s, e).pipe.writes) == Handed(s.pipe.writes)
    ensures e.EnterConn? ==> e.i == |s.pipe.writes| - 1 && s.verdict.fault == WriteTimedOut
  {
    ReachableInv(s);
    if e.EnterConn? || e.ReturnConn? {
      SetWriteHands(s, e.i, if e.EnterConn? then InConn else Back(e.err));
    }
    hide Flow, Stopping, Ending, Handed, GateStep;
  }

  lemma SetWriteHands(s: State, i: nat, at: Progress)
    requires i < |s.pipe.writes|
    ensures Handed(SetWrite(s, i, at).pipe.writes) == Handed(s.pipe.writes)
  {
  }

  // ---------------------------------------------------------------- closing deliberately

  /** `atStop` is the number of messages queued when stop closed, and the queue history only grows. */
  lemma StopIsMarked(s: State, e: Event)
    requires Reachable(s) && Enabled(s, e)
    ensures s.pipe.enqueued <= Next(s, e).pipe.enqueued
    ensures s.gate.stop ==> Next(s, e).gate.stop && Next(s, e).gate.atStop == s.gate.atStop
    ensures !s.gate.stop && Next(s, e).gate.stop ==> Next(s, e).gate.atStop == |s.pipe.enqueued|
  {
    ReachableInv(s);
    hide Handed, Flow, Writes, Ending;
  }

  /** Where the Sender was closed deliberately and no write failed or timed out, done means that every
      message queued before stop closed was written without an error; and what was not written is
      exactly what was queued after the drain had found the queue empty. */
  lemma GracefulClose(s: State)
    requires Reachable(s) && s.done && s.gate.cause == Decided(NoFault) && !s.verdict.WriteFailed?
    ensures s.verdict.Emptied? && s.gate.atStop <= s.verdict.n <= |s.pipe.enqueued|
    ensures Handed(s.pipe.writes) == s.pipe.enqueued[..s.verdict.n] && s.pipe.queue == s.pipe.enqueued[s.verdict.n..]
    ensures forall i | 0 <= i < |s.pipe.writes| :: s.pipe.writes[i].at == Back(NoFault)
  {
    ReachableInv(s);
  }

  ghost predicate NonePastCheck(s: State)
  {
    forall t :: 0 <= t < |s.callers| ==> !s.callers[t].PastCheck?
  }

  lemma {:induction false} NothingMoreQueued(s: State, es: seq<Event>)
    requires s.gate.stop && NonePastCheck(s) && Exec(s, es).Reached?
    ensures var n := Exec(s, es).state; n.gate.stop && NonePastCheck(n) && n.pipe.enqueued == s.pipe.enqueued
  {
    if es != [] {
      ExecLast(s, es);
      hide Exec, Enabled, Next;
      NothingMoreQueued(s, es[..|es| - 1]);
      var p := Exec(s, es[..|es| - 1]).state;
      NothingMoreStep(p, es[|es| - 1]);
    }
  }

  lemma NothingMoreStep(s: State, e: Event)
    requires s.gate.stop && NonePastCheck(s) && Enabled(s, e)
    ensures var n := Next(s, e); n.gate.stop && NonePastCheck(n) && n.pipe.enqueued == s.pipe.enqueued
  {
  }

  lemma ExecOne(s: State, e: Event)
    requires Enabled(s, e)
    ensures Exec(s, [e]) == Reached(Next(s, e))
  {
    assert [e][..0] == [];
  }

  /** When the drain finds the queue empty, no later Send can have its message accepted and left
      unwritten exactly if no Send is between its stop check and its enqueue at that moment. */
  lemma NothingIsLeftBehindExactlyWhen(s: State)
    requires Reachable(s) && s.writer.Draining? && s.pipe.queue == []
    ensures (forall es :: Exec(Next(s, DrainPick), es).Reached?
                          ==> Exec(Next(s, DrainPick), es).state.pipe.enqueued == s.pipe.enqueued)
            <==> NonePastCheck(s)
  {
    ReachableInv(s);
    var n := Next(s, DrainPick);
    if NonePastCheck(s) {
      forall es | Exec(n, es).Reached? ensures Exec(n, es).state.pipe.enqueued == s.pipe.enqueued {
        NothingMoreQueued(n, es);
      }
    } else {
      var t: nat :| t < |s.callers| && s.callers[t].PastCheck?;
      ExecOne(n, Offer(t));
      assert Next(n, Offer(t)).pipe.enqueued == s.pipe.enqueued + [s.callers[t].m];
      assert Exec(n, [Offer(t)]).Reached?;
    }
  }

  // ---------------------------------------------------------------- faults

  /** The reason, once there is one, never changes. */
  lemma TheFirstReasonIsKept(s: State, e: Event)
    requires s.gate.reason.Because? && Enabled(s, e)
    ensures Next(s, e).gate.reason == s.gate.reason
  {
  }

  /** done implies stop and a connection closed exactly once, and Err answers the reason finish was first
      called with, or else the failure of a write of the drain. */
  lemma WhatDoneMeans(s: State)
    requires Reachable(s) && s.done
    ensures s.gate.stop && s.gate.connClosed && s.gate.closes == 1 && s.gate.cause.Decided?
    ensures s.gate.reason == if s.gate.cause.why.Because? then s.gate.cause.why
                             else if s.verdict.WriteFailed? && s.verdict.draining then Because(s.verdict.fault)
                             else NoFault
  {
    ReachableInv(s);
  }

  /** A write that failed is what Err answers exactly when its own finish came first, or it was the
      drain's and the Sender had been closed deliberately, or the first fault happens to be equal. */
  lemma AFailedWriteIsReportedExactlyWhen(s: State)
    requires Reachable(s) && s.done && s.verdict.WriteFailed?
    ensures s.gate.reason == Because(s.verdict.fault)
            <==> || s.gate.cause == Decided(Because(s.verdict.fault))
                 || (s.gate.cause == Decided(NoFault) && s.verdict.draining)
  {
    WhatDoneMeans(s);
  }

  /** When a Send answers that the client is too slow, the connection has been closed exactly if the
      Sender had stopped on a fault or the writer had already come to its end. */
  lemma TooSlowDisconnectsExactlyWhen(s: State, t: nat)
    requires Reachable(s) && Enabled(s, Finish(TheCaller(t))) && s.callers[t].why == Because(TooSlow)
    requires Next(s, Finish(TheCaller(t))).callers[t].Returned?
    ensures Next(s, Finish(TheCaller(t))).gate.connClosed
            <==> s.gate.cause != Decided(NoFault) || s.writer.ConnectionDone? || s.writer.Gone?
  {
    ReachableInv(s);
  }

  // ---------------------------------------------------------------- how long stopping takes

  /** How many Sends are between their stop check and their enqueue. */
  function PastCheckCount(callers: seq<Caller>): nat
  {
    if callers == [] then 0
    else PastCheckCount(callers[..|callers| - 1]) + (if callers[|callers| - 1].PastCheck? then 1 else 0)
  }

  lemma {:induction false} CountUpdate(callers: seq<Caller>, t: nat, c: Caller)
    requires t < |callers|
    ensures PastCheckCount(callers[t := c]) + (if callers[t].PastCheck? then 1 else 0)
         == PastCheckCount(callers) + (if c.PastCheck? then 1 else 0)
  {
    var n := |callers| - 1;
    if t == n {
      assert callers[t := c][..n] == callers[..n];
    } else {
      assert callers[t := c][..n] == callers[..n][t := c];
      CountUpdate(callers[..n], t, c);
    }
  }

  /** The messages not yet taken that may still have to be written once stop has closed. */
  function Untaken(s: State): nat
  {
    |s.pipe.queue| + PastCheckCount(s.callers)
  }

  lemma UntakenStep(s: State, e: Event)
    requires s.gate.stop && Enabled(s, e)
    ensures Untaken(Next(s, e)) <= Untaken(s) - (if Next(s, e).writer.Taken? && !s.writer.Taken? then 1 else 0)
  {
    hide GateStep, WriteOver, SetWrite, Take;
    match e {
      case Check(t) => CountUpdate(s.callers, t, Rejected);
      case Reject(t) => CountUpdate(s.callers, t, Next(s, e).callers[t]);
      case Offer(t) => CountUpdate(s.callers, t, Next(s, e).callers[t]);
      case AwaitDone(t) => CountUpdate(s.callers, t, Returned(Ended));
      case Finish(who) => if who.TheCaller? { CountUpdate(s.callers, who.t, Next(s, e).callers[who.t]); }
      case Send(_) => assert Next(s, e).callers[..|s.callers|] == s.callers;
      case Close => assert Next(s, e).callers[..|s.callers|] == s.callers;
      case _ => WriterLeavesCallers(s, e);
    }
  }

  lemma WriterLeavesCallers(s: State, e: Event)
    requires Enabled(s, e)
    requires !(e.Check? || e.Reject? || e.Offer? || e.AwaitDone? || e.Finish? || e.Send? || e.Close?)
    ensures var n := Next(s, e);
            && n.callers == s.callers
            && |n.pipe.queue| == |s.pipe.queue| - (if n.writer.Taken? && !s.writer.Taken? then 1 else 0)
  {
  }

  predicate WriterEvent(e: Event)
  {
    match e
    case Look => true
    case Pick => true
    case SeeStop => true
    case Begin => true
    case Hear => true
    case TimeUp => true
    case Record => true
    case DrainCheck => true
    case DrainPick => true
    case CloseConn => true
    case CloseDone => true
    case Finish(who) => who.TheWriter?
    case _ => false
  }

  /** How far the writer is from its end, the queue set aside. */
  function Distance(w: Writer, o: Once): nat
  {
    match w
    case AtTop => 5
    case AtSelect => 6
    case Taken(_, draining) => if draining then 5 else 7
    case Writing(_, draining, _) => if draining then 4 else 6
    case FinishingWith(_) => 8 - Depth(o)
    case Recording(_) => 3
    case DrainStart => 4
    case Draining => 3
    case Leaving => 2
    case ConnectionDone => 1
    case Gone => 0
  }

  function Rank(s: State): nat
  {
    3 * Untaken(s) + Distance(s.writer, s.gate.once)
  }

  lemma DistanceStep(s: State, e: Event)
    requires Inv(s) && s.gate.stop && Enabled(s, e)
    ensures var n := Next(s, e);
            && Distance(n.writer, n.gate.once) - (if n.writer.Taken? && !s.writer.Taken? then 3 else 0)
               <= Distance(s.writer, s.gate.once) - (if WriterEvent(e) then 1 else 0)
  {
    hide Flow, Writes, Ending, Handed, PastCheckCount;
  }

  /** Once stop has closed, every step of the writer brings it closer to done and no other step takes it
      further away. */
  lemma StoppingProgresses(s: State, e: Event)
    requires Reachable(s) && s.gate.stop && Enabled(s, e)
    ensures Rank(Next(s, e)) <= Rank(s) - (if WriterEvent(e) then 1 else 0)
  {
    ReachableInv(s);
    UntakenStep(s, e);
    DistanceStep(s, e);
    hide Next, Enabled, Untaken, Distance, Inv;
  }

  /** Whoever is inside stopOnce while the writer waits for it brings the writer closer. */
  lemma FinishProgresses(s: State)
    requires Reachable(s) && s.gate.stop && s.writer.FinishingWith?
    ensures var who := if s.gate.once.Running? then s.gate.once.who else TheWriter;
            Enabled(s, Finish(who)) && Rank(Next(s, Finish(who))) < Rank(s)
  {
    ReachableInv(s);
    var who := if s.gate.once.Running? then s.gate.once.who else TheWriter;
    UntakenStep(s, Finish(who));
    hide Untaken, Flow, Writes, Ending, RecordReason, CloseConnection;
  }

  /** The step that brings done closer now: one of the writer's, one of whoever is inside stopOnce, or letting the
      time of the write in progress run out. */
  function Onward(s: State): Event
  {
    match s.writer
    case AtTop => Look
    case AtSelect => SeeStop
    case Taken(_, _) => Begin
    case Writing(_, _, deadline) => Tick(if deadline > s.now then deadline - s.now else 0)
    case FinishingWith(_) => Finish(if s.gate.once.Running? then s.gate.once.who else TheWriter)
    case Recording(_) => Record
    case DrainStart => DrainCheck
    case Draining => DrainPick
    case Leaving => CloseConn
    case ConnectionDone => CloseDone
    case Gone => Tick(0)
  }

  /** Until done has closed there is always a step that brings it closer, if only once the time of the write in
      progress has run out. */
  lemma StoppingIsNeverStuck(s: State)
    requires Reachable(s) && s.gate.stop && !s.done
    ensures Enabled(s, Onward(s))
    ensures Rank(Next(s, Onward(s))) < Rank(s) || (Onward(s).Tick? && Enabled(Next(s, Onward(s)), TimeUp))
  {
    ReachableInv(s);
    if s.writer.FinishingWith? {
      FinishProgresses(s);
    } else {
      assert Enabled(s, Onward(s));
      StoppingProgresses(s, Onward(s));
    }
    hide Flow, Handed, Rank, Writes, Stopping;
  }

  function WriterEvents(es: seq<Event>): nat
  {
    if es == [] then 0
    else WriterEvents(es[..|es| - 1]) + (if WriterEvent(es[|es| - 1]) then 1 else 0)
  }

  lemma {:induction false} ExecReachable(s: State, es: seq<Event>)
    requires Reachable(s) && Exec(s, es).Reached?
    ensures Reachable(Exec(s, es).state)
    ensures s.gate.stop ==> Exec(s, es).state.gate.stop
    ensures s.gate.cause.Decided? ==> Exec(s, es).state.gate.cause == s.gate.cause
  {
    if es != [] {
      ExecLast(s, es);
      hide Exec, Enabled, Next;
      ExecReachable(s, es[..|es| - 1]);
      var p := Exec(s, es[..|es| - 1]).state;
      ReachableStep(p, es[|es| - 1]);
      StopIsMarked(p, es[|es| - 1]);
      if p.gate.cause.Decided? {
        CauseIsKept(p, es[|es| - 1]);
      }
    }
  }

  lemma CauseIsKept(s: State, e: Event)
    requires Reachable(s) && Enabled(s, e) && s.gate.cause.Decided?
    ensures Next(s, e).gate.cause == s.gate.cause
  {
    ReachableInv(s);
    hide Flow, Writes, Ending;
  }

  /** In every run from a closed stop the writer takes no more steps than its distance from done. */
  lemma {:induction false} StoppingEnds(s: State, es: seq<Event>)
    requires Reachable(s) && s.gate.stop && Exec(s, es).Reached?
    ensures WriterEvents(es) + Rank(Exec(s, es).state) <= Rank(s)
  {
    if es != [] {
      var past := es[..|es| - 1];
      ExecLast(s, es);
      hide Exec, Enabled, Next;
      StoppingEnds(s, past);
      ExecReachable(s, past);
      StoppingProgresses(Exec(s, past).state, es[|es| - 1]);
    }
  }

  /** How many writes may still enter conn.Write once stop has closed on a fault. */
  function YetToEnter(s: State): nat
  {
    if (s.pipe.writes != [] && s.pipe.writes[|s.pipe.writes| - 1].at.Started?) || s.writer.AtSelect? || s.writer.Taken?
    then 1 else 0
  }

  lemma YetToEnterStep(s: State, e: Event)
    requires Inv(s) && s.gate.stop && Faulted(s.gate.cause) && Enabled(s, e)
    ensures YetToEnter(Next(s, e)) + (if e.EnterConn? then 1 else 0) <= YetToEnter(s)
  {
    hide Flow, Handed, GateStep;
  }

  function Entries(es: seq<Event>): nat
  {
    if es == [] then 0 else Entries(es[..|es| - 1]) + (if es[|es| - 1].EnterConn? then 1 else 0)
  }

  lemma {:induction false} EntriesBounded(s: State, es: seq<Event>)
    requires Reachable(s) && s.gate.stop && Faulted(s.gate.cause) && Exec(s, es).Reached?
    ensures Entries(es) + YetToEnter(Exec(s, es).state) <= YetToEnter(s)
  {
    if es != [] {
      var past := es[..|es| - 1];
      ExecLast(s, es);
      hide Exec, Enabled, Next;
      EntriesBounded(s, past);
      ExecReachable(s, past);
      ReachableInv(Exec(s, past).state);
      YetToEnterStep(Exec(s, past).state, es[|es| - 1]);
    }
  }

  /** Once stop has closed on a fault, at most one further conn.Write begins, however the run goes on. */
  lemma AFaultEndsWriting(s: State, es: seq<Event>)
    requires Reachable(s) && s.gate.stop && Faulted(s.gate.cause) && Exec(s, es).Reached?
    ensures Entries(es) <= 1
  {
    EntriesBounded(s, es);
  }

  /** Only the writes take time, and a timer goes off when it is due. */
  predicate Prompt(s: State, e: Event)
  {
    e.Tick? ==> s.writer.Writing? && s.now + e.d <= s.writer.deadline
  }

  ghost predicate PromptRun(s: State, es: seq<Event>)
  {
    Exec(s, es).Reached?
    && (es != [] ==> PromptRun(s, es[..|es| - 1]) && Prompt(Exec(s, es[..|es| - 1]).state, es[|es| - 1]))
  }

  /** The time the writer may still take over the message it has in hand. */
  function TimeInHand(w: Writer, now: int): int
  {
    match w
    case Taken(_, _) => WRITE_TIMEOUT
    case Writing(_, _, deadline) => if deadline > now then deadline - now else 0
    case _ => 0
  }

  /** The time the writes still to go may take. */
  function Budget(s: State): int
  {
    WRITE_TIMEOUT * Untaken(s) + TimeInHand(s.writer, s.now)
  }

  lemma TimeInHandStep(s: State, e: Event)
    requires Enabled(s, e) && Prompt(s, e)
    ensures var n := Next(s, e);
            TimeInHand(n.writer, n.now) + n.now - s.now
            <= TimeInHand(s.writer, s.now) + if n.writer.Taken? && !s.writer.Taken? then WRITE_TIMEOUT else 0
  {
    hide GateStep;
  }

  lemma BudgetStep(s: State, e: Event)
    requires s.gate.stop && Enabled(s, e) && Prompt(s, e)
    ensures Budget(Next(s, e)) + Next(s, e).now - s.now <= Budget(s)
  {
    UntakenStep(s, e);
    TimeInHandStep(s, e);
    hide Untaken, TimeInHand, Next, Enabled, Prompt;
  }

  lemma {:induction false} BudgetRun(s: State, es: seq<Event>)
    requires Reachable(s) && s.gate.stop && PromptRun(s, es)
    ensures Budget(Exec(s, es).state) + Exec(s, es).state.now - s.now <= Budget(s)
  {
    if es != [] {
      var past := es[..|es| - 1];
      ExecLast(s, es);
      hide Exec, Enabled, Next;
      BudgetRun(s, past);
      ExecReachable(s, past);
      BudgetStep(Exec(s, past).state, es[|es| - 1]);
    }
  }

  /** Closing waits at most one WriteTimeout for each message still to go: those in the queue, those whose
      Send is past its stop check, and the one the writer has in hand. */
  lemma ClosingWaitsAtMost(s: State, es: seq<Event>)
    requires Reachable(s) && s.gate.stop && PromptRun(s, es)
    ensures Exec(s, es).state.now - s.now
            <= WRITE_TIMEOUT
               * (|s.pipe.queue| + PastCheckCount(s.callers)
                  + (if s.writer.Taken? || s.writer.Writing? then 1 else 0))
  {
    BudgetRun(s, es);
    ReachableInv(s);
    hide Exec, PromptRun, Flow, Writes, Handed;
  }

  // ---------------------------------------------------------------- runs against the stronger readings

  /** The state a run leads to when its events are taken one by one. */
  lemma Extend(es: seq<Event>, s: State, e: Event) returns (more: seq<Event>, n: State)
    requires Exec(Init(), es) == Reached(s) && Enabled(s, e)
    ensures more == es + [e] && n == Next(s, e) && Exec(Init(), more) == Reached(n)
  {
    hide Enabled, Next;
    more, n := es + [e], Next(s, e);
    assert more[..|es|] == es;
  }

  lemma ExecNothing()
    ensures Exec(Init(), []) == Reached(Init())
  {
  }

  /** A deliberate close, from a caller appearing in finish to its waiting for done, before anybody else
      has stopped the Sender. */
  lemma CloseFully(es: seq<Event>, s: State) returns (more: seq<Event>, n: State)
    requires Exec(Init(), es) == Reached(s) && s.gate.once.Fresh? && s.gate.reason.NoFault?
    ensures Exec(Init(), more) == Reached(n)
    ensures n == s.(gate := s.gate.(once := Finished, stop := true, cause := Decided(NoFault),
                                    atStop := |s.pipe.enqueued|),
                    callers := s.callers + [AwaitingDone])
  {
    hide Exec;
    var me := TheCaller(|s.callers|);
    more, n := Extend(es, s, Close);
    more, n := Extend(more, n, Finish(me));
    more, n := Extend(more, n, Finish(me));
    more, n := Extend(more, n, Finish(me));
    more, n := Extend(more, n, Finish(me));
    more, n := Extend(more, n, Finish(me));
    more, n := Extend(more, n, Finish(me));
  }

  /** A Send up to its stop check, before stop has closed. */
  lemma SendChecked(es: seq<Event>, s: State, m: Message) returns (more: seq<Event>, n: State)
    requires Exec(Init(), es) == Reached(s) && !s.gate.stop
    ensures Exec(Init(), more) == Reached(n)
    ensures n == s.(callers := s.callers + [PastCheck(m)])
  {
    hide Exec;
    more, n := Extend(es, s, Send(m));
    more, n := Extend(more, n, Check(|s.callers|));
  }

  lemma SendAccepted(es: seq<Event>, s: State, m: Message) returns (more: seq<Event>, n: State)
    requires Exec(Init(), es) == Reached(s) && !s.gate.stop && |s.pipe.queue| < MAX_QUEUED
    ensures Exec(Init(), more) == Reached(n)
    ensures n == s.(callers := s.callers + [Returned(Accepted(m))],
                    pipe := s.pipe.(queue := s.pipe.queue + [m], enqueued := s.pipe.enqueued + [m]))
  {
    hide Exec;
    more, n := SendChecked(es, s, m);
    more, n := Extend(more, n, Offer(|s.callers|));
  }

  /** The writer takes the one message queued and begins its write. */
  lemma BeginFirst(m: Message) returns (es: seq<Event>, s: State)
    ensures Exec(Init(), es) == Reached(s)
    ensures s == Init().(pipe := Pipe([], [Write(m, Started)], [m]), writer := Writing(m, false, WRITE_TIMEOUT),
                         callers := [Returned(Accepted(m))])
  {
    ExecNothing();
    hide Exec;
    es, s := SendAccepted([], Init(), m);
    es, s := Extend(es, s, Look);
    es, s := Extend(es, s, Pick);
    es, s := Extend(es, s, Begin);
  }

  /** Not every Send that returned nil has been written when done closes, though the Sender was closed
      deliberately and no write failed: a Send past its check queues after the drain has looked. */
  lemma AnAcceptedMessageCanBeLeftBehind(m: Message) returns (es: seq<Event>, s: State)
    ensures Exec(Init(), es) == Reached(s) && s.done && s.gate.cause == Decided(NoFault) && !s.verdict.WriteFailed?
    ensures s.callers != [] && s.callers[0] == Returned(Accepted(m)) && s.pipe.queue == [m] && s.pipe.writes == []
  {
    ExecNothing();
    hide Exec;
    es, s := SendChecked([], Init(), m);
    es, s := CloseFully(es, s);
    es, s := Extend(es, s, Look);
    es, s := Extend(es, s, DrainCheck);
    es, s := Extend(es, s, DrainPick);
    es, s := Extend(es, s, Offer(0));
    es, s := Extend(es, s, CloseConn);
    es, s := Extend(es, s, CloseDone);
  }

  lemma {:induction false} FillQueue(es: seq<Event>, s: State, m: Message, k: nat) returns (more: seq<Event>, n: State)
    requires Exec(Init(), es) == Reached(s) && !s.gate.stop && |s.pipe.queue| + k == MAX_QUEUED
    ensures Exec(Init(), more) == Reached(n) && |n.pipe.queue| == MAX_QUEUED
    ensures n.gate == s.gate && n.writer == s.writer && n.done == s.done && n.pipe.writes == s.pipe.writes
    decreases k
  {
    more, n := es, s;
    if k > 0 {
      more, n := SendAccepted(es, s, m);
      more, n := FillQueue(more, n, m, k - 1);
    }
  }

  /** A Send can answer that the client is too slow with the connection open and no reason recorded: it
      finds the queue full after a deliberate close. */
  lemma TooSlowNeedNotDisconnect(m: Message) returns (es: seq<Event>, s: State, t: nat)
    ensures Exec(Init(), es) == Reached(s) && t < |s.callers| && s.callers[t] == Returned(Failed(TooSlow))
    ensures !s.gate.connClosed && s.gate.reason == NoFault
  {
    hide Exec;
    es, s := BeginFirst(m);
    es, s := FillQueue(es, s, m, MAX_QUEUED);
    t := |s.callers|;
    es, s := SendChecked(es, s, m);
    es, s := CloseFully(es, s);
    es, s := Extend(es, s, Offer(t));
    es, s := Extend(es, s, Finish(TheCaller(t)));
  }

  /** A write of the main loop that fails after a deliberate close is reported nowhere, and the backlog
      that close had promised to write is dropped with it. */
  lemma AFailureAfterCloseIsForgotten(m: Message, backlog: Message, detail: Bytes) returns (es: seq<Event>, s: State)
    ensures Exec(Init(), es) == Reached(s) && s.done && s.gate.reason == NoFault
    ensures s.verdict == WriteFailed(ConnFailed(detail), false) && s.pipe.queue == [backlog] && s.gate.atStop == 2
  {
    hide Exec;
    es, s := BeginFirst(m);
    es, s := SendAccepted(es, s, backlog);
    es, s := CloseFully(es, s);
    es, s := Extend(es, s, EnterConn(0));
    es, s := Extend(es, s, ReturnConn(0, Because(ConnFailed(detail))));
    es, s := Extend(es, s, Hear);
    es, s := Extend(es, s, Finish(TheWriter));
    es, s := Extend(es, s, CloseConn);
    es, s := Extend(es, s, CloseDone);
  }
}
