/** What the callers of `internal/wire/send.go` are answered, over every interleaving. */
module SenderAnswers {
  import opened Sender

  /** What an answer, or the place a caller has come to on the way to one, says of the Sender. */
  ghost predicate True(g: Gate, done: bool, c: Caller)
  {
    match c
    case Rejected => g.stop
    case Finishing(why) => why == NoFault || why == Because(TooSlow)
    case AwaitingDone => g.stop
    case Returned(answer) =>
      (match answer
       case Accepted(_) => true
       case Failed(f) => g.stop && (f == TooSlow || g.reason == Because(f))
       case SenderClosed => g.stop && g.cause == Decided(NoFault)
       case Ended => g.stop && done)
    case _ => true
  }

  ghost predicate AllTrue(s: State)
  {
    forall t :: 0 <= t < |s.callers| ==> True(s.gate, s.done, s.callers[t])
  }

  /** What stopping has come to is never taken back. */
  lemma NothingIsTakenBack(s: State, e: Event)
    requires Inv(s) && Enabled(s, e)
    ensures var n := Next(s, e);
            && (s.gate.stop ==> n.gate.stop) && (s.done ==> n.done)
            && (s.gate.reason.Because? ==> n.gate.reason == s.gate.reason)
            && (s.gate.cause.Decided? ==> n.gate.cause == s.gate.cause)
  {
    hide Flow, Writes, Handed;
  }

  lemma StaysTrue(s: State, e: Event, c: Caller)
    requires Inv(s) && Enabled(s, e) && True(s.gate, s.done, c)
    ensures True(Next(s, e).gate, Next(s, e).done, c)
  {
    NothingIsTakenBack(s, e);
    hide Inv, Enabled, Next;
  }

  /** The one caller a step may move. */
  function Mover(e: Event): int
  {
    match e
    case Check(t) => t
    case Reject(t) => t
    case Offer(t) => t
    case AwaitDone(t) => t
    case Finish(who) => if who.TheCaller? then who.t else -1
    case _ => -1
  }

  lemma OthersStay(s: State, e: Event, t: nat)
    requires Enabled(s, e) && t < |s.callers| && t != Mover(e)
    ensures t < |Next(s, e).callers| && Next(s, e).callers[t] == s.callers[t]
    ensures |s.callers| <= |Next(s, e).callers|
  {
    hide GateStep, RecordReason, CloseConnection;
  }

  lemma NewcomersAreTrue(s: State, e: Event, t: nat)
    requires Enabled(s, e) && |s.callers| <= t < |Next(s, e).callers|
    ensures True(Next(s, e).gate, Next(s, e).done, Next(s, e).callers[t])
  {
    hide GateStep, RecordReason, CloseConnection;
  }

  lemma MoverIsTrue(s: State, e: Event)
    requires Inv(s) && Enabled(s, e) && 0 <= Mover(e) < |s.callers|
    requires True(s.gate, s.done, s.callers[Mover(e)])
    ensures |s.callers| <= |Next(s, e).callers| && True(Next(s, e).gate, Next(s, e).done, Next(s, e).callers[Mover(e)])
  {
    hide Flow, Writes, Handed, RecordReason, CloseConnection;
    match e {
      case Finish(who) => FinisherIsTrue(s, who);
      case _ =>
    }
  }

  lemma FinisherIsTrue(s: State, who: Who)
    requires Inv(s) && Enabled(s, Finish(who)) && who.TheCaller? && who.t < |s.callers|
    requires True(s.gate, s.done, s.callers[who.t])
    ensures var n := Next(s, Finish(who)); |s.callers| == |n.callers| && True(n.gate, n.done, n.callers[who.t])
  {
    StaysTrue(s, Finish(who), s.callers[who.t]);
    hide Flow, Writes, Handed, RecordReason, CloseConnection, GateStep;
  }

  lemma StepStaysTrue(s: State, e: Event)
    requires Inv(s) && Enabled(s, e) && AllTrue(s)
    ensures AllTrue(Next(s, e))
  {
    var n := Next(s, e);
    forall t | 0 <= t < |n.callers| ensures True(n.gate, n.done, n.callers[t]) {
      if t >= |s.callers| {
        NewcomersAreTrue(s, e, t);
      } else if t == Mover(e) {
        MoverIsTrue(s, e);
      } else {
        OthersStay(s, e, t);
        StaysTrue(s, e, s.callers[t]);
      }
      hide *;
    }
  }

  lemma {:induction false} RunIsTrue(es: seq<Event>)
    requires Exec(Init(), es).Reached?
    ensures AllTrue(Exec(Init(), es).state)
  {
    if es != [] {
      ExecLast(Init(), es);
      hide Exec, Enabled, Next;
      var s := Exec(Init(), es[..|es| - 1]).state;
      RunIsTrue(es[..|es| - 1]);
      RunKeeps(es[..|es| - 1]);
      StepStaysTrue(s, es[|es| - 1]);
    }
  }

  /** A send that is told of a failure is told the reason the Sender stopped for, or that its client is too slow; one
      told that the Sender is closed finds it stopped by a deliberate close; a close returns only once done has
      closed. All of it stays so. */
  lemma AnswersAreTrue(s: State, t: nat)
    requires Reachable(s) && t < |s.callers| && s.callers[t].Returned?
    ensures match s.callers[t].answer
            case Accepted(_) => true
            case Failed(f) => s.gate.stop && (f == TooSlow || s.gate.reason == Because(f))
            case SenderClosed => s.gate.stop && s.gate.cause == Decided(NoFault)
            case Ended => s.gate.stop && s.done
  {
    var es :| Exec(Init(), es) == Reached(s);
    RunIsTrue(es);
    hide Exec;
    assert True(s.gate, s.done, s.callers[t]);
  }

  // ---------------------------------------------------------------- accepted is queued

  /** The message of a caller answered that it is queued. */
  function AcceptedOf(c: Caller): multiset<Message>
  {
    if c.Returned? && c.answer.Accepted? then multiset{c.answer.m} else multiset{}
  }

  function AllAccepted(callers: seq<Caller>): multiset<Message>
  {
    if callers == [] then multiset{}
    else AllAccepted(callers[..|callers| - 1]) + AcceptedOf(callers[|callers| - 1])
  }

  lemma {:induction false} AcceptedUpdate(callers: seq<Caller>, t: nat, c: Caller)
    requires t < |callers|
    ensures AllAccepted(callers[t := c]) + AcceptedOf(callers[t]) == AllAccepted(callers) + AcceptedOf(c)
  {
    hide AcceptedOf;
    var n := |callers| - 1;
    if t == n {
      assert callers[t := c][..n] == callers[..n];
    } else {
      AcceptedUpdate(callers[..n], t, c);
      assert callers[t := c][..n] == callers[..n][t := c];
      Beside(AllAccepted(callers[..n][t := c]), AcceptedOf(callers[t]), AllAccepted(callers[..n]), AcceptedOf(c),
             AcceptedOf(callers[n]));
    }
  }

  lemma Beside(a: multiset<Message>, b: multiset<Message>, c: multiset<Message>, d: multiset<Message>,
               more: multiset<Message>)
    requires a + b == c + d
    ensures (a + more) + b == (c + more) + d
  {
    assert (a + more) + b == (a + b) + more;
    assert (c + more) + d == (c + d) + more;
  }

  lemma AcceptedAppend(callers: seq<Caller>, c: Caller)
    ensures AllAccepted(callers + [c]) == AllAccepted(callers) + AcceptedOf(c)
  {
    assert (callers + [c])[..|callers|] == callers;
  }

  /** The one caller a step moves had not been answered that its message is queued. */
  lemma OneMoves(s: State, e: Event)
    requires Enabled(s, e) && 0 <= Mover(e) < |s.callers|
    ensures |Next(s, e).callers| == |s.callers|
    ensures Next(s, e).callers == s.callers[Mover(e) := Next(s, e).callers[Mover(e)]]
    ensures AcceptedOf(s.callers[Mover(e)]) == multiset{}
  {
    hide GateStep, RecordReason, CloseConnection;
  }

  lemma NobodyMoves(s: State, e: Event)
    requires Enabled(s, e) && !(0 <= Mover(e) < |s.callers|)
    ensures || Next(s, e).callers == s.callers
            || exists c :: Next(s, e).callers == s.callers + [c] && AcceptedOf(c) == multiset{}
    ensures Next(s, e).pipe.enqueued == s.pipe.enqueued
  {
    hide GateStep, RecordReason, CloseConnection;
    if e.Send? {
      assert AcceptedOf(Sending(e.m)) == multiset{};
    } else if e.Close? {
      assert AcceptedOf(Finishing(NoFault)) == multiset{};
    }
    hide AcceptedOf;
  }

  lemma OfferQueues(s: State, e: Event)
    requires Enabled(s, e) && 0 <= Mover(e) < |s.callers| && Mover(e) < |Next(s, e).callers|
    ensures multiset(Next(s, e).pipe.enqueued)
            == multiset(s.pipe.enqueued) + AcceptedOf(Next(s, e).callers[Mover(e)])
  {
    hide GateStep, RecordReason, CloseConnection;
    if !e.Offer? {
      OthersQueueNothing(s, e);
    }
  }

  lemma OthersQueueNothing(s: State, e: Event)
    requires Enabled(s, e) && !e.Offer? && 0 <= Mover(e) < |s.callers| && Mover(e) < |Next(s, e).callers|
    ensures Next(s, e).pipe.enqueued == s.pipe.enqueued
    ensures AcceptedOf(Next(s, e).callers[Mover(e)]) == multiset{}
  {
    hide GateStep, RecordReason, CloseConnection;
  }

  lemma AcceptedStep(s: State, e: Event)
    requires Enabled(s, e) && AllAccepted(s.callers) == multiset(s.pipe.enqueued)
    ensures AllAccepted(Next(s, e).callers) == multiset(Next(s, e).pipe.enqueued)
  {
    hide Enabled, Next, AcceptedOf, AllAccepted;
    var n := Next(s, e);
    if 0 <= Mover(e) < |s.callers| {
      OneMoves(s, e);
      OfferQueues(s, e);
      AcceptedUpdate(s.callers, Mover(e), n.callers[Mover(e)]);
    } else {
      NobodyMoves(s, e);
      if n.callers != s.callers {
        var c :| n.callers == s.callers + [c] && AcceptedOf(c) == multiset{};
        AcceptedAppend(s.callers, c);
      }
    }
  }

  /** In every interleaving the messages of the sends that have been answered that theirs is queued are exactly the
      messages that have been queued, each as many times. */
  lemma {:induction false} AcceptedMeansQueued(es: seq<Event>)
    requires Exec(Init(), es).Reached?
    ensures AllAccepted(Exec(Init(), es).state.callers) == multiset(Exec(Init(), es).state.pipe.enqueued)
  {
    if es != [] {
      ExecLast(Init(), es);
      hide Exec, Enabled, Next;
      AcceptedMeansQueued(es[..|es| - 1]);
      AcceptedStep(Exec(Init(), es[..|es| - 1]).state, es[|es| - 1]);
    }
  }

  // ---------------------------------------------------------------- what each caller is answered

  /** The calls of a run, in the order they came. The `t`th of them is caller `t`. */
  function Calls(es: seq<Event>): seq<Event>
  {
    if es == [] then []
    else
      var e := es[|es| - 1];
      Calls(es[..|es| - 1]) + if e.Send? || e.Close? then [e] else []
  }

  /** Where a call may have come to: a Send that has not offered its message and one that has, and a Close. */
  ghost predicate CameTo(call: Event, c: Caller, offered: bool, g: Gate)
  {
    if call.Close? then c == Finishing(NoFault) || c == AwaitingDone || c == Returned(Ended)
    else if !call.Send? then false
    else if offered then
      c == Finishing(Because(TooSlow)) || c == Returned(Accepted(call.m)) || c == Returned(Failed(TooSlow))
    else
      || c == Sending(call.m) || c == PastCheck(call.m) || c == Rejected
      || c == Returned(SenderClosed) || (g.reason.Because? && c == Returned(Failed(g.reason.fault)))
  }

  /** One step of the one caller it moves. */
  lemma MoverComes(s: State, e: Event, call: Event, offered: bool)
    requires Inv(s) && Enabled(s, e) && 0 <= Mover(e) < |s.callers|
    requires CameTo(call, s.callers[Mover(e)], offered, s.gate)
    ensures |Next(s, e).callers| == |s.callers|
    ensures CameTo(call, Next(s, e).callers[Mover(e)], offered || e == Offer(Mover(e)), Next(s, e).gate)
  {
    NothingIsTakenBack(s, e);
    hide Flow, Writes, Handed, RecordReason, CloseConnection, GateStep, Inv;
  }

  lemma OthersCame(s: State, e: Event, call: Event, c: Caller, offered: bool)
    requires Inv(s) && Enabled(s, e) && CameTo(call, c, offered, s.gate)
    ensures CameTo(call, c, offered, Next(s, e).gate)
  {
    NothingIsTakenBack(s, e);
    hide Inv, Enabled, Next;
  }

  lemma OneComes(s: State, e: Event)
    requires Enabled(s, e) && (e.Send? || e.Close?)
    ensures Next(s, e).callers == s.callers + [if e.Send? then Sending(e.m) else Finishing(NoFault)]
  {
  }

  /** Every caller has come where its call may have come. */
  ghost predicate AllCame(es: seq<Event>, s: State)
  {
    && |Calls(es)| == |s.callers| && (forall t: nat | Offer(t) in es :: t < |s.callers|)
    && forall t: nat | t < |s.callers| :: CameTo(Calls(es)[t], s.callers[t], Offer(t) in es, s.gate)
  }

  /** Who comes, and who moves. */
  lemma CallersStep(s: State, e: Event)
    requires Enabled(s, e)
    ensures var n := Next(s, e);
            if e.Send? || e.Close? then n.callers == s.callers + [if e.Send? then Sending(e.m) else Finishing(NoFault)]
            else |n.callers| == |s.callers|
    ensures e.Offer? ==> e.t == Mover(e) < |s.callers|
  {
    hide GateStep, RecordReason, CloseConnection;
  }

  lemma StepComes(past: seq<Event>, s: State, e: Event)
    requires Inv(s) && Enabled(s, e) && AllCame(past, s)
    ensures AllCame(past + [e], Next(s, e))
  {
    var n, es := Next(s, e), past + [e];
    assert es[..|past|] == past;
    CallersStep(s, e);
    hide Inv, Enabled, Next, CameTo, Mover;
    forall t: nat | t < |n.callers| ensures CameTo(Calls(es)[t], n.callers[t], Offer(t) in es, n.gate) {
      if t >= |s.callers| {
        JustCame(s, e, n.gate);
        assert Calls(es)[t] == e && e != Offer(t);
      } else if t == Mover(e) {
        MoverComes(s, e, Calls(past)[t], Offer(t) in past);
      } else {
        OthersStay(s, e, t);
        OthersCame(s, e, Calls(past)[t], s.callers[t], Offer(t) in past);
      }
    }
  }

  lemma JustCame(s: State, e: Event, g: Gate)
    ensures e.Send? ==> CameTo(e, Sending(e.m), false, g)
    ensures e.Close? ==> CameTo(e, Finishing(NoFault), false, g)
  {
  }

  lemma {:induction false} RunComes(es: seq<Event>)
    requires Exec(Init(), es).Reached?
    ensures AllCame(es, Exec(Init(), es).state)
  {
    if es != [] {
      ExecLast(Init(), es);
      hide Exec, Enabled, Next, AllCame;
      var past := es[..|es| - 1];
      RunComes(past);
      RunKeeps(past);
      StepComes(past, Exec(Init(), past).state, es[|es| - 1]);
      assert es == past + [es[|es| - 1]];
    }
  }

  /** A Send that offered its message to the queue is answered that this message is queued or that its client is too
      slow, and nothing else; one that was refused at its stop check is answered the reason kept, or that the Sender is
      closed; and a Close is answered that it has ended. */
  lemma {:induction false} EachIsAnsweredItsOwn(es: seq<Event>, t: nat)
    requires Exec(Init(), es).Reached? && t < |Exec(Init(), es).state.callers|
    requires Exec(Init(), es).state.callers[t].Returned?
    ensures t < |Calls(es)|
    ensures var s, answer := Exec(Init(), es).state, Exec(Init(), es).state.callers[t].answer;
            match Calls(es)[t]
            case Close => answer == Ended && s.done
            case Send(m) =>
              if Offer(t) in es then answer == Accepted(m) || answer == Failed(TooSlow)
              else if answer == SenderClosed then s.gate.cause == Decided(NoFault)
              else s.gate.reason.Because? && answer == Failed(s.gate.reason.fault)
            case _ => false
  {
    RunComes(es);
    RunIsTrue(es);
    hide Exec, Calls;
    assert True(Exec(Init(), es).state.gate, Exec(Init(), es).state.done, Exec(Init(), es).state.callers[t]);
  }

  /** It was offered to a queue with room exactly if it is answered that it is queued: room is fewer than `MAX_QUEUED`
      of the messages queued so far being left when those handed to a write and the one in hand are taken away. */
  lemma QueuedExactlyWhenThereIsRoom(s: State, t: nat)
    requires Reachable(s) && Enabled(s, Offer(t))
    ensures var left := |s.pipe.enqueued| - |s.pipe.writes| - |InHand(s.writer)|;
            && 0 <= left <= MAX_QUEUED
            && Next(s, Offer(t)).callers[t] == if left < MAX_QUEUED then Returned(Accepted(s.callers[t].m))
                                               else Finishing(Because(TooSlow))
  {
    ReachableInv(s);
    hide Writes, Stopping, Ending, Handed;
  }

  // ---------------------------------------------------------------- calls that come after the Sender has stopped

  /** A call that came after the Sender had stopped, for the reason `was` or none. */
  ghost predicate CameLate(call: Event, c: Caller, g: Gate, was: Why)
  {
    if call.Close? then c == Finishing(NoFault) || c == AwaitingDone || c == Returned(Ended)
    else if !call.Send? then false
    else
      || c == Sending(call.m) || c == Rejected
      || (c == Returned(SenderClosed) && g.cause == Decided(NoFault) && was.NoFault?)
      || (g.reason.Because? && c == Returned(Failed(g.reason.fault)))
  }

  lemma MoverIsLate(s: State, e: Event, call: Event, was: Why)
    requires Inv(s) && s.gate.stop && Enabled(s, e) && 0 <= Mover(e) < |s.callers|
    requires (was.Because? ==> s.gate.reason.Because?) && CameLate(call, s.callers[Mover(e)], s.gate, was)
    ensures |Next(s, e).callers| == |s.callers|
    ensures CameLate(call, Next(s, e).callers[Mover(e)], Next(s, e).gate, was)
  {
    NothingIsTakenBack(s, e);
    hide Flow, Writes, Handed, RecordReason, CloseConnection, GateStep;
  }

  lemma OthersAreLate(s: State, e: Event, call: Event, c: Caller, was: Why)
    requires Inv(s) && Enabled(s, e) && CameLate(call, c, s.gate, was)
    ensures CameLate(call, c, Next(s, e).gate, was)
  {
    NothingIsTakenBack(s, e);
    hide Inv, Enabled, Next;
  }

  ghost predicate AllLate(from: nat, es: seq<Event>, s: State, was: Why)
  {
    && |s.callers| == from + |Calls(es)| && (was.Because? ==> s.gate.reason.Because?)
    && forall k: nat | k < |Calls(es)| :: CameLate(Calls(es)[k], s.callers[from + k], s.gate, was)
  }

  lemma StepIsLate(from: nat, past: seq<Event>, s: State, e: Event, was: Why)
    requires Inv(s) && s.gate.stop && Enabled(s, e) && AllLate(from, past, s, was)
    ensures AllLate(from, past + [e], Next(s, e), was)
  {
    var n, es := Next(s, e), past + [e];
    assert es[..|past|] == past;
    CallersStep(s, e);
    NothingIsTakenBack(s, e);
    hide Inv, Enabled, Next, CameLate, Mover;
    forall k: nat | k < |Calls(es)| ensures CameLate(Calls(es)[k], n.callers[from + k], n.gate, was) {
      if k >= |Calls(past)| {
        JustCameLate(e, n.gate, was);
      } else if from + k == Mover(e) {
        MoverIsLate(s, e, Calls(past)[k], was);
      } else {
        OthersStay(s, e, from + k);
        OthersAreLate(s, e, Calls(past)[k], s.callers[from + k], was);
      }
    }
  }

  lemma JustCameLate(e: Event, g: Gate, was: Why)
    ensures e.Send? ==> CameLate(e, Sending(e.m), g, was)
    ensures e.Close? ==> CameLate(e, Finishing(NoFault), g, was)
  {
  }

  lemma {:induction false} RunIsLate(s: State, es: seq<Event>)
    requires Reachable(s) && s.gate.stop && Exec(s, es).Reached?
    ensures Reachable(Exec(s, es).state) && Exec(s, es).state.gate.stop
    ensures s.gate.reason.Because? ==> Exec(s, es).state.gate.reason == s.gate.reason
    ensures s.gate.cause.Decided? ==> Exec(s, es).state.gate.cause == s.gate.cause
    ensures AllLate(|s.callers|, es, Exec(s, es).state, s.gate.reason)
  {
    if es != [] {
      var past, e := es[..|es| - 1], es[|es| - 1];
      ExecLast(s, es);
      hide Exec, Enabled, Next, AllLate, Inv, Reachable;
      RunIsLate(s, past);
      var p := Exec(s, past).state;
      ReachableInv(p);
      ReachableStep(p, e);
      NothingIsTakenBack(p, e);
      StepIsLate(|s.callers|, past, p, e, s.gate.reason);
      assert es == past + [e];
    }
  }

  /** A Send that comes after the Sender has stopped is never queued. Where it stopped on a fault it is answered that
      fault, and no other; where it was closed deliberately it is answered that the Sender is closed, unless a write of
      the drain has failed, whose failure it is then answered. */
  lemma {:induction false} AfterStopTheReasonIsAnswered(s: State, es: seq<Event>, k: nat)
    requires Reachable(s) && s.gate.stop && Exec(s, es).Reached?
    requires k < |Calls(es)| && Calls(es)[k].Send?
    ensures |s.callers| + k < |Exec(s, es).state.callers|
    ensures var n := Exec(s, es).state;
            var c := n.callers[|s.callers| + k];
            c.Returned? ==>
              match s.gate.cause
              case Undecided => false
              case Decided(Because(f)) => c.answer == Failed(f)
              case Decided(NoFault) =>
                || (c.answer == SenderClosed && s.gate.reason.NoFault?)
                || (n.verdict.WriteFailed? && n.verdict.draining && c.answer == Failed(n.verdict.fault))
  {
    hide Exec, Inv, Reachable, Calls;
    RunIsLate(s, es);
    ReachableInv(s);
    ReachableInv(Exec(s, es).state);
    WhyStopped(s);
    WhyStopped(Exec(s, es).state);
  }

  lemma WhyStopped(s: State)
    requires Inv(s) && s.gate.stop
    ensures s.gate.cause.Decided? && (s.gate.cause.why.Because? ==> s.gate.reason == s.gate.cause.why)
    ensures s.gate.cause.why.NoFault? && s.gate.reason.Because? ==>
              s.verdict.WriteFailed? && s.verdict.draining && s.gate.reason.fault == s.verdict.fault
  {
    hide Flow, Writes, Handed;
  }
}
