/** How the Sender of `internal/wire/send.go` comes to its end, and what it has written by then. */
module SenderStops {
  import opened Sender

  // ---------------------------------------------------------------- runs put together

  lemma {:induction false} FirstThenRest(s: State, e: Event, rest: seq<Event>)
    requires Enabled(s, e)
    ensures Exec(s, [e] + rest) == Exec(Next(s, e), rest)
  {
    hide Enabled, Next;
    if rest == [] {
      assert [e] + rest == [e];
      ExecOne(s, e);
    } else {
      var n := |rest| - 1;
      FirstThenRest(s, e, rest[..n]);
      assert ([e] + rest)[..n + 1] == [e] + rest[..n] && ([e] + rest)[n + 1] == rest[n];
    }
  }

  lemma {:induction false} Joined(s: State, es: seq<Event>, more: seq<Event>)
    requires Exec(s, es).Reached?
    ensures Exec(s, es + more) == Exec(Exec(s, es).state, more)
  {
    if more == [] {
      assert es + more == es;
    } else {
      var n := |more| - 1;
      Joined(s, es, more[..n]);
      assert (es + more)[..|es + more| - 1] == es + more[..n];
    }
    hide Enabled, Next;
  }

  // ---------------------------------------------------------------- done is reached

  /** From every state in which stop has closed there is a run to done, whatever the connection does: no write has to
      return for it. */
  lemma {:induction false} DoneIsReached(s: State) returns (es: seq<Event>)
    requires Reachable(s) && s.gate.stop
    ensures Exec(s, es).Reached? && Exec(s, es).state.done
    ensures forall e | e in es :: !e.Send? && !e.Close? && !e.EnterConn? && !e.ReturnConn?
    decreases Rank(s)
  {
    if s.done {
      es := [];
    } else {
      StoppingIsNeverStuck(s);
      var e := Onward(s);
      var n := Next(s, e);
      ReachableStep(s, e);
      StopIsMarked(s, e);
      if Rank(n) < Rank(s) {
        hide Enabled, Next, Exec, Rank;
        var rest := DoneIsReached(n);
        FirstThenRest(s, e, rest);
        es := [e] + rest;
      } else {
        es := AfterTheTimeout(s, e, n);
      }
    }
  }

  lemma {:induction false} AfterTheTimeout(s: State, e: Event, n: State) returns (es: seq<Event>)
    requires Reachable(s) && s.gate.stop && e.Tick? && Enabled(s, e) && n == Next(s, e) && Enabled(n, TimeUp)
    ensures Exec(s, es).Reached? && Exec(s, es).state.done
    ensures forall e | e in es :: !e.Send? && !e.Close? && !e.EnterConn? && !e.ReturnConn?
    decreases Rank(s), 0
  {
    ReachableStep(s, e);
    StopIsMarked(s, e);
    StoppingProgresses(s, e);
    ReachableStep(n, TimeUp);
    StopIsMarked(n, TimeUp);
    StoppingProgresses(n, TimeUp);
    hide Enabled, Next, Exec, Rank;
    var rest := DoneIsReached(Next(n, TimeUp));
    FirstThenRest(n, TimeUp, rest);
    FirstThenRest(s, e, [TimeUp] + rest);
    es := [e] + ([TimeUp] + rest);
  }

  // ---------------------------------------------------------------- and cannot be put off for ever

  /** How many steps a caller has still to take. */
  function CallerWork(c: Caller): nat
  {
    match c
    case Sending(_) => 4
    case PastCheck(_) => 3
    case Rejected => 1
    case Finishing(_) => 2
    case AwaitingDone => 1
    case Returned(_) => 0
  }

  function CallersWork(callers: seq<Caller>): nat
  {
    if callers == [] then 0 else CallersWork(callers[..|callers| - 1]) + CallerWork(callers[|callers| - 1])
  }

  function WriteWork(w: Write): nat
  {
    match w.at
    case Started => 2
    case InConn => 1
    case Back(_) => 0
  }

  function WritesWork(ws: seq<Write>): nat
  {
    if ws == [] then 0 else WritesWork(ws[..|ws| - 1]) + WriteWork(ws[|ws| - 1])
  }

  /** All the steps there are still to take, by the writer, the callers, whoever is inside stopOnce and the goroutines
      of the writes. */
  function Work(s: State): nat
  {
    3 * Rank(s) + CallersWork(s.callers) + WritesWork(s.pipe.writes) + (5 - Depth(s.gate.once))
  }

  lemma {:induction false} OneCallerMoves(callers: seq<Caller>, t: nat, c: Caller)
    requires t < |callers|
    ensures CallersWork(callers[t := c]) + CallerWork(callers[t]) == CallersWork(callers) + CallerWork(c)
  {
    var n := |callers| - 1;
    if t == n {
      assert callers[t := c][..n] == callers[..n];
    } else {
      assert callers[t := c][..n] == callers[..n][t := c];
      OneCallerMoves(callers[..n], t, c);
    }
  }

  lemma {:induction false} OneWriteMoves(ws: seq<Write>, i: nat, w: Write)
    requires i < |ws|
    ensures WritesWork(ws[i := w]) + WriteWork(ws[i]) == WritesWork(ws) + WriteWork(w)
  {
    var n := |ws| - 1;
    if i == n {
      assert ws[i := w][..n] == ws[..n];
    } else {
      assert ws[i := w][..n] == ws[..n][i := w];
      OneWriteMoves(ws[..n], i, w);
    }
  }

  lemma OneWriteMore(ws: seq<Write>, w: Write)
    ensures WritesWork(ws + [w]) == WritesWork(ws) + WriteWork(w)
  {
    assert (ws + [w])[..|ws|] == ws;
  }

  /** A step that neither brings in another caller nor lets time pass. */
  predicate Inner(e: Event)
  {
    !e.Send? && !e.Close? && !e.Tick?
  }

  lemma CheckStep(s: State, e: Event)
    requires Enabled(s, e) && s.gate.stop && (e.Check? || e.Reject? || e.Offer? || e.AwaitDone?)
    ensures CallersWork(Next(s, e).callers) < CallersWork(s.callers)
    ensures Next(s, e).gate == s.gate
  {
    var t := e.t;
    var c := Next(s, e).callers[t];
    OneCallerMoves(s.callers, t, c);
    assert Next(s, e).callers == s.callers[t := c];
    hide CallersWork;
  }

  lemma FinishStep(s: State, who: Who)
    requires Stopping(s.gate, s.writer, s.callers, |s.pipe.enqueued|) && Enabled(s, Finish(who))
    ensures var n := Next(s, Finish(who));
            && Depth(n.gate.once) >= Depth(s.gate.once) && CallersWork(n.callers) <= CallersWork(s.callers)
            && (who.TheCaller? ==>
                  CallersWork(n.callers) + (5 - Depth(n.gate.once)) < CallersWork(s.callers) + (5 - Depth(s.gate.once)))
  {
    hide RecordReason, CloseConnection, CallersWork;
    var n := Next(s, Finish(who));
    if who.TheCaller? {
      OneCallerMoves(s.callers, who.t, n.callers[who.t]);
      assert n.callers == s.callers[who.t := n.callers[who.t]];
    }
  }

  /** What a step does to the work of the callers. */
  lemma CallersStep(s: State, e: Event)
    requires Inv(s) && s.gate.stop && Enabled(s, e) && Inner(e)
    ensures CallersWork(Next(s, e).callers)
            <= CallersWork(s.callers) - (if e.Check? || e.Reject? || e.Offer? || e.AwaitDone? then 1 else 0)
    ensures e.Finish? && e.who.TheCaller? ==>
              CallersWork(Next(s, e).callers) + (5 - Depth(Next(s, e).gate.once))
              < CallersWork(s.callers) + (5 - Depth(s.gate.once))
    ensures Depth(Next(s, e).gate.once) >= Depth(s.gate.once)
  {
    if e.Finish? {
      FinishStep(s, e.who);
      hide Next, Enabled, CallersWork, Depth;
    } else if e.Check? || e.Reject? || e.Offer? || e.AwaitDone? {
      CheckStep(s, e);
      hide Next, Enabled, CallersWork, Depth;
    } else {
      hide CallersWork, GateStep;
    }
  }

  lemma WritesStep(s: State, e: Event)
    requires Enabled(s, e)
    ensures WritesWork(Next(s, e).pipe.writes)
            <= WritesWork(s.pipe.writes) + (if e.Begin? then 2 else 0)
               - (if e.EnterConn? || e.ReturnConn? then 1 else 0)
  {
    hide GateStep, RecordReason, CloseConnection;
    match e {
      case Begin => OneWriteMore(s.pipe.writes, Write(s.writer.m, Started));
      case EnterConn(i) => OneWriteMoves(s.pipe.writes, i, Next(s, e).pipe.writes[i]);
      case ReturnConn(i, err) => OneWriteMoves(s.pipe.writes, i, Next(s, e).pipe.writes[i]);
      case _ =>
    }
  }

  lemma WorkShrinks(s: State, e: Event)
    requires Reachable(s) && s.gate.stop && Enabled(s, e) && Inner(e)
    ensures Work(Next(s, e)) < Work(s)
  {
    ReachableInv(s);
    StoppingProgresses(s, e);
    CallersStep(s, e);
    WritesStep(s, e);
    hide Inv, Enabled, Next, Rank, CallersWork, WritesWork, Depth;
  }

  ghost predicate AllInner(es: seq<Event>)
  {
    forall i | 0 <= i < |es| :: Inner(es[i])
  }

  /** Once stop has closed, and while nobody else calls and no time passes, every run comes to an end within so many
      steps. */
  lemma {:induction false} RunsAreBounded(s: State, es: seq<Event>)
    requires Reachable(s) && s.gate.stop && Exec(s, es).Reached? && AllInner(es)
    ensures |es| + Work(Exec(s, es).state) <= Work(s)
  {
    if es != [] {
      var past := es[..|es| - 1];
      ExecLast(s, es);
      hide Exec, Enabled, Next, Work;
      RunsAreBounded(s, past);
      ExecReachable(s, past);
      WorkShrinks(Exec(s, past).state, es[|es| - 1]);
    }
  }

  /** And where the writer and the callers can go no further, the sender is done, or the writer waits for a write that
      has neither returned nor timed out. */
  lemma WhereRunsEnd(s: State)
    requires Reachable(s) && s.gate.stop && forall e :: Enabled(s, e) ==> !Inner(e) || e.EnterConn? || e.ReturnConn?
    ensures s.done || s.writer.Writing?
  {
    if !s.done {
      StoppingIsNeverStuck(s);
      assert !Inner(Onward(s)) || Onward(s).EnterConn? || Onward(s).ReturnConn?;
    }
    hide Enabled, Next, Rank;
  }

  // ---------------------------------------------------------------- what has been written by then

  /** Stop has closed deliberately and the writer is not at its end. */
  ghost predicate Closing(s: State)
  {
    Reachable(s) && s.gate.stop && s.gate.cause == Decided(NoFault) && s.verdict.Pending?
  }

  /** The write in progress has come back with an error that the writer has not heard of yet. */
  predicate Failing(s: State)
  {
    s.writer.Writing? && s.pipe.writes != [] && s.pipe.writes[|s.pipe.writes| - 1].at.Back?
    && s.pipe.writes[|s.pipe.writes| - 1].at.err.Because?
  }

  lemma FailingStays(s: State, e: Event)
    requires Inv(s) && Enabled(s, e) && (Failing(s) || s.verdict.WriteFailed?)
    ensures Failing(Next(s, e)) || Next(s, e).verdict.WriteFailed?
  {
    hide Flow, Stopping, GateStep, Handed;
  }

  lemma {:induction false} FailingFails(s: State, es: seq<Event>)
    requires Reachable(s) && Failing(s) && Exec(s, es).Reached?
    ensures Failing(Exec(s, es).state) || Exec(s, es).state.verdict.WriteFailed?
  {
    if es != [] {
      var past := es[..|es| - 1];
      ExecLast(s, es);
      hide Exec, Enabled, Next, Failing, Inv;
      FailingFails(s, past);
      ExecReachable(s, past);
      ReachableInv(Exec(s, past).state);
      FailingStays(Exec(s, past).state, es[|es| - 1]);
    }
  }

  lemma EmptiedStep(s: State, e: Event)
    requires Inv(s) && Enabled(s, e)
    ensures Next(s, e).verdict.Emptied? ==> Next(s, e).verdict == s.verdict || Next(s, e).verdict.n == |s.pipe.enqueued|
    ensures |s.pipe.enqueued| <= |Next(s, e).pipe.enqueued|
  {
    hide Flow, Stopping, GateStep, Handed, Writes;
  }

  /** A drain that ends after a moment has seen everything queued by then. */
  lemma {:induction false} EmptiedLater(s: State, es: seq<Event>)
    requires Reachable(s) && s.verdict.Pending? && Exec(s, es).Reached?
    ensures var n := Exec(s, es).state;
            |s.pipe.enqueued| <= |n.pipe.enqueued| && (n.verdict.Emptied? ==> |s.pipe.enqueued| <= n.verdict.n)
  {
    if es != [] {
      var past := es[..|es| - 1];
      ExecLast(s, es);
      hide Exec, Enabled, Next, Inv;
      EmptiedLater(s, past);
      ExecReachable(s, past);
      ReachableInv(Exec(s, past).state);
      EmptiedStep(Exec(s, past).state, es[|es| - 1]);
    }
  }

  /** With nobody past their check, everything accepted has been written when the sender is done without a failure. */
  lemma NobodyIsLeft(s: State, es: seq<Event>)
    requires Closing(s) && NonePastCheck(s) && Exec(s, es).Reached?
    ensures var n := Exec(s, es).state; n.done && !n.verdict.WriteFailed? ==> n.pipe.queue == []
  {
    NothingMoreQueued(s, es);
    EmptiedLater(s, es);
    ExecReachable(s, es);
    hide Exec;
    var n := Exec(s, es).state;
    if n.done && !n.verdict.WriteFailed? {
      GracefulClose(n);
    }
    hide NonePastCheck, Reachable;
  }

  /** One more stretch of a drain in which nothing fails: a step of the writer, or a whole write that succeeds. */
  lemma CleanStep(s: State) returns (es: seq<Event>, n: State)
    requires Closing(s) && !Failing(s)
    ensures Exec(s, es) == Reached(n) && n.callers == s.callers
    ensures || (Closing(n) && !Failing(n) && Rank(n) < Rank(s))
            || (&& Reachable(n) && n.gate.stop && n.gate.cause == s.gate.cause
                && n.writer.Leaving? && n.verdict.Emptied? && n.pipe.queue == [])
  {
    ReachableInv(s);
    if s.writer.Writing? {
      es, n := CleanWrite(s);
    } else {
      var e := Onward(s);
      assert Enabled(s, e) && !s.writer.FinishingWith? && WriterEvent(e) by {
        hide Flow, Handed, Stopping;
      }
      es, n := [e], Next(s, e);
      ExecOne(s, e);
      CleanOnward(s);
      ReachableStep(s, e);
      StopIsMarked(s, e);
      CauseIsKept(s, e);
      StoppingProgresses(s, e);
      hide Exec, Enabled, Next, Inv, Rank, Reachable;
    }
  }

  lemma CleanOnward(s: State)
    requires Closing(s) && Inv(s) && !Failing(s) && !s.writer.Writing? && Enabled(s, Onward(s))
    ensures var n := Next(s, Onward(s));
            && n.callers == s.callers && !Failing(n)
            && (n.verdict.Pending? || (n.writer.Leaving? && n.verdict.Emptied? && n.pipe.queue == []))
  {
    hide Flow, Handed, Reachable;
  }

  lemma TheNewestWrite(s: State)
    requires Inv(s) && s.writer.Writing? && !Failing(s)
    ensures |s.pipe.writes| > 0
    ensures var i := |s.pipe.writes| - 1;
            match s.pipe.writes[i].at
            case Started => Enabled(s, EnterConn(i))
            case InConn => Enabled(s, ReturnConn(i, NoFault))
            case Back(err) => err == NoFault
  {
    hide Flow, Handed, Stopping, Ending;
  }

  /** The newest write, wherever it is, comes back without an error, and the writer hears of it. */
  lemma CleanWrite(s: State) returns (es: seq<Event>, n: State)
    requires Closing(s) && Inv(s) && !Failing(s) && s.writer.Writing?
    ensures Exec(s, es) == Reached(n) && n.callers == s.callers
    ensures Closing(n) && !Failing(n) && Rank(n) < Rank(s)
  {
    TheNewestWrite(s);
    hide *;
    var i := |s.pipe.writes| - 1;
    if s.pipe.writes[i].at.Started? {
      var a := StillWriting(s, EnterConn(i));
      es, n := ReturnsWell(a);
      FirstThenRest(s, EnterConn(i), es);
      es := [EnterConn(i)] + es;
    } else if s.pipe.writes[i].at.InConn? {
      es, n := ReturnsWell(s);
    } else {
      n := HearWell(s);
      es := [Hear];
      ExecOne(s, Hear);
    }
  }

  lemma ReturnsWell(s: State) returns (es: seq<Event>, n: State)
    requires Closing(s) && !Failing(s) && s.writer.Writing? && |s.pipe.writes| > 0
    requires s.pipe.writes[|s.pipe.writes| - 1].at == InConn
    ensures Exec(s, es) == Reached(n) && n.callers == s.callers
    ensures Closing(n) && !Failing(n) && Rank(n) < Rank(s)
  {
    var i := |s.pipe.writes| - 1;
    assert Enabled(s, ReturnConn(i, NoFault));
    hide *;
    var b := StillWriting(s, ReturnConn(i, NoFault));
    n := HearWell(b);
    ExecOne(b, Hear);
    FirstThenRest(s, ReturnConn(i, NoFault), [Hear]);
    es := [ReturnConn(i, NoFault)] + [Hear];
  }

  lemma StillWriting(s: State, e: Event) returns (n: State)
    requires Closing(s) && !Failing(s) && s.writer.Writing? && Enabled(s, e) && |s.pipe.writes| > 0
    requires e == EnterConn(|s.pipe.writes| - 1) || e == ReturnConn(|s.pipe.writes| - 1, NoFault)
    ensures n == Next(s, e) && Closing(n) && !Failing(n) && n.writer == s.writer && n.callers == s.callers
    ensures Rank(n) <= Rank(s)
    ensures |n.pipe.writes| == |s.pipe.writes|
    ensures n.pipe.writes[|n.pipe.writes| - 1].at == (if e.EnterConn? then InConn else Back(NoFault))
  {
    n := Next(s, e);
    ReachableStep(s, e);
    StopIsMarked(s, e);
    CauseIsKept(s, e);
    StoppingProgresses(s, e);
    hide Rank, Reachable;
  }

  lemma HearWell(s: State) returns (n: State)
    requires Closing(s) && s.writer.Writing? && |s.pipe.writes| > 0
    requires s.pipe.writes[|s.pipe.writes| - 1].at == Back(NoFault)
    ensures Enabled(s, Hear) && n == Next(s, Hear) && Closing(n) && !Failing(n) && n.callers == s.callers
    ensures Rank(n) < Rank(s)
  {
    n := Next(s, Hear);
    ReachableStep(s, Hear);
    StopIsMarked(s, Hear);
    CauseIsKept(s, Hear);
    StoppingProgresses(s, Hear);
    hide Rank, Reachable;
  }

  /** A drain that goes well, with nobody else doing anything. */
  lemma {:induction false} DrainsClean(s: State) returns (es: seq<Event>, n: State)
    requires Closing(s) && !Failing(s)
    ensures Exec(s, es) == Reached(n) && n.callers == s.callers
    ensures Reachable(n) && n.gate.stop && n.gate.cause == s.gate.cause
    ensures n.writer.Leaving? && n.verdict.Emptied? && n.pipe.queue == []
    decreases Rank(s)
  {
    es, n := CleanStep(s);
    hide Exec, Rank, Failing;
    if n.verdict.Pending? {
      var more, last := DrainsClean(n);
      Joined(s, es, more);
      es, n := es + more, last;
    }
  }

  lemma LeftBehind(s: State, t: nat) returns (es: seq<Event>, n: State)
    requires Closing(s) && !Failing(s) && t < |s.callers| && s.callers[t].PastCheck?
    ensures Exec(s, es) == Reached(n) && n.done && !n.verdict.WriteFailed? && n.pipe.queue == [s.callers[t].m]
    ensures t < |n.callers| && n.callers[t] == Returned(Accepted(s.callers[t].m))
  {
    var run, a := DrainsClean(s);
    hide Exec, Closing, Failing;
    assert Enabled(a, Offer(t));
    var b := Next(a, Offer(t));
    var c := Next(b, CloseConn);
    n := Next(c, CloseDone);
    ExecOne(c, CloseDone);
    FirstThenRest(b, CloseConn, [CloseDone]);
    FirstThenRest(a, Offer(t), [CloseConn] + [CloseDone]);
    Joined(s, run, [Offer(t)] + ([CloseConn] + [CloseDone]));
    es := run + ([Offer(t)] + ([CloseConn] + [CloseDone]));
  }

  /** From the moment a deliberate close has closed stop: every run that comes to done without a failed write has
      written every accepted message, if and only if no Send is then between its stop check and its enqueue, or the
      write in progress has already failed and no such run is left. */
  lemma EverythingAcceptedIsWrittenExactlyWhen(s: State)
    requires Closing(s)
    ensures (forall es :: Exec(s, es).Reached? && Exec(s, es).state.done && !Exec(s, es).state.verdict.WriteFailed?
                          ==> Exec(s, es).state.pipe.queue == [])
            <==> NonePastCheck(s) || Failing(s)
  {
    if NonePastCheck(s) || Failing(s) {
      forall es | Exec(s, es).Reached? && Exec(s, es).state.done && !Exec(s, es).state.verdict.WriteFailed?
        ensures Exec(s, es).state.pipe.queue == [] {
        EveryRunHasWritten(s, es);
      }
    } else {
      var t: nat :| t < |s.callers| && s.callers[t].PastCheck?;
      var es, n := LeftBehind(s, t);
      assert Exec(s, es).Reached? && Exec(s, es).state == n;
    }
    hide Exec;
  }

  lemma EveryRunHasWritten(s: State, es: seq<Event>)
    requires Closing(s) && (NonePastCheck(s) || Failing(s)) && Exec(s, es).Reached?
    ensures var n := Exec(s, es).state; n.done && !n.verdict.WriteFailed? ==> n.pipe.queue == []
  {
    if NonePastCheck(s) {
      NobodyIsLeft(s, es);
    } else {
      FailingFails(s, es);
      ExecReachable(s, es);
      ReachableInv(Exec(s, es).state);
    }
    hide Exec, NonePastCheck, Flow, Writes, Stopping;
  }
}
