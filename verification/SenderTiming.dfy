/** When a write is given up on, and how late one can still begin. */
module SenderTiming {
  import opened Sender

  /** The state after the first `k` events of a run that can happen. */
  function At(es: seq<Event>, k: nat): State
    requires k <= |es| && Exec(Init(), es).Reached?
  {
    ExecPrefix(es, k);
    Exec(Init(), es[..k]).state
  }

  lemma {:induction false} ExecPrefix(es: seq<Event>, k: nat)
    requires k <= |es| && Exec(Init(), es).Reached?
    ensures Exec(Init(), es[..k]).Reached?
  {
    if k < |es| {
      var past := es[..|es| - 1];
      ExecLast(Init(), es);
      hide Exec, Enabled, Next;
      ExecPrefix(past, k);
      assert past[..k] == es[..k];
    } else {
      assert es[..k] == es;
    }
  }

  lemma StepAt(es: seq<Event>, k: nat)
    requires k < |es| && Exec(Init(), es).Reached?
    ensures Enabled(At(es, k), es[k]) && At(es, k + 1) == Next(At(es, k), es[k])
  {
    ExecPrefix(es, k + 1);
    assert es[..k + 1][..k] == es[..k];
    ExecLast(Init(), es[..k + 1]);
    hide Enabled, Next, Exec;
  }

  /** The write under way was begun at `i`, when its time began to run. */
  ghost predicate BegunAt(es: seq<Event>, k: nat, i: nat)
    requires k <= |es| && Exec(Init(), es).Reached?
  {
    && i < k && es[i].Begin? && (forall j: nat | i < j < k :: !es[j].Begin?)
    && At(es, k).writer.Writing? && At(es, k).writer.deadline == At(es, i).now + WRITE_TIMEOUT
  }

  lemma WritingStep(s: State, e: Event)
    requires Enabled(s, e) && Next(s, e).writer.Writing?
    ensures if e.Begin? then Next(s, e).writer.deadline == s.now + WRITE_TIMEOUT
            else s.writer.Writing? && Next(s, e).writer.deadline == s.writer.deadline
  {
    hide GateStep;
  }

  lemma {:induction false} WritingWasBegun(es: seq<Event>, k: nat) returns (i: nat)
    requires k <= |es| && Exec(Init(), es).Reached? && At(es, k).writer.Writing?
    ensures BegunAt(es, k, i)
    decreases k
  {
    assert es[..0] == [];
    assert k > 0;
    StepAt(es, k - 1);
    WritingStep(At(es, k - 1), es[k - 1]);
    hide At, Enabled, Next;
    if es[k - 1].Begin? {
      i := k - 1;
    } else {
      i := WritingWasBegun(es, k - 1);
    }
  }

  /** A write is given up on at the earliest `WRITE_TIMEOUT` after it was begun. */
  lemma ATimeoutIsWaitedOut(es: seq<Event>, k: nat) returns (i: nat)
    requires k < |es| && Exec(Init(), es).Reached? && es[k].TimeUp?
    ensures BegunAt(es, k, i) && At(es, k).now >= At(es, i).now + WRITE_TIMEOUT
    ensures At(es, k + 1).verdict == WriteFailed(WriteTimedOut, At(es, k).writer.draining)
  {
    StepAt(es, k);
    i := WritingWasBegun(es, k);
    hide At, Exec;
  }

  /** A writer that has looked at stop and found it open takes one message more, if it finds one, though stop has closed
      on a fault since: so one write can begin after a fault, and `Sender.AFaultEndsWriting` says there is no second. */
  lemma OneWriteCanBeginAfterAFault(m: Message) returns (s: State, es: seq<Event>)
    ensures Reachable(s) && s.gate.stop && Faulted(s.gate.cause) && Exec(s, es).Reached? && Entries(es) == 1
  {
    var run;
    ExecNothing();
    hide Exec;
    run, s := Extend([], Init(), Look);
    run, s := FillQueue(run, s, m, MAX_QUEUED);
    run, s := SendChecked(run, s, m);
    var t := |s.callers| - 1;
    run, s := Extend(run, s, Offer(t));
    run, s := Extend(run, s, Finish(TheCaller(t)));
    run, s := Extend(run, s, Finish(TheCaller(t)));
    run, s := Extend(run, s, Finish(TheCaller(t)));
    var a := Next(s, Pick);
    var b := Next(a, Begin);
    OneEntry(s, a, b);
    es := [Pick] + [Begin] + [EnterConn(0)];
  }

  lemma OneEntry(s: State, a: State, b: State)
    requires Enabled(s, Pick) && a == Next(s, Pick) && b == Next(a, Begin) && s.pipe.writes == []
    ensures var es := [Pick] + [Begin] + [EnterConn(0)]; Exec(s, es).Reached? && Entries(es) == 1
  {
    var one, two, es := [Pick], [Pick] + [Begin], [Pick] + [Begin] + [EnterConn(0)];
    assert one[..0] == [] && two[..1] == one && es[..2] == two;
    assert Exec(s, one) == Reached(a);
    assert Exec(s, two) == Reached(b) && Entries(two) == Entries(one) == 0;
  }
}
