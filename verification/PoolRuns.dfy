/** What holds of the pool over whole runs, with collections interleaved with everything else. */
module PoolRuns {
  import opened Ids
  import opened BigEndian
  import opened Pool

  /** What an operation sees as the unit it is about, when a collection's answer is about the unit asked next. */
  function Asked(s: System, op: Op): Id
  {
    if op.CollectAnswer? then Asking(s, op.k) else []
  }

  lemma RunUnfolds(digest: Digest, key: Bytes, ops: seq<Op>)
    requires ops != []
    ensures var s := Run(digest, key, ops[..|ops| - 1]);
            Run(digest, key, ops).record == Apply(s.record, digest, key, ops[|ops| - 1], Asked(s, ops[|ops| - 1])).0
  {
    hide Apply;
  }

  /** At most one operation more. */
  lemma RunUnfoldsBy(digest: Digest, key: Bytes, ops: seq<Op>, more: seq<Op>)
    requires |more| <= 1
    ensures var s := Run(digest, key, ops);
            Run(digest, key, ops + more).record
            == if more == [] then s.record else Apply(s.record, digest, key, more[0], Asked(s, more[0])).0
  {
    if more == [] {
      assert ops + more == ops;
    } else {
      assert (ops + more)[..|ops|] == ops;
      RunUnfolds(digest, key, ops + more);
    }
    hide Run, Apply;
  }

  lemma OneMore(digest: Digest, key: Bytes, past: seq<Op>, op: Op, id: Id)
    ensures id in Run(digest, key, past).record.units ==>
              && id in Run(digest, key, past + [op]).record.units
              && Moves(Run(digest, key, past).record.units[id], Run(digest, key, past + [op]).record.units[id])
  {
    assert (past + [op])[..|past|] == past;
    RunUnfolds(digest, key, past + [op]);
    RunKeeps(digest, key, past);
    var s := Run(digest, key, past);
    ApplyFollows(s.record, digest, key, op, Asked(s, op));
    hide Apply, Run;
  }

  lemma {:induction false} OnlyForward(digest: Digest, key: Bytes, ops: seq<Op>, more: seq<Op>, id: Id)
    requires id in Run(digest, key, ops).record.units
    ensures id in Run(digest, key, ops + more).record.units
    ensures var u, v := Run(digest, key, ops).record.units[id], Run(digest, key, ops + more).record.units[id];
            && Rank(u.state) <= Rank(v.state) && (u.state == State.Gone ==> v.state == State.Gone)
            && (v.state == u.state ==> v.cause == u.cause)
  {
    if more == [] {
      assert ops + more == ops;
    } else {
      var n := |more| - 1;
      OnlyForward(digest, key, ops, more[..n], id);
      OneMore(digest, key, ops + more[..n], more[n], id);
      assert ops + more == ops + more[..n] + [more[n]];
      hide Run;
    }
  }

  /** However a run goes on, a unit in the pool stays in it, its state never falls, while it stays in one it keeps the
      cause it is there for, as one that is gone does for good, and its identifier is never let in again. */
  lemma StatesNeverFall(digest: Digest, key: Bytes, ops: seq<Op>, more: seq<Op>, id: Id, at: State)
    requires id in Run(digest, key, ops).record.units
    ensures id in Run(digest, key, ops + more).record.units
    ensures var u, v := Run(digest, key, ops).record.units[id], Run(digest, key, ops + more).record.units[id];
            && Rank(u.state) <= Rank(v.state) && (u.state == State.Gone ==> v.state == State.Gone)
            && (v.state == u.state ==> v.cause == u.cause)
    ensures Enter(Run(digest, key, ops + more).record, id, at)
            == (Run(digest, key, ops + more).record, Refused(Duplicate))
  {
    OnlyForward(digest, key, ops, more, id);
    RunKeeps(digest, key, ops + more);
    hide Run;
  }

  // ---------------------------------------------------------------- the load a unit is placed by

  /** The operation is a load the pool recorded against the unit: reported, or answered to a collection. */
  predicate Answers(s: System, op: Op, id: Id)
  {
    && id in s.record.units && id != []
    && match op
       case Report(unit, load, _) => unit == id && load >= 0.0
       case CollectAnswer(k, load, _) => Asking(s, k) == id && load >= 0.0
       case _ => false
  }

  /** The operation is a placement the pool recorded against the unit. */
  predicate Commits(s: System, op: Op, id: Id)
  {
    && op.Commit? && op.id == id && id != [] && op.load >= 0.0
    && id in s.record.units && s.record.units[id].state == State.Admitting
  }

  function LoadIn(op: Op): real
  {
    match op
    case Report(_, load, _) => load
    case CollectAnswer(_, load, _) => load
    case Commit(_, load) => load
    case _ => 0.0
  }

  predicate AnswersAt(digest: Digest, key: Bytes, ops: seq<Op>, i: nat, id: Id)
    requires i < |ops|
  {
    Answers(Run(digest, key, ops[..i]), ops[i], id)
  }

  /** The placements recorded against a unit from the `from`th operation on. */
  function CommittedSince(digest: Digest, key: Bytes, ops: seq<Op>, from: nat, id: Id): real
  {
    if |ops| <= from then 0.0
    else
      var past, op := ops[..|ops| - 1], ops[|ops| - 1];
      CommittedSince(digest, key, past, from, id) + if Commits(Run(digest, key, past), op, id) then op.load else 0.0
  }

  /** Nothing from the `last`th operation on is an answer of the unit, and the one before, if any, is. */
  ghost predicate SinceLastAnswer(digest: Digest, key: Bytes, ops: seq<Op>, last: nat, id: Id)
  {
    && last <= |ops|
    && (forall i | last <= i < |ops| :: !AnswersAt(digest, key, ops, i, id))
    && (last > 0 ==> AnswersAt(digest, key, ops, last - 1, id))
  }

  /** The row as the history gives it. */
  ghost predicate LoadIs(digest: Digest, key: Bytes, ops: seq<Op>, last: nat, id: Id, u: Row)
  {
    && SinceLastAnswer(digest, key, ops, last, id)
    && u.everReported == (last > 0)
    && u.reported == (if last > 0 then LoadIn(ops[last - 1]) else 0.0)
    && u.committed == CommittedSince(digest, key, ops, last, id)
  }

  /** What one operation does to the load of a unit already there. */
  lemma LoadStep(s: System, digest: Digest, key: Bytes, op: Op, id: Id)
    requires Inv(s.record) && id in s.record.units
    ensures var u := s.record.units[id];
            var n := Apply(s.record, digest, key, op, Asked(s, op)).0;
            && id in n.units
            && (if Answers(s, op, id) then
                  n.units[id].everReported && n.units[id].reported == LoadIn(op) && n.units[id].committed == 0.0
                else n.units[id].everReported == u.everReported && n.units[id].reported == u.reported
                     && n.units[id].committed == u.committed + if Commits(s, op, id) then op.load else 0.0)
  {
    assert s.record.units[id].id == id != [];
    hide Proof, Less, Inv, Consistent, Sound;
  }

  lemma FreshLoad(s: System, digest: Digest, key: Bytes, op: Op, id: Id)
    requires Inv(s.record) && id !in s.record.units && id in Apply(s.record, digest, key, op, Asked(s, op)).0.units
    ensures var n := Apply(s.record, digest, key, op, Asked(s, op)).0;
            !n.units[id].everReported && n.units[id].reported == 0.0 && n.units[id].committed == 0.0
    ensures !Answers(s, op, id) && !Commits(s, op, id)
  {
    hide Proof;
  }

  lemma {:induction false} NothingBeforeItEnters(digest: Digest, key: Bytes, ops: seq<Op>, id: Id)
    requires id !in Run(digest, key, ops).record.units
    ensures CommittedSince(digest, key, ops, 0, id) == 0.0
    ensures forall i | 0 <= i < |ops| :: !AnswersAt(digest, key, ops, i, id)
  {
    if ops != [] {
      var past := ops[..|ops| - 1];
      OneMore(digest, key, past, ops[|ops| - 1], id);
      assert past + [ops[|ops| - 1]] == ops;
      NothingBeforeItEnters(digest, key, past, id);
      hide Run;
      forall i | 0 <= i < |ops| ensures !AnswersAt(digest, key, ops, i, id) {
        if i < |past| {
          assert ops[..i] == past[..i] && !AnswersAt(digest, key, past, i, id);
        }
      }
    }
  }

  lemma SinceThen(digest: Digest, key: Bytes, ops: seq<Op>, last: nat, id: Id)
    requires ops != []
    ensures var past := ops[..|ops| - 1];
            && (AnswersAt(digest, key, ops, |past|, id) ==> SinceLastAnswer(digest, key, ops, |ops|, id))
            && (SinceLastAnswer(digest, key, past, last, id) && !AnswersAt(digest, key, ops, |past|, id) ==>
                  SinceLastAnswer(digest, key, ops, last, id))
    ensures AnswersAt(digest, key, ops, |ops| - 1, id)
            == Answers(Run(digest, key, ops[..|ops| - 1]), ops[|ops| - 1], id)
  {
    var past := ops[..|ops| - 1];
    hide Answers, Run;
    forall i | 0 <= i < |past| ensures AnswersAt(digest, key, ops, i, id) == AnswersAt(digest, key, past, i, id) {
      assert ops[..i] == past[..i];
    }
  }

  lemma {:induction false} LoadAgrees(digest: Digest, key: Bytes, ops: seq<Op>, id: Id) returns (last: nat)
    requires id in Run(digest, key, ops).record.units
    ensures LoadIs(digest, key, ops, last, id, Run(digest, key, ops).record.units[id])
  {
    var past, op := ops[..|ops| - 1], ops[|ops| - 1];
    var s := Run(digest, key, past);
    RunUnfolds(digest, key, ops);
    RunKeeps(digest, key, past);
    hide Run, Apply, Inv;
    if id in s.record.units {
      last := LoadAgrees(digest, key, past, id);
      LoadStep(s, digest, key, op, id);
      if Answers(s, op, id) {
        last := |ops|;
      }
    } else {
      last := 0;
      NothingBeforeItEnters(digest, key, past, id);
      FreshLoad(s, digest, key, op, id);
    }
    SinceThen(digest, key, ops, last, id);
    hide Answers, Commits, AnswersAt, SinceLastAnswer;
  }

  /** The load a unit is placed by is the last load the pool recorded from it, zero if none, plus every placement
      committed against it since. */
  lemma EffectiveLoadIsItsHistory(digest: Digest, key: Bytes, ops: seq<Op>, last: nat, id: Id)
    requires id in Run(digest, key, ops).record.units && SinceLastAnswer(digest, key, ops, last, id)
    ensures Run(digest, key, ops).record.units[id].EffectiveLoad()
            == (if last > 0 then LoadIn(ops[last - 1]) else 0.0) + CommittedSince(digest, key, ops, last, id)
  {
    var l := LoadAgrees(digest, key, ops, id);
    hide Run, CommittedSince;
    assert l == last;
  }

  /** Every load a run can bring about is one, so the view is never refused; see `Pool.PlacerView`. */
  lemma LoadsAreLoads(digest: Digest, key: Bytes, ops: seq<Op>)
    ensures Consistent(Run(digest, key, ops).record)
    ensures forall id :: id in Run(digest, key, ops).record.units ==>
              Run(digest, key, ops).record.units[id].EffectiveLoad() >= 0.0
  {
    RunKeeps(digest, key, ops);
    hide Run;
  }

  // ---------------------------------------------------------------- joining

  /** A registration is taken exactly from a unit that is starting and has been found reachable, which hands over
      a port and a proof that verifies under the key and is at most five minutes from now either way. */
  lemma RegistersExactlyWhen(r: Record, digest: Digest, key: Bytes, reg: Registration, port: Port, now: int)
    ensures RegisterOf(r, digest, key, reg, port, now).1 == Done <==>
            && reg.unit != [] && port.Port? && reg.proof == Proof(digest, key, reg.unit, reg.issuedAt)
            && reg.issuedAt - MAX_PROOF_AGE <= now <= reg.issuedAt + MAX_PROOF_AGE
            && reg.unit in r.units && r.units[reg.unit].state == State.Starting && r.units[reg.unit].reachable
    ensures RegisterOf(r, digest, key, reg, port, now).1 != Done ==> RegisterOf(r, digest, key, reg, port, now).0 == r
  {
    hide Proof;
  }

  /** The covered bytes name one unit and one second, for every identifier however long and every instant an
      eight-byte count of seconds holds: the two-byte length in front, which a long identifier wraps, is not needed. */
  lemma PayloadNamesUnitAndSecond(a: Id, b: Id, t: int, u: int)
    requires Payload(a, t) == Payload(b, u)
    requires Int64(t / SECOND) && Int64(u / SECOND)
    ensures a == b && t / SECOND == u / SECOND
  {
    var p, n := Payload(a, t), |a|;
    assert |PutInt64(t / SECOND)| == 8 == |PutInt64(u / SECOND)|;
    assert |Put(|a| % 0x1_0000, 2)| == 2 == |Put(|b| % 0x1_0000, 2)|;
    assert |p| == n + 11 && |b| == n;
    assert p[3..n + 3] == a && Payload(b, u)[3..n + 3] == b;
    assert p[n + 3..] == PutInt64(t / SECOND) && Payload(b, u)[n + 3..] == PutInt64(u / SECOND);
    Int64RoundTrip(t / SECOND);
    Int64RoundTrip(u / SECOND);
  }

  /** Unless the tags of the two payloads happen to be one tag, a proof made for one unit and moment admits that unit
      only, and only within five minutes of the second it was made in. */
  lemma AProofAdmitsItsUnitOnly(r: Record, digest: Digest, key: Bytes, made: Id, at: int, reg: Registration,
                                port: Port, now: int)
    requires digest(key, Payload(made, at)) == digest(key, Payload(reg.unit, reg.issuedAt)) ==>
             Payload(made, at) == Payload(reg.unit, reg.issuedAt)
    requires reg.proof == Proof(digest, key, made, at)
    requires Int64(at / SECOND) && Int64(reg.issuedAt / SECOND)
    requires RegisterOf(r, digest, key, reg, port, now).1 == Done
    ensures reg.unit == made
    ensures at - SECOND < now + MAX_PROOF_AGE && now - MAX_PROOF_AGE < at + SECOND
  {
    RegistersExactlyWhen(r, digest, key, reg, port, now);
    PayloadNamesUnitAndSecond(made, reg.unit, at, reg.issuedAt);
    hide Payload, RegisterOf;
  }

  /** The operation is a registration of the unit the pool took. */
  predicate Joins(r: Record, digest: Digest, key: Bytes, op: Op, id: Id)
  {
    op.Register? && op.reg.unit == id && RegisterOf(r, digest, key, op.reg, op.port, op.now).1 == Done
  }

  predicate JoinsAt(digest: Digest, key: Bytes, ops: seq<Op>, i: nat, id: Id)
    requires i < |ops|
  {
    Joins(Run(digest, key, ops[..i]).record, digest, key, ops[i], id)
  }

  /** Registering is the one way to a port. */
  lemma PortStep(r: Record, digest: Digest, key: Bytes, op: Op, asked: Id, id: Id)
    requires Consistent(r)
    ensures var n := Apply(r, digest, key, op, asked).0;
            id in n.units && n.units[id].port.Port? ==>
              Joins(r, digest, key, op, id) || (id in r.units && n.units[id].port == r.units[id].port)
  {
    hide Proof;
  }

  /** Registering needs a unit without a port, and gives it one. */
  lemma JoinStep(r: Record, digest: Digest, key: Bytes, op: Op, asked: Id, id: Id)
    requires Inv(r) && Joins(r, digest, key, op, id)
    ensures var n := Apply(r, digest, key, op, asked).0; id in n.units && n.units[id].port == op.port
    ensures id in r.units && r.units[id].state == State.Starting
  {
    hide Proof;
  }

  /** A unit the placer may choose, or is draining, or has ever answered a port, joined: somewhere in the run is a
      registration of it that the pool took, and its port is the one handed over then. */
  lemma {:induction false} EveryPortWasRegistered(digest: Digest, key: Bytes, ops: seq<Op>, id: Id) returns (i: nat)
    requires id in Run(digest, key, ops).record.units && Run(digest, key, ops).record.units[id].port.Port?
    ensures i < |ops| && JoinsAt(digest, key, ops, i, id) && ops[i].port == Run(digest, key, ops).record.units[id].port
  {
    var past, op := ops[..|ops| - 1], ops[|ops| - 1];
    var s := Run(digest, key, past);
    RunUnfolds(digest, key, ops);
    RunKeeps(digest, key, past);
    PortStep(s.record, digest, key, op, Asked(s, op), id);
    if Joins(s.record, digest, key, op, id) {
      i := |past|;
      JoinStep(s.record, digest, key, op, Asked(s, op), id);
      hide Run;
    } else {
      i := EveryPortWasRegistered(digest, key, past, id);
      assert ops[..i] == past[..i];
      hide Run;
    }
  }

  /** And it joined only once: a unit registers at most once in any run. */
  lemma RegistersOnce(digest: Digest, key: Bytes, ops: seq<Op>, i: nat, j: nat, id: Id)
    requires i < |ops| && j < |ops| && JoinsAt(digest, key, ops, i, id) && JoinsAt(digest, key, ops, j, id)
    ensures i == j
  {
    if i < j {
      NotAgain(digest, key, ops, i, j, id);
    } else if j < i {
      NotAgain(digest, key, ops, j, i, id);
    }
  }

  lemma NotAgain(digest: Digest, key: Bytes, ops: seq<Op>, i: nat, j: nat, id: Id)
    requires i < j < |ops| && JoinsAt(digest, key, ops, i, id)
    ensures !JoinsAt(digest, key, ops, j, id)
  {
    hide Run, Apply, Inv, Joins;
    var before, after := Run(digest, key, ops[..i]), Run(digest, key, ops[..i + 1]).record;
    assert ops[..i + 1][..i] == ops[..i] && ops[..i] + [ops[i]] == ops[..i + 1];
    RunKeeps(digest, key, ops[..i]);
    RunUnfolds(digest, key, ops[..i + 1]);
    JoinedIsPast(before.record, digest, key, ops[i], Asked(before, ops[i]), id);
    assert ops[..i + 1] + ops[i + 1..j] == ops[..j];
    OnlyForward(digest, key, ops[..i + 1], ops[i + 1..j], id);
    RegistersOnlyStarting(Run(digest, key, ops[..j]).record, digest, key, ops[j], id);
  }

  lemma JoinedIsPast(r: Record, digest: Digest, key: Bytes, op: Op, asked: Id, id: Id)
    requires Inv(r) && Joins(r, digest, key, op, id)
    ensures var n := Apply(r, digest, key, op, asked).0; id in n.units && n.units[id].state == State.Admitting
  {
    hide Proof;
  }

  lemma RegistersOnlyStarting(r: Record, digest: Digest, key: Bytes, op: Op, id: Id)
    requires id in r.units && Rank(r.units[id].state) >= 2
    ensures !Joins(r, digest, key, op, id)
  {
    hide Proof;
  }

  // ---------------------------------------------------------------- going stale

  lemma {:induction false} StaleElements(r: Record, ids: seq<Id>, olderThan: int, now: int, id: Id)
    ensures id in StaleOf(r, ids, olderThan, now) <==> id in ids && id in r.units && Stale(r.units[id], olderThan, now)
  {
    if ids != [] {
      StaleElements(r, ids[..|ids| - 1], olderThan, now, id);
      hide Stale;
    }
  }

  /** In any reachable pool a sweep retires exactly the admitting and draining units that have never answered for
      their load, however lately they joined, and those whose last answer is older than the bound. */
  lemma SweepExactly(digest: Digest, key: Bytes, ops: seq<Op>, olderThan: int, now: int, id: Id)
    requires olderThan > 0
    ensures var r := Run(digest, key, ops).record;
            id in StaleOf(r, r.order, olderThan, now) <==>
            && id in r.units && (r.units[id].state == State.Admitting || r.units[id].state == State.Draining)
            && (!r.units[id].everReported || r.units[id].reportedAt + olderThan < now)
  {
    RunKeeps(digest, key, ops);
    hide Run;
    var r := Run(digest, key, ops).record;
    StaleElements(r, r.order, olderThan, now, id);
  }

  /** A unit that is listed, found reachable and registers, as the pool then holds it. */
  lemma Joining(digest: Digest, key: Bytes, id: Id, now: int) returns (joined: seq<Op>)
    requires id != []
    ensures Run(digest, key, joined).record
            == Record(map[id := Row(id, State.Admitting, NoCause, true, true, 0.0, 0, false, 0.0, Port.Port(0))], [id])
  {
    var reg := Register(Registration(id, now, Proof(digest, key, id, now)), Port.Port(0), now);
    hide Proof;
    var one, two := [Listed(id)], [Listed(id), Reachable(id, true)];
    joined := [Listed(id), Reachable(id, true), reg];
    assert one[..0] == [] && two[..1] == one && joined[..2] == two;
    RunUnfolds(digest, key, one);
    RunUnfolds(digest, key, two);
    RunUnfolds(digest, key, joined);
  }

  /** So a unit that has just joined is retired by the first sweep, with any bound at all, unless it has answered
      by then: the bound protects a silent unit only from its first answer on. */
  lemma AJoinedUnitIsSweptAtOnce(digest: Digest, key: Bytes, id: Id, olderThan: int, now: int) returns (joined: seq<Op>)
    requires id != [] && olderThan > 0
    ensures var r, n := Run(digest, key, joined).record, Run(digest, key, joined + [Sweep(olderThan, now)]).record;
            && id in r.units && r.units[id].state == State.Admitting && r.units[id].reachable && r.units[id].healthy
            && id in n.units && n.units[id].state == State.Gone
  {
    joined := Joining(digest, key, id, now);
    assert (joined + [Sweep(olderThan, now)])[..|joined|] == joined;
    hide Proof;
    RunUnfolds(digest, key, joined + [Sweep(olderThan, now)]);
    hide Run;
  }
}
