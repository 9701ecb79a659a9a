/** Each row of the pool as what the pool was told of the unit: its verdicts, its answers, how far it has come and
    why. */
module PoolHistories {
  import opened Ids
  import opened Histories
  import opened Pool
  import opened PoolRuns

  /** The pool after the first `k` operations. */
  function After(digest: Digest, key: Bytes, ops: seq<Op>, k: nat): System
  {
    if k <= |ops| then Run(digest, key, ops[..k]) else Run(digest, key, ops)
  }

  /** The one operation at `k`, and what it is answered. */
  function At(digest: Digest, key: Bytes, ops: seq<Op>, k: nat): (Record, Reply)
    requires k < |ops|
  {
    var s := After(digest, key, ops, k);
    Apply(s.record, digest, key, ops[k], Asked(s, ops[k]))
  }

  lemma OneOn(digest: Digest, key: Bytes, ops: seq<Op>, k: nat)
    requires k < |ops|
    ensures After(digest, key, ops, k + 1).record == At(digest, key, ops, k).0
    ensures Inv(After(digest, key, ops, k).record)
  {
    assert ops[..k + 1][..k] == ops[..k];
    RunUnfolds(digest, key, ops[..k + 1]);
    RunKeeps(digest, key, ops[..k]);
    hide Apply, Run, Inv;
  }

  lemma AllOfThem(digest: Digest, key: Bytes, ops: seq<Op>)
    ensures After(digest, key, ops, |ops|) == Run(digest, key, ops)
    ensures After(digest, key, ops, 0).record == Record(map[], [])
  {
    assert ops[..|ops|] == ops;
  }

  predicate Done(digest: Digest, key: Bytes, ops: seq<Op>, k: nat)
  {
    k < |ops| && At(digest, key, ops, k).1 == Reply.Done
  }

  // ---------------------------------------------------------------- what it was told

  /** The last verdict on whether the unit can be reached. */
  function Reaching(digest: Digest, key: Bytes, ops: seq<Op>, id: Id): nat -> Maybe<bool>
  {
    (k: nat) => if Done(digest, key, ops, k) && ops[k].Reachable? && ops[k].id == id then Just(ops[k].ok) else Nothing
  }

  function Checking(digest: Digest, key: Bytes, ops: seq<Op>, id: Id): nat -> Maybe<bool>
  {
    (k: nat) => if Done(digest, key, ops, k) && ops[k].Healthy? && ops[k].id == id then Just(ops[k].ok) else Nothing
  }

  function Joining(digest: Digest, key: Bytes, ops: seq<Op>, id: Id): nat -> Maybe<Port>
  {
    (k: nat) =>
      if Done(digest, key, ops, k) && ops[k].Register? && ops[k].reg.unit == id then Just(ops[k].port) else Nothing
  }

  datatype Load = Load(load: real, at: int)

  /** The last load the unit gave, and when: reported, or answered to a collection. */
  function Loading(digest: Digest, key: Bytes, ops: seq<Op>, id: Id): nat -> Maybe<Maybe<Load>>
  {
    (k: nat) =>
      if !Done(digest, key, ops, k) then Nothing
      else if ops[k].Report? && ops[k].id == id then Just(Just(Load(ops[k].load, ops[k].now)))
      else if ops[k].CollectAnswer? && Asking(After(digest, key, ops, k), ops[k].k) == id then
        Just(Just(Load(ops[k].load, ops[k].now)))
      else Nothing
  }

  predicate ReachableIn(r: Record, id: Id)
  {
    id in r.units && r.units[id].reachable
  }

  predicate HealthyIn(r: Record, id: Id)
  {
    id in r.units ==> r.units[id].healthy
  }

  function PortIn(r: Record, id: Id): Port
  {
    if id in r.units then r.units[id].port else NoPort
  }

  /** The load a row has on record, where it has one. */
  function LoadOf(r: Record, id: Id): Maybe<Load>
  {
    if id in r.units && r.units[id].everReported then Just(Load(r.units[id].reported, r.units[id].reportedAt))
    else Nothing
  }

  lemma ReachedStep(s: System, digest: Digest, key: Bytes, op: Op, id: Id)
    requires Inv(s.record)
    ensures var (n, reply) := Apply(s.record, digest, key, op, Asked(s, op));
            ReachableIn(n, id)
            == if reply == Reply.Done && op.Reachable? && op.id == id then op.ok else ReachableIn(s.record, id)
  {
    assert id in s.record.units ==> s.record.units[id].id == id != [];
    hide Proof, Less, Inv, Consistent, Sound;
  }

  lemma CheckedStep(s: System, digest: Digest, key: Bytes, op: Op, id: Id)
    requires Inv(s.record)
    ensures var (n, reply) := Apply(s.record, digest, key, op, Asked(s, op));
            HealthyIn(n, id)
            == if reply == Reply.Done && op.Healthy? && op.id == id then op.ok else HealthyIn(s.record, id)
  {
    assert id in s.record.units ==> s.record.units[id].id == id != [];
    hide Proof, Less, Inv, Consistent, Sound;
  }

  lemma JoinedStep(s: System, digest: Digest, key: Bytes, op: Op, id: Id)
    requires Inv(s.record)
    ensures var (n, reply) := Apply(s.record, digest, key, op, Asked(s, op));
            PortIn(n, id)
            == if reply == Reply.Done && op.Register? && op.reg.unit == id then op.port else PortIn(s.record, id)
  {
    assert id in s.record.units ==> s.record.units[id].id == id != [];
    hide Proof, Less, Inv, Consistent, Sound;
  }

  lemma LoadedStep(s: System, digest: Digest, key: Bytes, op: Op, id: Id)
    requires Inv(s.record)
    ensures var (n, reply) := Apply(s.record, digest, key, op, Asked(s, op));
            LoadOf(n, id)
            == if && reply == Reply.Done
                  && ((op.Report? && op.id == id) || (op.CollectAnswer? && Asking(s, op.k) == id)) then
                 Just(Load(op.load, op.now))
               else LoadOf(s.record, id)
  {
    assert id in s.record.units ==> s.record.units[id].id == id != [];
    hide Proof, Less, Inv, Consistent, Sound;
  }

  lemma ToldOne(digest: Digest, key: Bytes, ops: seq<Op>, k: nat, id: Id)
    requires k < |ops|
    ensures var r, n := After(digest, key, ops, k).record, After(digest, key, ops, k + 1).record;
            var reach, check, join := Reaching(digest, key, ops, id)(k), Checking(digest, key, ops, id)(k),
                                      Joining(digest, key, ops, id)(k);
            && ReachableIn(n, id) == (if reach.Just? then reach.value else ReachableIn(r, id))
            && HealthyIn(n, id) == (if check.Just? then check.value else HealthyIn(r, id))
            && PortIn(n, id) == (if join.Just? then join.value else PortIn(r, id))
  {
    OneOn(digest, key, ops, k);
    ReachedStep(After(digest, key, ops, k), digest, key, ops[k], id);
    CheckedStep(After(digest, key, ops, k), digest, key, ops[k], id);
    JoinedStep(After(digest, key, ops, k), digest, key, ops[k], id);
    hide Apply, After, Inv, ReachableIn, HealthyIn, PortIn;
  }

  lemma LoadedOne(digest: Digest, key: Bytes, ops: seq<Op>, k: nat, id: Id)
    requires k < |ops|
    ensures var said := Loading(digest, key, ops, id)(k);
            LoadOf(After(digest, key, ops, k + 1).record, id)
            == if said.Just? then said.value else LoadOf(After(digest, key, ops, k).record, id)
  {
    OneOn(digest, key, ops, k);
    LoadedStep(After(digest, key, ops, k), digest, key, ops[k], id);
    hide Apply, After, Inv, LoadOf, Asking;
  }

  lemma NothingAtFirst(id: Id)
    ensures var r := Record(map[], []);
            !ReachableIn(r, id) && HealthyIn(r, id) && PortIn(r, id) == NoPort && LoadOf(r, id) == Nothing
  {
  }

  /** A unit is reachable and healthy as it was last found, and not reachable before it was: no verdict is made up and
      none is forgotten. It answers the port it last registered with. */
  lemma FoundAsLastTold(digest: Digest, key: Bytes, ops: seq<Op>, id: Id)
    ensures var r := Run(digest, key, ops).record;
            && ReachableIn(r, id) == Last(Reaching(digest, key, ops, id), false, |ops|)
            && HealthyIn(r, id) == Last(Checking(digest, key, ops, id), true, |ops|)
            && PortIn(r, id) == Last(Joining(digest, key, ops, id), NoPort, |ops|)
  {
    hide *;
    AllOfThem(digest, key, ops);
    NothingAtFirst(id);
    forall k: nat | k < |ops|
      ensures var r, n := After(digest, key, ops, k).record, After(digest, key, ops, k + 1).record;
              var reach, check, join := Reaching(digest, key, ops, id)(k), Checking(digest, key, ops, id)(k),
                                        Joining(digest, key, ops, id)(k);
              && ReachableIn(n, id) == (if reach.Just? then reach.value else ReachableIn(r, id))
              && HealthyIn(n, id) == (if check.Just? then check.value else HealthyIn(r, id))
              && PortIn(n, id) == (if join.Just? then join.value else PortIn(r, id)) {
      ToldOne(digest, key, ops, k, id);
    }
    FollowsTheLast((k: nat) => ReachableIn(After(digest, key, ops, k).record, id), Reaching(digest, key, ops, id),
                   |ops|);
    FollowsTheLast((k: nat) => HealthyIn(After(digest, key, ops, k).record, id), Checking(digest, key, ops, id), |ops|);
    FollowsTheLast((k: nat) => PortIn(After(digest, key, ops, k).record, id), Joining(digest, key, ops, id), |ops|);
  }

  /** The load on record for a unit is the last one taken from it, with the instant it was taken; so a unit goes stale
      by its last answer and by nothing else. */
  lemma LoadAsLastTaken(digest: Digest, key: Bytes, ops: seq<Op>, id: Id)
    ensures LoadOf(Run(digest, key, ops).record, id) == Last(Loading(digest, key, ops, id), Nothing, |ops|)
  {
    hide *;
    AllOfThem(digest, key, ops);
    NothingAtFirst(id);
    forall k: nat | k < |ops|
      ensures var said := Loading(digest, key, ops, id)(k);
              LoadOf(After(digest, key, ops, k + 1).record, id)
              == if said.Just? then said.value else LoadOf(After(digest, key, ops, k).record, id) {
      LoadedOne(digest, key, ops, k, id);
    }
    FollowsTheLast((k: nat) => LoadOf(After(digest, key, ops, k).record, id), Loading(digest, key, ops, id), |ops|);
  }

  // ---------------------------------------------------------------- how far it has come, and why

  /** Where a unit stands: outside the pool, or in a state for a cause. */
  datatype Standing = Outside | Stands(state: State, cause: Cause)

  function StandingOf(r: Record, id: Id): Standing
  {
    if id in r.units then Stands(r.units[id].state, r.units[id].cause) else Outside
  }

  /** The unit serves, or has until lately. */
  predicate Serves(r: Record, id: Id)
  {
    id in r.units && (r.units[id].state == State.Admitting || r.units[id].state == State.Draining)
  }

  /** It has never answered, or not since that long before. */
  predicate Silent(r: Record, id: Id, olderThan: int, now: int)
  {
    match LoadOf(r, id)
    case Nothing => true
    case Just(l) => l.at + olderThan < now
  }

  /** Where an operation that is taken brings a unit, if anywhere. */
  function Brings(r: Record, op: Op, id: Id): Maybe<Standing>
  {
    match op
    case Request(unit) => if unit == id then Just(Stands(State.Requested, NoCause)) else Nothing
    case Listed(unit) => if unit == id then Just(Stands(State.Starting, NoCause)) else Nothing
    case Started(unit) => if unit == id then Just(Stands(State.Starting, NoCause)) else Nothing
    case Register(reg, _, _) => if reg.unit == id then Just(Stands(State.Admitting, NoCause)) else Nothing
    case Drain(unit, why) => if unit == id then Just(Stands(State.Draining, why)) else Nothing
    case Retire(unit, why) => if unit == id then Just(Stands(State.Gone, why)) else Nothing
    case Reachable(unit, ok) =>
      if unit == id && !ok && id in r.units && r.units[id].state == State.Admitting then
        Just(Stands(State.Draining, ReachabilityFailed))
      else Nothing
    case Healthy(unit, ok) =>
      if unit == id && !ok && id in r.units && r.units[id].state != State.Gone then
        Just(Stands(State.Gone, HealthFailed))
      else Nothing
    case Sweep(olderThan, now) =>
      if Serves(r, id) && Silent(r, id, olderThan, now) then Just(Stands(State.Gone, TheSignalWentStale)) else Nothing
    case _ => Nothing
  }

  function Bringing(digest: Digest, key: Bytes, ops: seq<Op>, id: Id): nat -> Maybe<Standing>
  {
    (k: nat) => if Done(digest, key, ops, k) then Brings(After(digest, key, ops, k).record, ops[k], id) else Nothing
  }

  /** Nothing is the cause of a unit that is on its way in. */
  ghost predicate NoCauseYet(r: Record)
  {
    forall id :: id in r.units && Rank(r.units[id].state) <= 2 ==> r.units[id].cause == NoCause
  }

  /** The operation may change a unit that is on its way in, or out. */
  predicate Moving(op: Op)
  {
    op.Drain? || op.Retire? || op.Reachable? || op.Healthy? || op.Sweep?
  }

  lemma NoCauseStepOut(r: Record, digest: Digest, key: Bytes, op: Op, asked: Id)
    requires Inv(r) && NoCauseYet(r) && Moving(op)
    ensures NoCauseYet(Apply(r, digest, key, op, asked).0)
  {
    hide Sound;
  }

  lemma NoCauseStepIn(r: Record, digest: Digest, key: Bytes, op: Op, asked: Id)
    requires Inv(r) && NoCauseYet(r) && !Moving(op)
    ensures NoCauseYet(Apply(r, digest, key, op, asked).0)
  {
    hide Proof, Sound;
  }

  lemma NoCauseStep(r: Record, digest: Digest, key: Bytes, op: Op, asked: Id)
    requires Inv(r) && NoCauseYet(r)
    ensures NoCauseYet(Apply(r, digest, key, op, asked).0)
  {
    hide *;
    if Moving(op) {
      NoCauseStepOut(r, digest, key, op, asked);
    } else {
      NoCauseStepIn(r, digest, key, op, asked);
    }
  }

  lemma {:induction false} NoCauseRun(digest: Digest, key: Bytes, ops: seq<Op>)
    ensures NoCauseYet(Run(digest, key, ops).record)
  {
    if ops != [] {
      var past, op := ops[..|ops| - 1], ops[|ops| - 1];
      NoCauseRun(digest, key, past);
      RunKeeps(digest, key, past);
      RunUnfolds(digest, key, ops);
      NoCauseStep(Run(digest, key, past).record, digest, key, op, Asked(Run(digest, key, past), op));
      hide Run, Apply, Inv, NoCauseYet;
    }
  }

  /** The step brings the unit where it is to, and leaves it otherwise. */
  ghost predicate Brought(s: System, digest: Digest, key: Bytes, op: Op, id: Id)
  {
    var (n, reply) := Apply(s.record, digest, key, op, Asked(s, op));
    var to := if reply == Reply.Done then Brings(s.record, op, id) else Nothing;
    StandingOf(n, id) == if to.Just? then to.value else StandingOf(s.record, id)
  }

  lemma BroughtBySweep(s: System, digest: Digest, key: Bytes, op: Op, id: Id)
    requires Inv(s.record) && NoCauseYet(s.record) && op.Sweep?
    ensures Brought(s, digest, key, op, id)
  {
    assert id in s.record.units ==> s.record.units[id].id == id != [] && Sound(s.record.units[id]);
    hide Proof, Less, Inv, Consistent;
  }

  lemma BroughtOut(s: System, digest: Digest, key: Bytes, op: Op, id: Id)
    requires Inv(s.record) && NoCauseYet(s.record) && Moving(op) && !op.Sweep?
    ensures Brought(s, digest, key, op, id)
  {
    assert id in s.record.units ==> s.record.units[id].id == id != [] && Sound(s.record.units[id]);
    hide Proof, Less, Inv, Consistent;
  }

  lemma BroughtIn(s: System, digest: Digest, key: Bytes, op: Op, id: Id)
    requires Inv(s.record) && NoCauseYet(s.record) && !Moving(op)
    ensures Brought(s, digest, key, op, id)
  {
    assert id in s.record.units ==> s.record.units[id].id == id != [] && Sound(s.record.units[id]);
    hide Proof, Less, Inv, Consistent;
  }

  lemma BroughtStep(s: System, digest: Digest, key: Bytes, op: Op, id: Id)
    requires Inv(s.record) && NoCauseYet(s.record)
    ensures Brought(s, digest, key, op, id)
  {
    hide *;
    if op.Sweep? {
      BroughtBySweep(s, digest, key, op, id);
    } else if Moving(op) {
      BroughtOut(s, digest, key, op, id);
    } else {
      BroughtIn(s, digest, key, op, id);
    }
  }

  lemma BroughtOne(digest: Digest, key: Bytes, ops: seq<Op>, k: nat, id: Id)
    requires k < |ops|
    ensures var to := Bringing(digest, key, ops, id)(k);
            StandingOf(After(digest, key, ops, k + 1).record, id)
            == if to.Just? then to.value else StandingOf(After(digest, key, ops, k).record, id)
  {
    OneOn(digest, key, ops, k);
    NoCauseRun(digest, key, ops[..k]);
    assert After(digest, key, ops, k) == Run(digest, key, ops[..k]);
    BroughtStep(After(digest, key, ops, k), digest, key, ops[k], id);
    hide Apply, After, Inv, NoCauseYet, StandingOf, Brings, Run;
  }

  /** A unit is in the state, and for the cause, that the last operation taken brought it to: asked for, started,
      registered, drained, retired, found unreachable while admitting or unhealthy, or swept when it had been silent
      for too long. */
  lemma StandsAsLastBrought(digest: Digest, key: Bytes, ops: seq<Op>, id: Id)
    ensures StandingOf(Run(digest, key, ops).record, id) == Last(Bringing(digest, key, ops, id), Outside, |ops|)
  {
    assert StandingOf(Record(map[], []), id) == Outside;
    hide *;
    AllOfThem(digest, key, ops);
    forall k: nat | k < |ops|
      ensures var to := Bringing(digest, key, ops, id)(k);
              StandingOf(After(digest, key, ops, k + 1).record, id)
              == if to.Just? then to.value else StandingOf(After(digest, key, ops, k).record, id) {
      BroughtOne(digest, key, ops, k, id);
    }
    FollowsTheLast((k: nat) => StandingOf(After(digest, key, ops, k).record, id), Bringing(digest, key, ops, id),
                   |ops|);
  }

  // ---------------------------------------------------------------- what is taken, and what is refused for what

  /** What an operation about a unit is answered, where only how far the unit has come decides it. */
  function Expected(at: Standing, op: Op): Reply
  {
    match op
    case Request(_) => if at.Outside? then Reply.Done else Refused(Duplicate)
    case Listed(_) => if at.Outside? then Reply.Done else Refused(Duplicate)
    case _ =>
      if at.Outside? then Refused(UnknownUnit)
      else
        var permitted :=
          match op
          case Started(_) => at.state == State.Requested
          case Drain(_, _) => at.state == State.Admitting
          case Retire(_, _) => at.state != State.Gone
          case Commit(_, _) => at.state == State.Admitting
          case _ => true;
        if permitted then Reply.Done else Refused(IllegalTransition)
  }

  predicate AboutAUnit(op: Op)
  {
    !op.Register? && !op.Sweep? && !op.CollectSnapshot? && !op.CollectAnswer? && !op.CollectNoAnswer?
  }

  /** Every operation about a unit is answered by what the history brought that unit to: one outside the pool is
      unknown, one in it is not entered again, and a move is made exactly from the state it leaves. A load has to be
      one, and an identifier is needed. */
  lemma AnsweredByStanding(digest: Digest, key: Bytes, ops: seq<Op>, op: Op, asked: Id)
    requires AboutAUnit(op)
    ensures Apply(Run(digest, key, ops).record, digest, key, op, asked).1
            == if (op.Report? || op.Commit?) && op.load < 0.0 then Refused(NotALoad)
               else if op.id == [] then Refused(Empty)
               else Expected(Last(Bringing(digest, key, ops, op.id), Outside, |ops|), op)
  {
    StandsAsLastBrought(digest, key, ops, op.id);
    hide Run, Bringing, Last;
  }

  /** A registration is answered the same way, once it names a unit and hands over a port and a proof that is good; the
      unit has to be starting and last found reachable. */
  lemma RegistersByStanding(digest: Digest, key: Bytes, ops: seq<Op>, reg: Registration, port: Port, now: int)
    ensures var good := reg.proof == Proof(digest, key, reg.unit, reg.issuedAt)
                        && reg.issuedAt - MAX_PROOF_AGE <= now <= reg.issuedAt + MAX_PROOF_AGE;
            var at := Last(Bringing(digest, key, ops, reg.unit), Outside, |ops|);
            RegisterOf(Run(digest, key, ops).record, digest, key, reg, port, now).1
            == if reg.unit == [] then Refused(Empty)
               else if port.NoPort? then Refused(MissingPort)
               else if !good then Refused(BadProof)
               else if at.Outside? then Refused(UnknownUnit)
               else if at.state == State.Starting && Last(Reaching(digest, key, ops, reg.unit), false, |ops|) then
                 Reply.Done
               else Refused(IllegalTransition)
  {
    StandsAsLastBrought(digest, key, ops, reg.unit);
    FoundAsLastTold(digest, key, ops, reg.unit);
    hide Run, Bringing, Reaching, Checking, Joining, Last, Proof;
  }

  // ---------------------------------------------------------------- the pool as a whole

  /** The operation enters a unit that is not in the pool. */
  predicate Enters(r: Record, op: Op)
  {
    (op.Request? || op.Listed?) && op.id != [] && op.id !in r.units
  }

  /** The units in the order they entered. */
  function Entered(digest: Digest, key: Bytes, ops: seq<Op>): seq<Id>
  {
    if ops == [] then []
    else
      var past, op := ops[..|ops| - 1], ops[|ops| - 1];
      Entered(digest, key, past) + if Enters(Run(digest, key, past).record, op) then [op.id] else []
  }

  lemma OrderStep(r: Record, digest: Digest, key: Bytes, op: Op, asked: Id)
    ensures Apply(r, digest, key, op, asked).0.order
            == r.order + if Enters(r, op) then [op.id] else []
  {
    hide Proof;
  }

  /** What the pool lists, it lists in the order the units entered. */
  lemma {:induction false} ListedAsEntered(digest: Digest, key: Bytes, ops: seq<Op>)
    ensures Run(digest, key, ops).record.order == Entered(digest, key, ops)
  {
    if ops != [] {
      var past, op := ops[..|ops| - 1], ops[|ops| - 1];
      ListedAsEntered(digest, key, past);
      RunUnfolds(digest, key, ops);
      var s := Run(digest, key, past);
      OrderStep(s.record, digest, key, op, Asked(s, op));
      hide Run, Apply;
    }
  }

  /** One comes before the other. */
  ghost predicate Precedes(ids: seq<Id>, x: Id, y: Id)
  {
    exists i: nat, j: nat :: i < j < |ids| && ids[i] == x && ids[j] == y
  }

  lemma PrecedesOneMore(ids: seq<Id>, last: Id, x: Id, y: Id)
    ensures Precedes(ids + [last], x, y) <==> Precedes(ids, x, y) || (last == y && x in ids)
  {
    var all := ids + [last];
    if Precedes(all, x, y) {
      var i: nat, j: nat :| i < j < |all| && all[i] == x && all[j] == y;
      assert all[i] == ids[i];
      assert j < |ids| ==> ids[j] == all[j];
    }
    if Precedes(ids, x, y) {
      var i: nat, j: nat :| i < j < |ids| && ids[i] == x && ids[j] == y;
      assert all[i] == x && all[j] == y;
    }
    if last == y && x in ids {
      var i: nat :| i < |ids| && ids[i] == x;
      assert all[i] == x && all[|ids|] == y;
    }
  }

  lemma {:induction false} StaleInOrder(r: Record, ids: seq<Id>, olderThan: int, now: int, x: Id, y: Id)
    ensures Precedes(StaleOf(r, ids, olderThan, now), x, y) <==>
              && Precedes(ids, x, y) && x in r.units && Stale(r.units[x], olderThan, now)
              && y in r.units && Stale(r.units[y], olderThan, now)
  {
    if ids != [] {
      var past, last := ids[..|ids| - 1], ids[|ids| - 1];
      StaleInOrder(r, past, olderThan, now, x, y);
      StaleElements(r, past, olderThan, now, x);
      assert ids == past + [last];
      PrecedesOneMore(past, last, x, y);
      var stale := StaleOf(r, past, olderThan, now);
      PrecedesOneMore(stale, last, x, y);
      assert stale + [] == stale;
      hide Precedes, Stale;
    }
  }

  lemma {:induction false} AskedElements(r: Record, ids: seq<Id>, x: Id)
    ensures x in ToAsk(r, ids) <==> x in ids && x in r.units && Askable(r.units[x])
  {
    if ids != [] {
      AskedElements(r, ids[..|ids| - 1], x);
      hide Askable;
    }
  }

  lemma {:induction false} AskedInOrder(r: Record, ids: seq<Id>, x: Id, y: Id)
    ensures Precedes(ToAsk(r, ids), x, y) <==>
              && Precedes(ids, x, y) && x in r.units && Askable(r.units[x]) && y in r.units && Askable(r.units[y])
  {
    if ids != [] {
      var past, last := ids[..|ids| - 1], ids[|ids| - 1];
      AskedInOrder(r, past, x, y);
      AskedElements(r, past, x);
      assert ids == past + [last];
      PrecedesOneMore(past, last, x, y);
      PrecedesOneMore(ToAsk(r, past), last, x, y);
      assert ToAsk(r, past) + [] == ToAsk(r, past);
      hide Precedes, Askable;
    }
  }

  /** A sweep and a collection concern the units in the order they entered: one is retired, or asked, before another
      exactly when both are and it entered first. In any reachable pool the units asked are those that serve. */
  lemma InTheOrderEntered(digest: Digest, key: Bytes, ops: seq<Op>, olderThan: int, now: int, x: Id, y: Id)
    ensures var r := Run(digest, key, ops).record;
            var entered, stale := Entered(digest, key, ops), StaleOf(r, r.order, olderThan, now);
            var ask := ToAsk(r, r.order);
            && (Precedes(stale, x, y) <==> Precedes(entered, x, y) && x in stale && y in stale)
            && (Precedes(ask, x, y) <==> Precedes(entered, x, y) && Serves(r, x) && Serves(r, y))
            && (x in ask <==> Serves(r, x))
  {
    var r := Run(digest, key, ops).record;
    ListedAsEntered(digest, key, ops);
    RunKeeps(digest, key, ops);
    assert forall z :: (z in r.units ==> Sound(r.units[z])) && (z in r.units <==> z in r.order);
    StaleInOrder(r, r.order, olderThan, now, x, y);
    StaleElements(r, r.order, olderThan, now, x);
    StaleElements(r, r.order, olderThan, now, y);
    AskedInOrder(r, r.order, x, y);
    AskedElements(r, r.order, x);
    hide Run, Stale, Precedes, StaleOf, ToAsk, Inv, Consistent;
    assert forall z :: Serves(r, z) <==> z in r.units && Askable(r.units[z]);
  }
}
