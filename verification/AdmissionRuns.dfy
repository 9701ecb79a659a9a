/** What holds of admissions over whole runs, with the units reached through the desk for every participant and
    otherwise used by the control plane as it likes. Any number of admissions may be under way at once. */
module AdmissionRuns {
  import opened Ids
  import opened Admission
  import MediaFake
  import FabricRuns

  /** The desk and its units, and those let in whom some admission has still to record. */
  datatype System = System(units: MediaFake.Units, outstanding: map<Id, Abandoned>, waiting: seq<Letting>)

  /** An admission is two steps: up to the unit's answer, and the record of what was granted, which the code makes
      under a lock it does not hold in between. Before the unit is asked an admission reads nothing that changes,
      save which units there are, and units are only ever added. */
  datatype Op =
    | Begin(room: Room, m: Message, names: seq<Name>, now: int)
    | Settle(k: nat, later: int)
    | Arrived(p: Id)
    | Sweep(now: int)
    /** Anything the control plane has the units do that is not letting a participant in. */
    | Units(op: FabricRuns.Op)

  datatype Event = Nothing | Heard(asked: Asked) | Settled(grant: Grant)

  predicate Lets(op: FabricRuns.Op)
  {
    op.AdmitPublisher? || op.AdmitSubscriber?
  }

  function Without<T>(xs: seq<T>, k: nat): seq<T>
    requires k < |xs|
  {
    xs[..k] + xs[k + 1..]
  }

  function Apply(s: Seams, st: System, op: Op): (System, Event)
  {
    match op
    case Begin(room, m, names, now) =>
      var (units, asked) := AskOf(st.units, s, room, m, names, now);
      (System(units, st.outstanding, if asked.LetIn? then st.waiting + [asked.letting] else st.waiting), Heard(asked))
    case Settle(k, later) =>
      if k >= |st.waiting| then (st, Nothing)
      else
        var g := GrantOf(s, st.waiting[k], later);
        (System(st.units, st.outstanding[g.participant := Record(g)], Without(st.waiting, k)), Settled(g))
    case Arrived(p) => (st.(outstanding := st.outstanding - {p}), Nothing)
    case Sweep(now) => (st.(outstanding := SweptOf(st.outstanding, now)), Nothing)
    case Units(op) => (if Lets(op) then st else st.(units := FabricRuns.Apply(st.units, op).0), Nothing)
  }

  function Run(s: Seams, ops: seq<Op>): System
  {
    if ops == [] then System(map[], map[], []) else Apply(s, Run(s, ops[..|ops| - 1]), ops[|ops| - 1]).0
  }

  lemma RunUnfolds(s: Seams, ops: seq<Op>)
    requires ops != []
    ensures Run(s, ops) == Apply(s, Run(s, ops[..|ops| - 1]), ops[|ops| - 1]).0
  {
    hide Apply;
  }

  /** The two steps one after the other are the whole admission, as `Admission.Desk.Admit` makes it. */
  lemma AnAdmissionIsItsTwoSteps(s: Seams, st: System, room: Room, m: Message, names: seq<Name>, now: int, later: int)
    ensures var (next, outcome) := AdmitOf(State(st.units, st.outstanding), s, room, m, names, now, later);
            var (asked, event) := Apply(s, st, Begin(room, m, names, now));
            var (after, settled) := Apply(s, asked, Settle(|st.waiting|, later));
            && event.Heard?
            && (event.asked.Answered? ==>
                  && asked == System(next.units, next.outstanding, st.waiting)
                  && outcome == event.asked.outcome)
            && (event.asked.LetIn? ==>
                  && after == System(next.units, next.outstanding, st.waiting)
                  && settled.Settled? && outcome == Outcome.Granted(settled.grant))
  {
    hide AskOf;
    var asked := Apply(s, st, Begin(room, m, names, now)).0;
    if |asked.waiting| > |st.waiting| {
      assert Without(asked.waiting, |st.waiting|) == st.waiting;
    }
  }

  // ---------------------------------------------------------------- what becomes of a grant

  /** The unit lets the participant in. */
  predicate LetsIn(s: Seams, st: System, op: Op, p: Id)
  {
    op.Begin? && Apply(s, st, op).1.Heard? && Apply(s, st, op).1.asked.LetIn?
    && Apply(s, st, op).1.asked.letting.participant == p
  }

  /** The desk records the participant. */
  predicate Grants(st: System, op: Op, p: Id)
  {
    op.Settle? && op.k < |st.waiting| && st.waiting[op.k].participant == p
  }

  predicate Arrives(st: System, op: Op, p: Id)
  {
    op.Arrived? && op.p == p && p in st.outstanding
  }

  predicate Sweeps(st: System, op: Op, p: Id)
  {
    op.Sweep? && p in st.outstanding && op.now >= st.outstanding[p].deadline
  }

  function Count(b: bool): nat
  {
    if b then 1 else 0
  }

  /** How many of those let in and not yet recorded go by the identifier. */
  function WaitingFor(waiting: seq<Letting>, p: Id): nat
  {
    if waiting == [] then 0
    else WaitingFor(waiting[..|waiting| - 1], p) + Count(waiting[|waiting| - 1].participant == p)
  }

  function LetInCount(s: Seams, ops: seq<Op>, p: Id): nat
  {
    if ops == [] then 0
    else LetInCount(s, ops[..|ops| - 1], p) + Count(LetsIn(s, Run(s, ops[..|ops| - 1]), ops[|ops| - 1], p))
  }

  function GrantedCount(s: Seams, ops: seq<Op>, p: Id): nat
  {
    if ops == [] then 0
    else GrantedCount(s, ops[..|ops| - 1], p) + Count(Grants(Run(s, ops[..|ops| - 1]), ops[|ops| - 1], p))
  }

  /** Grants under an identifier that was outstanding already, which replace it. */
  function Replaced(s: Seams, ops: seq<Op>, p: Id): nat
  {
    if ops == [] then 0
    else
      var st, op := Run(s, ops[..|ops| - 1]), ops[|ops| - 1];
      Replaced(s, ops[..|ops| - 1], p) + Count(p in st.outstanding && Grants(st, op, p))
  }

  function ArrivedCount(s: Seams, ops: seq<Op>, p: Id): nat
  {
    if ops == [] then 0
    else ArrivedCount(s, ops[..|ops| - 1], p) + Count(Arrives(Run(s, ops[..|ops| - 1]), ops[|ops| - 1], p))
  }

  function SweptCount(s: Seams, ops: seq<Op>, p: Id): nat
  {
    if ops == [] then 0
    else SweptCount(s, ops[..|ops| - 1], p) + Count(Sweeps(Run(s, ops[..|ops| - 1]), ops[|ops| - 1], p))
  }

  /** One step, for one participant. */
  lemma OutstandingStep(s: Seams, st: System, op: Op, p: Id)
    ensures p in Apply(s, st, op).0.outstanding <==>
              Grants(st, op, p) || (p in st.outstanding && !Arrives(st, op, p) && !Sweeps(st, op, p))
    ensures Grants(st, op, p) ==> !Arrives(st, op, p) && !Sweeps(st, op, p)
    ensures !(Arrives(st, op, p) && Sweeps(st, op, p))
    ensures p in Apply(s, st, op).0.outstanding && !Grants(st, op, p) ==>
            Apply(s, st, op).0.outstanding[p] == st.outstanding[p]
    ensures Grants(st, op, p) ==>
              Apply(s, st, op).0.outstanding[p] == Record(GrantOf(s, st.waiting[op.k], op.later))
              && Apply(s, st, op).1 == Settled(GrantOf(s, st.waiting[op.k], op.later))
  {
    hide AskOf, FabricRuns.Apply, Lets;
  }

  lemma {:induction false} OneFewerWaits(waiting: seq<Letting>, k: nat, p: Id)
    requires k < |waiting|
    ensures WaitingFor(waiting, p) == WaitingFor(Without(waiting, k), p) + Count(waiting[k].participant == p)
  {
    var n := |waiting| - 1;
    if k < n {
      OneFewerWaits(waiting[..n], k, p);
      assert Without(waiting, k)[..n - 1] == Without(waiting[..n], k);
    } else {
      assert Without(waiting, k) == waiting[..n];
    }
  }

  lemma OneMoreWaits(waiting: seq<Letting>, l: Letting, p: Id)
    ensures WaitingFor(waiting + [l], p) == WaitingFor(waiting, p) + Count(l.participant == p)
  {
    assert (waiting + [l])[..|waiting|] == waiting;
  }

  lemma WaitingStep(s: Seams, st: System, op: Op, p: Id)
    ensures WaitingFor(Apply(s, st, op).0.waiting, p) + Count(Grants(st, op, p))
            == WaitingFor(st.waiting, p) + Count(LetsIn(s, st, op, p))
  {
    hide AskOf, FabricRuns.Apply, Lets, WaitingFor, Without;
    match op
    case Begin(room, m, names, now) =>
      var asked := Apply(s, st, op).1.asked;
      if asked.LetIn? {
        OneMoreWaits(st.waiting, asked.letting, p);
      }
    case Settle(k, later) =>
      if k < |st.waiting| {
        OneFewerWaits(st.waiting, k, p);
      }
    case _ =>
  }

  /** Over every run, with any number of admissions under way at once: everybody a unit let in is recorded or has
      still to be, and every grant arrived, was swept, is outstanding or was replaced by one under the same
      identifier; and each is counted once. */
  lemma {:induction false} GrantsAreConserved(s: Seams, ops: seq<Op>, p: Id)
    ensures LetInCount(s, ops, p) == GrantedCount(s, ops, p) + WaitingFor(Run(s, ops).waiting, p)
    ensures GrantedCount(s, ops, p)
            == ArrivedCount(s, ops, p) + SweptCount(s, ops, p) + Replaced(s, ops, p)
               + Count(p in Run(s, ops).outstanding)
  {
    if ops != [] {
      var past, op := ops[..|ops| - 1], ops[|ops| - 1];
      GrantsAreConserved(s, past, p);
      RunUnfolds(s, ops);
      OutstandingStep(s, Run(s, past), op, p);
      WaitingStep(s, Run(s, past), op, p);
      hide Run, Apply, LetsIn, Grants, Arrives, Sweeps, WaitingFor;
    }
  }

  lemma {:induction false} ReplacedOnlyByASecond(s: Seams, ops: seq<Op>, p: Id)
    ensures Replaced(s, ops, p) <= (if GrantedCount(s, ops, p) == 0 then 0 else GrantedCount(s, ops, p) - 1)
  {
    if ops != [] {
      var past := ops[..|ops| - 1];
      ReplacedOnlyByASecond(s, past, p);
      GrantsAreConserved(s, past, p);
      hide Run, Grants, WaitingFor;
    }
  }

  /** With identifiers that are never given out twice, everybody let in is in exactly one place: waiting to be
      recorded, outstanding, arrived or swept; and leaves once. */
  lemma {:induction false} AFreshGrantIsInOnePlace(s: Seams, ops: seq<Op>, p: Id)
    requires LetInCount(s, ops, p) <= 1
    ensures LetInCount(s, ops, p)
            == WaitingFor(Run(s, ops).waiting, p) + Count(p in Run(s, ops).outstanding)
               + ArrivedCount(s, ops, p) + SweptCount(s, ops, p)
  {
    GrantsAreConserved(s, ops, p);
    ReplacedOnlyByASecond(s, ops, p);
    hide Run, LetInCount, GrantedCount, Replaced, ArrivedCount, SweptCount, WaitingFor;
  }

  // ---------------------------------------------------------------- where it comes from

  function EventAt(s: Seams, ops: seq<Op>, i: nat): Event
    requires i < |ops|
  {
    Apply(s, Run(s, ops[..i]), ops[i]).1
  }

  /** The unit asked at `i` let this in. */
  predicate LetInAt(s: Seams, ops: seq<Op>, i: nat, l: Letting)
  {
    i < |ops| && ops[i].Begin? && EventAt(s, ops, i) == Heard(LetIn(l))
  }

  lemma LetInBefore(s: Seams, past: seq<Op>, op: Op, i: nat, l: Letting)
    requires LetInAt(s, past, i, l)
    ensures LetInAt(s, past + [op], i, l)
  {
    assert (past + [op])[..i] == past[..i];
    hide Apply, Run;
  }

  lemma WaitingElements(s: Seams, st: System, op: Op, l: Letting)
    requires l in Apply(s, st, op).0.waiting
    ensures l in st.waiting || (op.Begin? && Apply(s, st, op).1 == Heard(LetIn(l)))
  {
    hide AskOf, FabricRuns.Apply, Lets;
  }

  lemma {:induction false} WaitingWasLetIn(s: Seams, ops: seq<Op>, l: Letting) returns (i: nat)
    requires l in Run(s, ops).waiting
    ensures LetInAt(s, ops, i, l)
  {
    var past, op := ops[..|ops| - 1], ops[|ops| - 1];
    RunUnfolds(s, ops);
    WaitingElements(s, Run(s, past), op, l);
    assert ops == past + [op];
    hide Run, Apply;
    if l in Run(s, past).waiting {
      i := WaitingWasLetIn(s, past, l);
      LetInBefore(s, past, op, i, l);
    } else {
      i := |past|;
    }
  }

  /** What is outstanding is the record of somebody a unit let in at `i`, made at `j` after that, with a deadline one
      window after the record. */
  ghost predicate RecordedAt(s: Seams, ops: seq<Op>, i: nat, j: nat, l: Letting, a: Abandoned)
  {
    && LetInAt(s, ops, i, l) && i < j < |ops| && ops[j].Settle?
    && a == Record(GrantOf(s, l, ops[j].later)) && EventAt(s, ops, j) == Settled(GrantOf(s, l, ops[j].later))
  }

  lemma RecordedBefore(s: Seams, past: seq<Op>, op: Op, i: nat, j: nat, l: Letting, a: Abandoned)
    requires RecordedAt(s, past, i, j, l, a)
    ensures RecordedAt(s, past + [op], i, j, l, a)
  {
    LetInBefore(s, past, op, i, l);
    assert (past + [op])[..j] == past[..j];
    hide Apply, Run, LetInAt;
  }

  lemma {:induction false} OutstandingIsGranted(s: Seams, ops: seq<Op>, p: Id) returns (i: nat, j: nat, l: Letting)
    requires p in Run(s, ops).outstanding
    ensures RecordedAt(s, ops, i, j, l, Run(s, ops).outstanding[p]) && l.participant == p
  {
    var past, op := ops[..|ops| - 1], ops[|ops| - 1];
    RunUnfolds(s, ops);
    OutstandingStep(s, Run(s, past), op, p);
    assert ops == past + [op];
    if Grants(Run(s, past), op, p) {
      l, j := Run(s, past).waiting[op.k], |past|;
      hide Run, Apply, GrantOf, Record;
      i := WaitingWasLetIn(s, past, l);
      LetInBefore(s, past, op, i, l);
    } else {
      hide Apply, Grants, Arrives, Sweeps, Run, RecordedAt;
      i, j, l := OutstandingIsGranted(s, past, p);
      RecordedBefore(s, past, op, i, j, l, Run(s, past).outstanding[p]);
    }
  }

  lemma RecordsBear(s: Seams, l: Letting, later: int)
    ensures var a := Record(GrantOf(s, l, later));
            && a.conference == l.conference && a.participant == l.participant && a.unit == l.unit
            && a.grantedAt == later && a.deadline == a.grantedAt + s.window
  {
  }

  /** A sweep at `now` answers exactly the grants recorded at least a window before that have neither arrived nor been
      swept. */
  lemma SweepsAreExact(s: Seams, ops: seq<Op>, now: int, out: seq<Abandoned>, p: Id)
    requires IsSweep(Run(s, ops).outstanding, now, out)
    ensures (exists a :: a in out && a.participant == p) <==>
              p in Run(s, ops).outstanding && Run(s, ops).outstanding[p].grantedAt + s.window <= now
  {
    if p in Run(s, ops).outstanding {
      var i, j, l := OutstandingIsGranted(s, ops, p);
      RecordsBear(s, l, ops[j].later);
      hide Run, LetInAt, EventAt, Record, GrantOf;
      var a := Run(s, ops).outstanding[p];
      assert a in out <==> now >= a.deadline;
    }
  }
}
