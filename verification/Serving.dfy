/** The pool and the placer together, as the exchange uses them: one caller at a time reads the view, places the
    participant and commits its cost, which docs/decisions/placement-seam.md has under one lock. Everything else
    that happens to the pool may come in between. */
module Serving {
  import opened Ids
  import Pool
  import PoolRuns
  import Placement

  datatype Move =
    /** Anything the pool is told, other than a placement. */
    | Told(op: Pool.Op)
    /** A participant of a conference arrives and costs a unit this much. */
    | Arrives(c: Placement.Conference, cost: real)

  function Chosen(r: Pool.Record, c: Placement.Conference): Placement.Answer
    requires Pool.Consistent(r)
  {
    Placement.ParticipantPlace(Pool.ShownRows(Pool.UnitsOf(r)), c)
  }

  /** What one move has the pool do. */
  ghost function OpsOf(r: Pool.Record, m: Move): seq<Pool.Op>
    requires Pool.Consistent(r)
  {
    match m
    case Told(op) => if op.Commit? then [] else [op]
    case Arrives(c, cost) => match Chosen(r, c) { case Place(id) => [Pool.Commit(id, cost)] case Refuse(_) => [] }
  }

  /** A run of moves is a run of the pool. */
  ghost function Ops(digest: Pool.Digest, key: Bytes, moves: seq<Move>): seq<Pool.Op>
  {
    if moves == [] then []
    else
      var past := Ops(digest, key, moves[..|moves| - 1]);
      PoolRuns.LoadsAreLoads(digest, key, past);
      past + OpsOf(Pool.Run(digest, key, past).record, moves[|moves| - 1])
  }

  ghost function After(digest: Pool.Digest, key: Bytes, moves: seq<Move>): (r: Pool.Record)
    ensures Pool.Consistent(r)
  {
    PoolRuns.LoadsAreLoads(digest, key, Ops(digest, key, moves));
    Pool.Run(digest, key, Ops(digest, key, moves)).record
  }

  lemma ShownDistinct(r: Pool.Record)
    requires Pool.Consistent(r)
    ensures Placement.Distinct(Placement.IdsOf(Pool.ShownRows(Pool.UnitsOf(r))))
  {
    Pool.ShownIsAPool(r);
  }

  /** The participant goes to a unit the pool has admitting, below the ceiling by its effective load, and no other
      such unit it could have gone to instead is less loaded. */
  lemma ChosenExactly(r: Pool.Record, c: Placement.Conference, id: Id, other: Id)
    requires Pool.Consistent(r) && Chosen(r, c) == Placement.Place(id)
    ensures id in r.units && r.units[id].state == Pool.Admitting
    ensures r.units[id].EffectiveLoad() < Placement.ELIGIBILITY_CEILING
    ensures var on := Placement.UnitSet(c);
            (other in r.units && r.units[other].state == Pool.Admitting && (id in on ==> other in on))
            ==> r.units[id].EffectiveLoad() <= r.units[other].EffectiveLoad()
    ensures var on := Placement.UnitSet(c);
            (id !in on && other in on && other in r.units && r.units[other].state == Pool.Admitting)
            ==> r.units[other].EffectiveLoad() >= Placement.ELIGIBILITY_CEILING
  {
    var rows := Pool.ShownRows(Pool.UnitsOf(r));
    Pool.ViewExactly(r);
    ShownDistinct(r);
    Placement.ParticipantPlaceExactly(rows, c);
    var on := Placement.UnitSet(c);
    var among := if id in on then Placement.On(on) else Placement.Off(on);
    hide Pool.UnitsOf, Pool.ShownRows, Placement.ParticipantPlace, Pool.Consistent, Placement.UnitSet;
    var u :| Placement.Minimum(rows, among, u) && u.id == id;
    assert u in rows;
    if other in r.units && r.units[other].state == Pool.Admitting {
      assert Pool.Shown(r.units[other]).id == r.units[other].id;
      OtherRow(rows, r, id, other, u, among, on);
    }
  }

  lemma OtherRow(rows: seq<Placement.Row>, r: Pool.Record, id: Id, other: Id, u: Placement.Row, among: Placement.Among,
                 on: set<Id>)
    requires forall v :: v in rows <==> v.id in r.units && Pool.Seen(r.units[v.id]) && v == Pool.Shown(r.units[v.id])
    requires Placement.Minimum(rows, among, u) && u.id == id
    requires among == (if id in on then Placement.On(on) else Placement.Off(on))
    requires other in r.units && r.units[other].state == Pool.Admitting && r.units[other].id == other
    requires id !in on ==> !Placement.SomeEligible(rows, Placement.On(on))
    ensures (id in on ==> other in on) && (id !in on ==> other !in on) ==> u.load <= r.units[other].EffectiveLoad()
    ensures id !in on && other in on ==> r.units[other].EffectiveLoad() >= Placement.ELIGIBILITY_CEILING
  {
    var v := Pool.Shown(r.units[other]);
    assert v.id == other && v in rows;
    if id !in on && other in on && v.load < Placement.ELIGIBILITY_CEILING {
      assert Placement.Candidate(v, Placement.On(on));
    }
  }

  /** A unit that is on its way out, or out. */
  predicate Leaving(r: Pool.Record, id: Id)
  {
    id in r.units && Pool.Rank(r.units[id].state) >= 3
  }

  lemma LeavingIsNotChosen(r: Pool.Record, c: Placement.Conference, id: Id)
    requires Pool.Consistent(r) && Leaving(r, id)
    ensures Chosen(r, c) != Placement.Place(id)
  {
    if Chosen(r, c) == Placement.Place(id) {
      ChosenExactly(r, c, id, id);
    }
  }

  /** A drain or a retirement that was taken, as the unit then is. */
  lemma LeavingStep(digest: Pool.Digest, key: Bytes, ops: seq<Pool.Op>, op: Pool.Op)
    requires op.Drain? || op.Retire?
    requires Pool.Apply(Pool.Run(digest, key, ops).record, digest, key, op, []).1 == Pool.Done
    ensures var n := Pool.Run(digest, key, ops + [op]).record;
            && op.id in n.units && n.units[op.id].cause == op.why
            && n.units[op.id].state == if op.Drain? then Pool.State.Draining else Pool.State.Gone
  {
    PoolRuns.RunUnfoldsBy(digest, key, ops, [op]);
    hide Pool.Run;
  }

  /** Once the pool has taken a drain of a unit, it drains or is gone however the run goes on, for the cause given as
      long as it drains, and is never chosen again; one that was retired is gone for the cause given. */
  lemma WhoLeavesIsNeverChosenAgain(
    digest: Pool.Digest, key: Bytes, ops: seq<Pool.Op>, op: Pool.Op, more: seq<Pool.Op>, c: Placement.Conference)
    requires op.Drain? || op.Retire?
    requires Pool.Apply(Pool.Run(digest, key, ops).record, digest, key, op, []).1 == Pool.Done
    ensures var n := Pool.Run(digest, key, ops + [op] + more).record;
            && Pool.Consistent(n) && op.id in n.units && Chosen(n, c) != Placement.Place(op.id)
            && var u := n.units[op.id];
               && (op.Drain? ==>
                     (u.state == Pool.State.Draining && u.cause == op.why) || u.state == Pool.State.Gone)
               && (op.Retire? ==> u.state == Pool.State.Gone && u.cause == op.why)
  {
    LeavingStep(digest, key, ops, op);
    PoolRuns.OnlyForward(digest, key, ops + [op], more, op.id);
    PoolRuns.LoadsAreLoads(digest, key, ops + [op] + more);
    hide Pool.Run, Pool.Apply, Chosen, Pool.Consistent;
    LeavingIsNotChosen(Pool.Run(digest, key, ops + [op] + more).record, c, op.id);
  }

  /** A commit that follows its own placement is never refused. */
  lemma CommitsAreNeverRefused(digest: Pool.Digest, key: Bytes, moves: seq<Move>, c: Placement.Conference, cost: real,
                               id: Id)
    requires cost >= 0.0 && Chosen(After(digest, key, moves), c) == Placement.Place(id)
    ensures Pool.CommitOf(After(digest, key, moves), id, cost).1 == Pool.Done
  {
    var r := After(digest, key, moves);
    ChosenExactly(r, c, id, id);
    hide After, Chosen;
  }

  /** And adds what the participant costs to what the unit is placed by, and to nothing else. */
  lemma AnArrivalIsCommitted(digest: Pool.Digest, key: Bytes, moves: seq<Move>, c: Placement.Conference, cost: real,
                             id: Id, other: Id)
    requires cost >= 0.0 && Chosen(After(digest, key, moves), c) == Placement.Place(id)
    requires other in After(digest, key, moves).units
    ensures var r, n := After(digest, key, moves), After(digest, key, moves + [Arrives(c, cost)]);
            && other in n.units && n.units[other].state == r.units[other].state
            && n.units[other].EffectiveLoad() == r.units[other].EffectiveLoad() + if other == id then cost else 0.0
  {
    var all, ops := moves + [Arrives(c, cost)], Ops(digest, key, moves);
    assert all[..|all| - 1] == moves;
    var r := After(digest, key, moves);
    ChosenExactly(r, c, id, id);
    assert Ops(digest, key, all) == ops + [Pool.Commit(id, cost)];
    PoolRuns.RunUnfoldsBy(digest, key, ops, [Pool.Commit(id, cost)]);
    ApplyCommit(r, digest, key, id, cost, []);
    hide Pool.Run, Chosen, Ops, Pool.Apply;
  }

  /** No unit is above what it last said of itself and also above the ceiling by more than one participant. */
  ghost predicate Bounded(r: Pool.Record, most: real)
  {
    forall id :: id in r.units ==>
      r.units[id].EffectiveLoad() <= r.units[id].reported
      || r.units[id].EffectiveLoad() <= Placement.ELIGIBILITY_CEILING + most
  }

  ghost predicate Costs(moves: seq<Move>, most: real)
  {
    forall i | 0 <= i < |moves| && moves[i].Arrives? :: 0.0 <= moves[i].cost <= most
  }

  lemma ToldStaysBounded(s: Pool.System, digest: Pool.Digest, key: Bytes, op: Pool.Op, most: real)
    requires Pool.Inv(s.record) && Bounded(s.record, most) && most >= 0.0 && !op.Commit?
    ensures Bounded(Pool.Apply(s.record, digest, key, op, PoolRuns.Asked(s, op)).0, most)
  {
    var n := Pool.Apply(s.record, digest, key, op, PoolRuns.Asked(s, op)).0;
    forall id | id in n.units
      ensures n.units[id].EffectiveLoad() <= n.units[id].reported
              || n.units[id].EffectiveLoad() <= Placement.ELIGIBILITY_CEILING + most
    {
      if id in s.record.units {
        PoolRuns.LoadStep(s, digest, key, op, id);
      } else {
        PoolRuns.FreshLoad(s, digest, key, op, id);
      }
      hide Pool.Apply, PoolRuns.Answers;
    }
  }

  lemma CommitStaysBounded(r: Pool.Record, c: Placement.Conference, id: Id, cost: real, most: real)
    requires Pool.Consistent(r) && Bounded(r, most) && 0.0 <= cost <= most && Chosen(r, c) == Placement.Place(id)
    ensures Bounded(Pool.CommitOf(r, id, cost).0, most)
  {
    ChosenExactly(r, c, id, id);
    hide Chosen;
  }

  lemma ApplyCommit(r: Pool.Record, digest: Pool.Digest, key: Bytes, id: Id, load: real, asked: Id)
    ensures Pool.Apply(r, digest, key, Pool.Commit(id, load), asked) == Pool.CommitOf(r, id, load)
  {
  }

  lemma MoveStaysBounded(digest: Pool.Digest, key: Bytes, ops: seq<Pool.Op>, m: Move, most: real)
    requires Pool.Consistent(Pool.Run(digest, key, ops).record) && Bounded(Pool.Run(digest, key, ops).record, most)
    requires most >= 0.0 && (m.Arrives? ==> 0.0 <= m.cost <= most)
    ensures Bounded(Pool.Run(digest, key, ops + OpsOf(Pool.Run(digest, key, ops).record, m)).record, most)
  {
    hide Pool.Run, Chosen, Bounded, Pool.Inv, Pool.Consistent, Pool.CommitOf, Pool.Apply, PoolRuns.Asked;
    var s := Pool.Run(digest, key, ops);
    PoolRuns.RunUnfoldsBy(digest, key, ops, OpsOf(s.record, m));
    Pool.RunKeeps(digest, key, ops);
    match m
    case Told(op) =>
      if !op.Commit? {
        ToldStaysBounded(s, digest, key, op, most);
      }
    case Arrives(c, cost) =>
      if Chosen(s.record, c).Place? {
        var id := Chosen(s.record, c).unit;
        CommitStaysBounded(s.record, c, id, cost, most);
        ApplyCommit(s.record, digest, key, id, cost, PoolRuns.Asked(s, Pool.Commit(id, cost)));
      }
  }

  /** Over any run, with every participant costing at most `most`, no unit's effective load is above the larger of
      what it last reported and the ceiling and one participant more. */
  lemma {:induction false} LoadsAreBounded(digest: Pool.Digest, key: Bytes, moves: seq<Move>, most: real)
    requires Costs(moves, most) && most >= 0.0
    ensures Bounded(After(digest, key, moves), most)
  {
    if moves == [] {
      assert Pool.Run(digest, key, Ops(digest, key, moves)).record.units == map[];
    } else {
      var past, m := moves[..|moves| - 1], moves[|moves| - 1];
      LoadsAreBounded(digest, key, past, most);
      MoveStaysBounded(digest, key, Ops(digest, key, past), m, most);
      hide Pool.Run, OpsOf, Bounded, Pool.Consistent;
    }
  }

  // ---------------------------------------------------------------- why it has to be serialised

  /** The record after `n` commits of the same cost to one unit. */
  function Stacked(r: Pool.Record, id: Id, cost: real, n: nat): Pool.Record
  {
    if n == 0 then r else Pool.CommitOf(Stacked(r, id, cost, n - 1), id, cost).0
  }

  lemma CommitAdds(r: Pool.Record, id: Id, cost: real)
    requires Pool.Consistent(r) && id in r.units && r.units[id].state == Pool.Admitting && cost >= 0.0
    ensures Pool.CommitOf(r, id, cost).1 == Pool.Done
    ensures var n := Pool.CommitOf(r, id, cost).0;
            && Pool.Consistent(n) && id in n.units && n.units[id].state == Pool.Admitting
            && n.units[id].EffectiveLoad() == r.units[id].EffectiveLoad() + cost
  {
  }

  /** The cost of `n` placements. */
  function Costing(n: nat, cost: real): real
  {
    if n == 0 then 0.0 else Costing(n - 1, cost) + cost
  }

  lemma OneMore(x: real, cost: real)
    ensures (x + 1.0) * cost == x * cost + cost
  {
  }

  lemma {:induction false} CostingIsProduct(n: nat, cost: real)
    ensures Costing(n, cost) == (n as real) * cost
  {
    if n > 0 {
      CostingIsProduct(n - 1, cost);
      OneMore((n - 1) as real, cost);
      assert n as real == (n - 1) as real + 1.0;
    }
  }

  lemma {:induction false} StackedAdds(r: Pool.Record, id: Id, cost: real, n: nat)
    requires Pool.Consistent(r) && id in r.units && r.units[id].state == Pool.Admitting && cost >= 0.0
    ensures var s := Stacked(r, id, cost, n);
            && Pool.Consistent(s) && id in s.units && s.units[id].state == Pool.Admitting
            && s.units[id].EffectiveLoad() == r.units[id].EffectiveLoad() + Costing(n, cost)
  {
    if n > 0 {
      assert Stacked(r, id, cost, n) == Pool.CommitOf(Stacked(r, id, cost, n - 1), id, cost).0;
      assert Costing(n, cost) == Costing(n - 1, cost) + cost;
      hide *;
      StackedAdds(r, id, cost, n - 1);
      CommitAdds(Stacked(r, id, cost, n - 1), id, cost);
    } else {
      assert Stacked(r, id, cost, n) == r;
    }
  }

  /** Placements decided from one view, before any of them is committed, all go to the same unit, and the pool
      takes every commit: with no bound on how far above the ceiling the unit ends. */
  lemma OneViewForManyStacksThem(r: Pool.Record, c: Placement.Conference, id: Id, cost: real, n: nat)
    requires Pool.Consistent(r) && Chosen(r, c) == Placement.Place(id) && cost >= 0.0
    ensures id in r.units && id in Stacked(r, id, cost, n).units
    ensures Stacked(r, id, cost, n).units[id].EffectiveLoad() == r.units[id].EffectiveLoad() + (n as real) * cost
    ensures Pool.CommitOf(Stacked(r, id, cost, n), id, cost).1 == Pool.Done
  {
    ChosenExactly(r, c, id, id);
    StackedAdds(r, id, cost, n);
    CommitAdds(Stacked(r, id, cost, n), id, cost);
    CostingIsProduct(n, cost);
    hide *;
  }
}
