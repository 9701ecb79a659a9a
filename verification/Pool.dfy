/** The units of a deployment, how far each has come and how loaded it says it is:
    `internal/pool/pool.go`. Instants are nanoseconds, loads non-negative reals. */
module Pool {
  import opened Ids
  import opened BigEndian
  import opened Sorting
  import Placement

  const PROOF_VERSION: Byte := 1
  const SECOND := 1_000_000_000
  const MAX_PROOF_AGE := 5 * 60 * SECOND

  datatype State = Requested | Starting | Admitting | Draining | Gone

  datatype Cause =
    | NoCause
    | TheOperatorAsked
    | TheScaleInConditionHeld
    | HealthFailed
    | ReachabilityFailed
    | TheSignalWentStale
    | TheUnitRestarted
    | TheDrainFinished

  /** The handle a unit registered with, if it has. */
  datatype Port = NoPort | Port(handle: nat)

  datatype Row = Row(
    id: Id, state: State, cause: Cause, reachable: bool, healthy: bool,
    reported: real, reportedAt: int, everReported: bool, committed: real, port: Port)
  {
    function EffectiveLoad(): real
    {
      reported + committed
    }
  }

  datatype Error = Empty | Duplicate | UnknownUnit | IllegalTransition | BadProof | MissingPort | NotALoad | NotAnAge

  datatype Reply = Done | Refused(why: Error)

  datatype Record = Record(units: map<Id, Row>, order: seq<Id>)

  datatype Registration = Registration(unit: Id, issuedAt: int, proof: Bytes)

  type Digest = (Bytes, Bytes) -> Bytes

  /** What a registration proof covers. */
  function Payload(unit: Id, issuedAt: int): Bytes
  {
    [PROOF_VERSION] + Put(|unit| % 0x1_0000, 2) + unit + PutInt64(issuedAt / SECOND)
  }

  function Proof(digest: Digest, key: Bytes, unit: Id, issuedAt: int): Bytes
  {
    digest(key, Payload(unit, issuedAt))
  }

  // ---------------------------------------------------------------- the moves

  function Enter(r: Record, id: Id, at: State): (Record, Reply)
  {
    if id == [] then (r, Refused(Empty))
    else if id in r.units then (r, Refused(Duplicate))
    else (Record(r.units[id := Row(id, at, NoCause, false, true, 0.0, 0, false, 0.0, NoPort)], r.order + [id]), Done)
  }

  /** Whether there is a row to change, and if not why. */
  function Missing(r: Record, id: Id): Reply
  {
    if id == [] then Refused(Empty) else if id !in r.units then Refused(UnknownUnit) else Done
  }

  function Keep(r: Record, u: Row): (Record, Reply)
  {
    (r.(units := r.units[u.id := u]), Done)
  }

  function StartedOf(r: Record, id: Id): (Record, Reply)
  {
    if Missing(r, id) != Done then (r, Missing(r, id))
    else if r.units[id].state != Requested then (r, Refused(IllegalTransition))
    else Keep(r, r.units[id].(id := id, state := Starting))
  }

  function ReachableOf(r: Record, id: Id, ok: bool): (Record, Reply)
  {
    if Missing(r, id) != Done then (r, Missing(r, id))
    else
      var u := r.units[id].(id := id, reachable := ok);
      Keep(r, if !ok && u.state == Admitting then u.(state := Draining, cause := ReachabilityFailed) else u)
  }

  function HealthyOf(r: Record, id: Id, ok: bool): (Record, Reply)
  {
    if Missing(r, id) != Done then (r, Missing(r, id))
    else
      var u := r.units[id].(id := id, healthy := ok);
      Keep(r, if !ok && u.state != Gone then u.(state := Gone, cause := HealthFailed) else u)
  }

  function ProofAge(now: int, issuedAt: int): int
  {
    if now - issuedAt < 0 then issuedAt - now else now - issuedAt
  }

  function RegisterOf(r: Record, digest: Digest, key: Bytes, reg: Registration, port: Port, now: int): (Record, Reply)
  {
    if reg.unit == [] then (r, Refused(Empty))
    else if port == NoPort then (r, Refused(MissingPort))
    else if Proof(digest, key, reg.unit, reg.issuedAt) != reg.proof then (r, Refused(BadProof))
    else if ProofAge(now, reg.issuedAt) > MAX_PROOF_AGE then (r, Refused(BadProof))
    else if reg.unit !in r.units then (r, Refused(UnknownUnit))
    else
      var u := r.units[reg.unit].(id := reg.unit);
      if u.state != Starting || !u.reachable then (r, Refused(IllegalTransition))
      else Keep(r, u.(state := Admitting, cause := NoCause, port := port))
  }

  function DrainOf(r: Record, id: Id, why: Cause): (Record, Reply)
  {
    if Missing(r, id) != Done then (r, Missing(r, id))
    else if r.units[id].state != Admitting then (r, Refused(IllegalTransition))
    else Keep(r, r.units[id].(id := id, state := Draining, cause := why))
  }

  function RetireOf(r: Record, id: Id, why: Cause): (Record, Reply)
  {
    if Missing(r, id) != Done then (r, Missing(r, id))
    else if r.units[id].state == Gone then (r, Refused(IllegalTransition))
    else Keep(r, r.units[id].(id := id, state := Gone, cause := why))
  }

  function ReportOf(r: Record, id: Id, load: real, now: int): (Record, Reply)
  {
    if load < 0.0 then (r, Refused(NotALoad))
    else if Missing(r, id) != Done then (r, Missing(r, id))
    else Keep(r, r.units[id].(id := id, reported := load, reportedAt := now, everReported := true, committed := 0.0))
  }

  function CommitOf(r: Record, id: Id, load: real): (Record, Reply)
  {
    if load < 0.0 then (r, Refused(NotALoad))
    else if Missing(r, id) != Done then (r, Missing(r, id))
    else if r.units[id].state != Admitting then (r, Refused(IllegalTransition))
    else Keep(r, r.units[id].(id := id, committed := r.units[id].committed + load))
  }

  predicate Askable(u: Row)
  {
    u.port.Port? && (u.state == Admitting || u.state == Draining)
  }

  /** The test Sweep makes of a row. */
  predicate Stale(u: Row, olderThan: int, now: int)
  {
    && (u.state == Admitting || u.state == Draining)
    && !(u.everReported && now - u.reportedAt <= olderThan)
    && !(!u.everReported && u.port == NoPort)
  }

  function Swept(u: Row, olderThan: int, now: int): Row
  {
    if Stale(u, olderThan, now) then u.(state := Gone, cause := TheSignalWentStale) else u
  }

  /** The stale ones of a list of units, in its order. */
  function StaleOf(r: Record, ids: seq<Id>, olderThan: int, now: int): seq<Id>
  {
    if ids == [] then []
    else
      var last := ids[|ids| - 1];
      StaleOf(r, ids[..|ids| - 1], olderThan, now)
      + (if last in r.units && Stale(r.units[last], olderThan, now) then [last] else [])
  }

  function SweepOf(r: Record, olderThan: int, now: int): Record
  {
    if olderThan <= 0 then r else r.(units := map id | id in r.units :: Swept(r.units[id], olderThan, now))
  }

  /** The map and the order hold the same identifiers, once each, and none is empty. */
  ghost predicate Consistent(r: Record)
  {
    && (forall i, j :: 0 <= i < j < |r.order| ==> r.order[i] != r.order[j])
    && (forall id :: id in r.order <==> id in r.units)
    && (forall id :: id in r.units ==> r.units[id].id == id && id != [])
  }

  predicate RowBefore(a: Row, b: Row)
  {
    Less(a.id, b.id)
  }

  function RowsIn(r: Record, ids: seq<Id>): (rows: seq<Row>)
    requires forall id | id in ids :: id in r.units
    ensures |rows| == |ids| && forall i :: 0 <= i < |ids| ==> ids[i] in r.units && rows[i] == r.units[ids[i]]
  {
    seq(|ids|, i requires 0 <= i < |ids| => assert ids[i] in ids; r.units[ids[i]])
  }

  function UnitsOf(r: Record): seq<Row>
    requires forall id | id in r.order :: id in r.units
  {
    Sort(RowsIn(r, r.order), RowBefore)
  }

  predicate Seen(u: Row)
  {
    u.state == Admitting || u.state == Draining || u.state == Gone
  }

  function Shown(u: Row): Placement.Row
    requires Seen(u)
  {
    Placement.Row(u.id, u.EffectiveLoad(), u.reportedAt,
                  if u.state == Admitting then Placement.Admitting
                  else if u.state == Draining then Placement.Draining else Placement.Gone)
  }

  function ShownRows(rows: seq<Row>): seq<Placement.Row>
  {
    if rows == [] then []
    else ShownRows(rows[..|rows| - 1]) + (if Seen(rows[|rows| - 1]) then [Shown(rows[|rows| - 1])] else [])
  }

  // ---------------------------------------------------------------- the record as the source keeps it

  class Pool {
    const digest: Digest
    const key: Bytes
    var units: map<Id, Row>
    var order: seq<Id>

    ghost function View(): Record
      reads this
    {
      Record(units, order)
    }

    ghost predicate Valid()
      reads this
    {
      Consistent(View())
    }

    constructor (digest: Digest, key: Bytes)
      ensures Valid() && View() == Record(map[], []) && this.digest == digest && this.key == key
    {
      this.digest, this.key, units, order := digest, key, map[], [];
    }

    method EnterAt(id: Id, at: State) returns (reply: Reply)
      requires Valid()
      modifies this
      ensures Valid() && (View(), reply) == Enter(old(View()), id, at)
    {
      if id == [] {
        return Refused(Empty);
      }
      if id in units {
        return Refused(Duplicate);
      }
      units := units[id := Row(id, at, NoCause, false, true, 0.0, 0, false, 0.0, NoPort)];
      order := order + [id];
      return Done;
    }

    method Started(id: Id) returns (reply: Reply)
      requires Valid()
      modifies this`units
      ensures Valid() && (View(), reply) == StartedOf(old(View()), id)
    {
      reply := Missing(Record(units, order), id);
      if reply == Done {
        var u := units[id];
        if u.state != Requested {
          return Refused(IllegalTransition);
        }
        units := units[id := u.(state := Starting)];
      }
    }

    method Reachable(id: Id, ok: bool) returns (reply: Reply)
      requires Valid()
      modifies this`units
      ensures Valid() && (View(), reply) == ReachableOf(old(View()), id, ok)
    {
      reply := Missing(Record(units, order), id);
      if reply == Done {
        var u := units[id].(reachable := ok);
        if !ok && u.state == Admitting {
          u := u.(state := Draining, cause := ReachabilityFailed);
        }
        units := units[id := u];
      }
    }

    method Healthy(id: Id, ok: bool) returns (reply: Reply)
      requires Valid()
      modifies this`units
      ensures Valid() && (View(), reply) == HealthyOf(old(View()), id, ok)
    {
      reply := Missing(Record(units, order), id);
      if reply == Done {
        var u := units[id].(healthy := ok);
        if !ok && u.state != Gone {
          u := u.(state := Gone, cause := HealthFailed);
        }
        units := units[id := u];
      }
    }

    method Register(reg: Registration, port: Port, now: int) returns (reply: Reply)
      requires Valid()
      modifies this`units
      ensures Valid() && (View(), reply) == RegisterOf(old(View()), digest, key, reg, port, now)
    {
      if reg.unit == [] {
        return Refused(Empty);
      }
      if port == NoPort {
        return Refused(MissingPort);
      }
      if Proof(digest, key, reg.unit, reg.issuedAt) != reg.proof {
        return Refused(BadProof);
      }
      var age := now - reg.issuedAt;
      if age < 0 {
        age := -age;
      }
      if age > MAX_PROOF_AGE {
        return Refused(BadProof);
      }
      if reg.unit !in units {
        return Refused(UnknownUnit);
      }
      var u := units[reg.unit];
      if u.state != Starting {
        return Refused(IllegalTransition);
      }
      if !u.reachable {
        return Refused(IllegalTransition);
      }
      units := units[reg.unit := u.(state := Admitting, cause := NoCause, port := port)];
      return Done;
    }

    method Drain(id: Id, why: Cause) returns (reply: Reply)
      requires Valid()
      modifies this`units
      ensures Valid() && (View(), reply) == DrainOf(old(View()), id, why)
    {
      reply := Missing(Record(units, order), id);
      if reply == Done {
        var u := units[id];
        if u.state != Admitting {
          return Refused(IllegalTransition);
        }
        units := units[id := u.(state := Draining, cause := why)];
      }
    }

    method Retire(id: Id, why: Cause) returns (reply: Reply)
      requires Valid()
      modifies this`units
      ensures Valid() && (View(), reply) == RetireOf(old(View()), id, why)
    {
      reply := Missing(Record(units, order), id);
      if reply == Done {
        var u := units[id];
        if u.state == Gone {
          return Refused(IllegalTransition);
        }
        units := units[id := u.(state := Gone, cause := why)];
      }
    }

    method Report(id: Id, load: real, now: int) returns (reply: Reply)
      requires Valid()
      modifies this`units
      ensures Valid() && (View(), reply) == ReportOf(old(View()), id, load, now)
    {
      if load < 0.0 {
        return Refused(NotALoad);
      }
      reply := Missing(Record(units, order), id);
      if reply == Done {
        units := units[id := units[id].(reported := load, reportedAt := now, everReported := true, committed := 0.0)];
      }
    }

    method Commit(id: Id, load: real) returns (reply: Reply)
      requires Valid()
      modifies this`units
      ensures Valid() && (View(), reply) == CommitOf(old(View()), id, load)
    {
      if load < 0.0 {
        return Refused(NotALoad);
      }
      reply := Missing(Record(units, order), id);
      if reply == Done {
        var u := units[id];
        if u.state != Admitting {
          return Refused(IllegalTransition);
        }
        units := units[id := u.(committed := u.committed + load)];
      }
    }

    /** Retires what has gone stale and answers with it in the order it entered the pool. */
    method Sweep(olderThan: int, now: int) returns (reply: Reply, retired: seq<Id>)
      requires Valid()
      modifies this`units
      ensures Valid() && View() == SweepOf(old(View()), olderThan, now)
      ensures reply == if olderThan <= 0 then Refused(NotAnAge) else Done
      ensures retired == if olderThan <= 0 then [] else StaleOf(old(View()), order, olderThan, now)
    {
      retired := [];
      if olderThan <= 0 {
        return Refused(NotAnAge), [];
      }
      ghost var was := View();
      SweepStarts(was, olderThan, now);
      hide Sweeping, Consistent, SweepOf, StaleOf;
      for i := 0 to |order|
        invariant order == was.order && Sweeping(was, units, retired, i, olderThan, now)
      {
        SweepStep(was, units, retired, i, olderThan, now);
        var id := order[i];
        var u := units[id];
        if u.state != State.Admitting && u.state != State.Draining {
          continue;
        }
        if u.everReported && now - u.reportedAt <= olderThan {
          continue;
        }
        if !u.everReported && u.port == NoPort {
          continue;
        }
        units := units[id := u.(state := State.Gone, cause := TheSignalWentStale)];
        retired := retired + [id];
      }
      SweepEnds(was, units, retired, olderThan, now);
      return Done, retired;
    }

    /** The first part of a collection: whom to ask, read in one step under the lock. What each then answers is
        recorded by `Report`, one unit at a time, with the lock free in between; see `Step`. */
    method WhomToAsk() returns (ask: seq<Id>)
      requires Valid()
      ensures ask == ToAsk(View(), order)
    {
      ask := [];
      for i := 0 to |order|
        invariant ask == ToAsk(View(), order[..i])
      {
        assert order[..i + 1][..i] == order[..i];
        var u := units[order[i]];
        if u.port != NoPort && (u.state == State.Admitting || u.state == State.Draining) {
          ask := ask + [order[i]];
        }
      }
      assert order[..|order|] == order;
    }

    method Units() returns (rows: seq<Row>)
      requires Valid()
      ensures rows == UnitsOf(View())
    {
      rows := [];
      for i := 0 to |order|
        invariant rows == RowsIn(View(), order)[..i]
      {
        rows := rows + [units[order[i]]];
      }
      assert RowsIn(View(), order)[..|order|] == RowsIn(View(), order);
      rows := Sort(rows, RowBefore);
    }

    /** The rows the placer has a word for. Building one is refused for an empty identifier or a negative load,
        and the pool for a row given twice, none of which a reachable record produces. */
    method PlacerView() returns (shown: Placement.Made<seq<Placement.Row>>)
      requires Valid()
      ensures (forall id :: id in units ==> units[id].EffectiveLoad() >= 0.0)
              ==> shown == Placement.Made(ShownRows(UnitsOf(View())))
    {
      var rows := Units();
      var out: seq<Placement.Row> := [];
      UnitsElements(View());
      for i := 0 to |rows|
        invariant out == ShownRows(rows[..i])
      {
        assert rows[i] in rows;
        assert rows[..i + 1][..i] == rows[..i];
        if Seen(rows[i]) {
          var u := Shown(rows[i]);
          var made := Placement.NewUnit(u.id, u.load, u.reportedAt, u.state);
          if made.Refused? {
            return Placement.Refused(made.why);
          }
          out := out + [made.value];
        }
      }
      assert rows[..|rows|] == rows;
      ShownIsAPool(View());
      shown := Placement.NewPool(out);
    }
  }

  const MIN_KEY_BYTES := 32

  /** A pool with no units, where the key is long enough. */
  method New(digest: Digest, key: Bytes) returns (p: Pool?)
    ensures p != null <==> |key| >= MIN_KEY_BYTES
    ensures p != null ==> fresh(p) && p.Valid() && p.View() == Record(map[], []) && p.digest == digest && p.key == key
  {
    if |key| < MIN_KEY_BYTES {
      return null;
    }
    p := new Pool(digest, key);
  }

  /** How far a sweep has come: the first `i` rows have been looked at and the others are as they were. */
  ghost predicate SweptUpTo(r: Record, units: map<Id, Row>, i: nat, olderThan: int, now: int)
  {
    && i <= |r.order| && units.Keys == r.units.Keys
    && (forall j :: 0 <= j < i && r.order[j] in units ==>
          units[r.order[j]] == Swept(r.units[r.order[j]], olderThan, now))
    && (forall j :: i <= j < |r.order| && r.order[j] in units ==> units[r.order[j]] == r.units[r.order[j]])
  }

  /** What the loop keeps: how far the rows have been looked at, and which of them were retired. */
  ghost predicate Sweeping(r: Record, units: map<Id, Row>, retired: seq<Id>, i: nat, olderThan: int, now: int)
  {
    Consistent(r) && SweptUpTo(r, units, i, olderThan, now) && retired == StaleOf(r, r.order[..i], olderThan, now)
  }

  lemma SweepStarts(r: Record, olderThan: int, now: int)
    requires Consistent(r)
    ensures Sweeping(r, r.units, [], 0, olderThan, now)
  {
    hide Swept, Consistent;
  }

  lemma SweptOne(r: Record, units: map<Id, Row>, i: nat, olderThan: int, now: int)
    requires Consistent(r) && i < |r.order| && SweptUpTo(r, units, i, olderThan, now)
    ensures var id := r.order[i];
            && id in units && id in r.units && units[id] == r.units[id]
            && SweptUpTo(r, units[id := Swept(r.units[id], olderThan, now)], i + 1, olderThan, now)
  {
    assert r.order[i] in r.order;
    hide Swept;
  }

  lemma StaleOne(r: Record, i: nat, olderThan: int, now: int)
    requires i < |r.order| && r.order[i] in r.units
    ensures StaleOf(r, r.order[..i + 1], olderThan, now)
            == StaleOf(r, r.order[..i], olderThan, now)
               + (if Stale(r.units[r.order[i]], olderThan, now) then [r.order[i]] else [])
  {
    assert r.order[..i + 1][..i] == r.order[..i];
    hide Stale;
  }

  /** One row looked at: retired where it is stale, and left where it is not. */
  lemma SweepStep(r: Record, units: map<Id, Row>, retired: seq<Id>, i: nat, olderThan: int, now: int)
    requires i < |r.order| && Sweeping(r, units, retired, i, olderThan, now)
    ensures r.order[i] in units
    ensures var id := r.order[i];
            var u := units[id];
            if Stale(u, olderThan, now) then
              Sweeping(r, units[id := u.(state := Gone, cause := TheSignalWentStale)], retired + [id],
                       i + 1, olderThan, now)
            else Sweeping(r, units, retired, i + 1, olderThan, now)
  {
    SweptOne(r, units, i, olderThan, now);
    StaleOne(r, i, olderThan, now);
    var id := r.order[i];
    assert Swept(units[id], olderThan, now)
        == if Stale(units[id], olderThan, now) then units[id].(state := Gone, cause := TheSignalWentStale)
           else units[id];
    hide Swept, Stale, StaleOf, SweptUpTo, Consistent;
    assert units[id := units[id]] == units;
  }

  lemma SweepEnds(r: Record, units: map<Id, Row>, retired: seq<Id>, olderThan: int, now: int)
    requires Sweeping(r, units, retired, |r.order|, olderThan, now) && olderThan > 0
    ensures Record(units, r.order) == SweepOf(r, olderThan, now) && Consistent(SweepOf(r, olderThan, now))
    ensures retired == StaleOf(r, r.order, olderThan, now)
  {
    assert r.order[..|r.order|] == r.order;
    EveryRowSwept(r, units, olderThan, now);
    hide StaleOf, Consistent, SweptUpTo, SweepOf;
  }

  lemma EveryRowSwept(r: Record, units: map<Id, Row>, olderThan: int, now: int)
    requires Consistent(r) && SweptUpTo(r, units, |r.order|, olderThan, now) && olderThan > 0
    ensures Record(units, r.order) == SweepOf(r, olderThan, now) && Consistent(SweepOf(r, olderThan, now))
  {
    forall id | id in units ensures units[id] == Swept(r.units[id], olderThan, now) {
      assert id in r.order;
    }
  }

  // ---------------------------------------------------------------- what the views show

  lemma UnitsElements(r: Record)
    requires Consistent(r)
    ensures forall u :: u in UnitsOf(r) <==> u.id in r.units && u == r.units[u.id]
  {
    var rows := RowsIn(r, r.order);
    SameElements(rows, RowBefore);
    forall u: Row ensures u in rows <==> u.id in r.units && u == r.units[u.id] {
      if u.id in r.units && u == r.units[u.id] {
        var i :| 0 <= i < |r.order| && r.order[i] == u.id;
        assert rows[i] == u;
      }
    }
  }

  ghost predicate ById(rows: seq<Row>)
  {
    forall i, j :: 0 <= i < j < |rows| ==> Less(rows[i].id, rows[j].id)
  }

  lemma UnitsById(r: Record)
    requires Consistent(r)
    ensures ById(UnitsOf(r))
  {
    var rows, sorted := RowsIn(r, r.order), UnitsOf(r);
    ByKeyIsStrictWeak((a: Row) => a.id, RowBefore);
    SortInOrder(rows, RowBefore);
    assert NoDuplicates(rows) by {
      assert forall i | 0 <= i < |rows| :: rows[i].id == r.order[i];
    }
    SortNoDuplicates(rows, RowBefore);
    UnitsElements(r);
    hide Sort, UnitsOf, RowsIn;
    forall i, j | 0 <= i < j < |sorted| ensures Less(sorted[i].id, sorted[j].id) {
      assert sorted[i] in sorted && sorted[j] in sorted && !RowBefore(sorted[j], sorted[i]);
      LessTotal(sorted[i].id, sorted[j].id);
    }
  }

  lemma {:induction false} ShownElements(rows: seq<Row>)
    requires ById(rows)
    ensures Ascending(Placement.IdsOf(ShownRows(rows)))
    ensures forall v :: v in ShownRows(rows) <==> exists u :: u in rows && Seen(u) && v == Shown(u)
  {
    if rows != [] {
      var past, u := rows[..|rows| - 1], rows[|rows| - 1];
      ShownElements(past);
      var before, all := ShownRows(past), ShownRows(rows);
      assert forall x :: x in rows <==> x in past || x == u;
      forall i | 0 <= i < |before| ensures Less(before[i].id, u.id) {
        assert before[i] in before;
        var x :| x in past && Seen(x) && before[i] == Shown(x);
      }
      assert forall i | 0 <= i < |before| :: Placement.IdsOf(all)[i] == Placement.IdsOf(before)[i] == before[i].id;
    }
  }

  lemma ShownIsAPool(r: Record)
    requires Consistent(r)
    ensures var ids := Placement.IdsOf(ShownRows(UnitsOf(r))); [] !in ids && Placement.Distinct(ids) && Ascending(ids)
  {
    var rows := ShownRows(UnitsOf(r));
    UnitsById(r);
    UnitsElements(r);
    ShownElements(UnitsOf(r));
    var ids := Placement.IdsOf(rows);
    forall i | 0 <= i < |ids| ensures ids[i] != [] {
      assert rows[i] in rows;
    }
    forall i, j | 0 <= i < j < |ids| ensures ids[i] != ids[j] {
      LessIrreflexive(ids[i]);
    }
  }

  /** The placer sees, by identifier, one row for every admitting, draining or gone unit and no other, carrying
      that unit's effective load. */
  lemma ViewExactly(r: Record)
    requires Consistent(r)
    ensures Ascending(Placement.IdsOf(ShownRows(UnitsOf(r))))
    ensures forall v :: v in ShownRows(UnitsOf(r)) <==>
              v.id in r.units && Seen(r.units[v.id]) && v == Shown(r.units[v.id])
  {
    UnitsById(r);
    UnitsElements(r);
    ShownElements(UnitsOf(r));
    hide UnitsOf, ShownRows;
    forall v: Placement.Row
      ensures v in ShownRows(UnitsOf(r)) <==> v.id in r.units && Seen(r.units[v.id]) && v == Shown(r.units[v.id]) {
      if v.id in r.units && Seen(r.units[v.id]) && v == Shown(r.units[v.id]) {
        assert r.units[v.id] in UnitsOf(r);
      }
    }
  }

  /** The row says of the unit what the placer goes by: its load, when it gave it, and whether it may be chosen. */
  predicate Mirrors(v: Placement.Row, u: Row)
  {
    && v.id == u.id && v.load == u.reported + u.committed && v.reportedAt == u.reportedAt
    && (v.state == Placement.Admitting <==> u.state == State.Admitting)
    && (v.state == Placement.Draining <==> u.state == State.Draining)
  }

  /** So it sees every unit but those asked for and those starting, and each as it is. */
  lemma ViewMirrors(r: Record)
    requires Consistent(r)
    ensures forall v | v in ShownRows(UnitsOf(r)) :: v.id in r.units && Mirrors(v, r.units[v.id])
    ensures forall id | id in r.units ::
              (exists v :: v in ShownRows(UnitsOf(r)) && v.id == id) <==>
                r.units[id].state != State.Requested && r.units[id].state != State.Starting
  {
    ViewExactly(r);
    hide UnitsOf, ShownRows;
    forall id | id in r.units && Seen(r.units[id])
      ensures exists v :: v in ShownRows(UnitsOf(r)) && v.id == id {
      var v := Shown(r.units[id]);
      assert v.id == id && v in ShownRows(UnitsOf(r));
    }
  }

  // ---------------------------------------------------------------- whole runs

  /** The pool together with the collections under way: for each, the units it has still to ask. */
  datatype System = System(record: Record, asking: seq<seq<Id>>)

  datatype Op =
    | Request(id: Id)
    | Listed(id: Id)
    | Started(id: Id)
    | Reachable(id: Id, ok: bool)
    | Healthy(id: Id, ok: bool)
    | Register(reg: Registration, port: Port, now: int)
    | Drain(id: Id, why: Cause)
    | Retire(id: Id, why: Cause)
    | Report(id: Id, load: real, now: int)
    | Commit(id: Id, load: real)
    | Sweep(olderThan: int, now: int)
    | CollectSnapshot
    | CollectAnswer(k: nat, load: real, now: int)
    | CollectNoAnswer(k: nat)

  /** Where a collection goes on: the unit it asks next. */
  function Asking(s: System, k: nat): Id
  {
    if k < |s.asking| && s.asking[k] != [] then s.asking[k][0] else []
  }

  function Apply(r: Record, digest: Digest, key: Bytes, op: Op, asked: Id): (Record, Reply)
  {
    match op
    case Request(id) => Enter(r, id, State.Requested)
    case Listed(id) => Enter(r, id, State.Starting)
    case Started(id) => StartedOf(r, id)
    case Reachable(id, ok) => ReachableOf(r, id, ok)
    case Healthy(id, ok) => HealthyOf(r, id, ok)
    case Register(reg, port, now) => RegisterOf(r, digest, key, reg, port, now)
    case Drain(id, why) => DrainOf(r, id, why)
    case Retire(id, why) => RetireOf(r, id, why)
    case Report(id, load, now) => ReportOf(r, id, load, now)
    case Commit(id, load) => CommitOf(r, id, load)
    case Sweep(olderThan, now) => (SweepOf(r, olderThan, now), if olderThan <= 0 then Refused(NotAnAge) else Done)
    case CollectSnapshot => (r, Done)
    case CollectAnswer(_, load, now) => ReportOf(r, asked, load, now)
    case CollectNoAnswer(_) => (r, Done)
  }

  /** The units of a list that a collection would ask, in its order. */
  function ToAsk(r: Record, ids: seq<Id>): seq<Id>
  {
    if ids == [] then []
    else
      var last := ids[|ids| - 1];
      ToAsk(r, ids[..|ids| - 1]) + (if last in r.units && Askable(r.units[last]) then [last] else [])
  }

  /** One step. A collection reads the rows it will ask in one step under the lock, and then asks and records
      one unit at a time with anything at all in between. */
  function Step(s: System, digest: Digest, key: Bytes, op: Op): System
  {
    var record := Apply(s.record, digest, key, op, if op.CollectAnswer? then Asking(s, op.k) else []).0;
    match op
    case CollectSnapshot => System(record, s.asking + [ToAsk(s.record, s.record.order)])
    case CollectAnswer(k, _, _) => System(record, Onward(s.asking, k))
    case CollectNoAnswer(k) => System(record, Onward(s.asking, k))
    case _ => System(record, s.asking)
  }

  function Onward(asking: seq<seq<Id>>, k: nat): seq<seq<Id>>
  {
    if k < |asking| && asking[k] != [] then asking[k := asking[k][1..]] else asking
  }

  function Run(digest: Digest, key: Bytes, ops: seq<Op>): System
  {
    if ops == [] then System(Record(map[], []), [])
    else Step(Run(digest, key, ops[..|ops| - 1]), digest, key, ops[|ops| - 1])
  }

  /** What state says of the three inputs. */
  ghost predicate Sound(u: Row)
  {
    && (u.state == State.Admitting ==> u.reachable && u.healthy && u.port.Port?)
    && (u.state == State.Draining ==> u.port.Port?)
    && (!u.healthy ==> u.state == State.Gone)
    && u.reported >= 0.0 && u.committed >= 0.0
  }

  ghost predicate Inv(r: Record)
  {
    Consistent(r) && forall id :: id in r.units ==> Sound(r.units[id])
  }

  function Rank(s: State): nat
  {
    match s
    case Requested => 0
    case Starting => 1
    case Admitting => 2
    case Draining => 3
    case Gone => 4
  }

  /** What one step may do to a unit that is already there. */
  ghost predicate Moves(u: Row, v: Row)
  {
    && u.id == v.id
    && Rank(u.state) <= Rank(v.state)
    && (u.state == v.state ==> v.cause == u.cause)
    && (u.state == v.state || v.state == State.Gone || Rank(v.state) == Rank(u.state) + 1)
  }

  /** What one step keeps: every row stays, stays sound, and moves as a row may. */
  ghost predicate Follows(r: Record, n: Record)
  {
    Inv(n) && forall id | id in r.units :: id in n.units && Moves(r.units[id], n.units[id])
  }

  lemma EnterFollows(r: Record, id: Id, at: State)
    requires Inv(r) && (at == State.Requested || at == State.Starting)
    ensures Follows(r, Enter(r, id, at).0)
  {
    var n := Enter(r, id, at).0;
    assert forall x | x in n.order :: x in r.order || x == id;
  }

  lemma KeepFollows(r: Record, u: Row)
    requires Inv(r) && u.id in r.units && Sound(u) && Moves(r.units[u.id], u)
    ensures Follows(r, Keep(r, u).0)
  {
  }

  lemma SweptMoves(u: Row, olderThan: int, now: int)
    requires Sound(u)
    ensures Sound(Swept(u, olderThan, now)) && Moves(u, Swept(u, olderThan, now))
  {
  }

  lemma SweepFollows(r: Record, olderThan: int, now: int)
    requires Inv(r)
    ensures Follows(r, SweepOf(r, olderThan, now))
  {
    forall id | id in r.units
      ensures Sound(Swept(r.units[id], olderThan, now)) && Moves(r.units[id], Swept(r.units[id], olderThan, now)) {
      SweptMoves(r.units[id], olderThan, now);
    }
    forall u ensures Moves(u, u) {
    }
    assert forall u, v | Moves(u, v) :: v.id == u.id;
    hide Swept, Moves, Sound;
  }

  lemma StartFollows(r: Record, id: Id)
    requires Inv(r)
    ensures Follows(r, StartedOf(r, id).0)
  {
    if StartedOf(r, id).1 == Done {
      KeepFollows(r, StartedOf(r, id).0.units[id]);
    }
  }

  lemma LeaveFollows(r: Record, id: Id, why: Cause)
    requires Inv(r)
    ensures Follows(r, DrainOf(r, id, why).0) && Follows(r, RetireOf(r, id, why).0)
  {
    if DrainOf(r, id, why).1 == Done {
      KeepFollows(r, DrainOf(r, id, why).0.units[id]);
    }
    if RetireOf(r, id, why).1 == Done {
      KeepFollows(r, RetireOf(r, id, why).0.units[id]);
    }
  }

  lemma InputFollows(r: Record, id: Id, ok: bool)
    requires Inv(r)
    ensures Follows(r, ReachableOf(r, id, ok).0) && Follows(r, HealthyOf(r, id, ok).0)
  {
    if Missing(r, id) == Done {
      KeepFollows(r, ReachableOf(r, id, ok).0.units[id]);
      KeepFollows(r, HealthyOf(r, id, ok).0.units[id]);
    }
  }

  lemma RegisterFollows(r: Record, digest: Digest, key: Bytes, reg: Registration, port: Port, now: int)
    requires Inv(r)
    ensures Follows(r, RegisterOf(r, digest, key, reg, port, now).0)
  {
    var n := RegisterOf(r, digest, key, reg, port, now).0;
    if n != r {
      KeepFollows(r, n.units[reg.unit]);
    }
    hide Proof;
  }

  lemma AnswerFollows(r: Record, id: Id, load: real, now: int)
    requires Inv(r)
    ensures Follows(r, ReportOf(r, id, load, now).0)
    ensures Follows(r, CommitOf(r, id, load).0)
  {
    if load >= 0.0 && Missing(r, id) == Done {
      KeepFollows(r, ReportOf(r, id, load, now).0.units[id]);
      if r.units[id].state == State.Admitting {
        KeepFollows(r, CommitOf(r, id, load).0.units[id]);
      }
    }
  }

  lemma ApplyFollows(r: Record, digest: Digest, key: Bytes, op: Op, asked: Id)
    requires Inv(r)
    ensures Follows(r, Apply(r, digest, key, op, asked).0)
  {
    match op
    case Request(id) => EnterFollows(r, id, State.Requested);
    case Listed(id) => EnterFollows(r, id, State.Starting);
    case Report(id, load, now) => AnswerFollows(r, id, load, now);
    case Commit(id, load) => AnswerFollows(r, id, load, 0);
    case Sweep(olderThan, now) => SweepFollows(r, olderThan, now);
    case CollectAnswer(_, load, now) => AnswerFollows(r, asked, load, now);
    case Register(reg, port, now) => RegisterFollows(r, digest, key, reg, port, now);
    case CollectSnapshot =>
    case CollectNoAnswer(_) =>
    case Started(id) => StartFollows(r, id);
    case Drain(id, why) => LeaveFollows(r, id, why);
    case Retire(id, why) => LeaveFollows(r, id, why);
    case Reachable(id, ok) => InputFollows(r, id, ok);
    case Healthy(id, ok) => InputFollows(r, id, ok);
  }

  lemma {:induction false} RunKeeps(digest: Digest, key: Bytes, ops: seq<Op>)
    ensures Inv(Run(digest, key, ops).record)
  {
    if ops != [] {
      var past, op := ops[..|ops| - 1], ops[|ops| - 1];
      RunKeeps(digest, key, past);
      var s := Run(digest, key, past);
      ApplyFollows(s.record, digest, key, op, if op.CollectAnswer? then Asking(s, op.k) else []);
      hide Apply, Inv;
    }
  }
}
