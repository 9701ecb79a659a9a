/** The placer: `internal/placement/placement.go`. Loads are non-negative reals. */
module Placement {
  import opened Ids

  /** From this load on nothing is placed on a unit. */
  const ELIGIBILITY_CEILING: real := 0.90

  datatype State = Admitting | Draining | Gone

  datatype Row = Row(id: Id, load: real, reportedAt: int, state: State)

  datatype Error = Empty | NotALoad | Duplicate | NoCeiling

  datatype Made<T> = Refused(why: Error) | Made(value: T)

  /** Rows need an identifier and a load that is one. States outside the three have no value here. */
  function NewUnit(id: Id, load: real, reportedAt: int, state: State): Made<Row>
  {
    if id == [] then Refused(Empty)
    else if load < 0.0 then Refused(NotALoad)
    else Made(Row(id, load, reportedAt, state))
  }

  /** A row is made exactly of an identifier and a load that is one, and says what it was made of. */
  lemma MadeExactlyWhen(id: Id, load: real, reportedAt: int, state: State)
    ensures NewUnit(id, load, reportedAt, state).Made? <==> id != [] && load >= 0.0
    ensures NewUnit(id, load, reportedAt, state).Made? ==>
              NewUnit(id, load, reportedAt, state).value == Row(id, load, reportedAt, state)
    ensures NewUnit(id, load, reportedAt, state) == Refused(NotALoad) <==> id != [] && load < 0.0
    ensures NewUnit(id, load, reportedAt, state) == Refused(Empty) <==> id == []
  {
  }

  function IdsOf(rows: seq<Row>): (r: seq<Id>)
    ensures |r| == |rows|
  {
    seq(|rows|, i requires 0 <= i < |rows| => rows[i].id)
  }

  predicate Distinct(ids: seq<Id>)
  {
    forall i, j :: 0 <= i < j < |ids| ==> ids[i] != ids[j]
  }

  /** Rows are refused exactly when an identifier is empty or held twice, and kept as they were given. */
  method NewPool(rows: seq<Row>) returns (r: Made<seq<Row>>)
    ensures r.Made? <==> [] !in IdsOf(rows) && Distinct(IdsOf(rows))
    ensures r.Made? ==> r.value == rows
    ensures r.Refused? ==> (r.why == Empty && [] in IdsOf(rows)) || (r.why == Duplicate && !Distinct(IdsOf(rows)))
  {
    var held: set<Id> := {};
    for i := 0 to |rows|
      invariant forall id :: id in held <==> id in IdsOf(rows)[..i]
      invariant [] !in IdsOf(rows)[..i] && Distinct(IdsOf(rows)[..i])
    {
      ghost var all := IdsOf(rows);
      assert all[i] == rows[i].id && all[..i + 1] == all[..i] + [all[i]];
      if rows[i].id == [] {
        return Refused(Empty);
      }
      if rows[i].id in held {
        return Refused(Duplicate);
      }
      held := held + {rows[i].id};
    }
    assert IdsOf(rows)[..|rows|] == IdsOf(rows);
    return Made(rows);
  }

  /** Which units already carry the conference, and how many it may occupy. What the rows say beside the unit
      is carried and not read. */
  datatype Carrying = Carrying(unit: Id, participants: nat, publishedBitrate: real)

  datatype Conference = Conference(id: Id, unitCeiling: int, carrying: seq<Carrying>)

  function UnitsOf(cs: seq<Carrying>): (r: seq<Id>)
    ensures |r| == |cs|
  {
    seq(|cs|, i requires 0 <= i < |cs| => cs[i].unit)
  }

  method NewConference(id: Id, unitCeiling: int, carrying: seq<Carrying>) returns (r: Made<Conference>)
    ensures r.Made? <==> id != [] && unitCeiling >= 1 && [] !in UnitsOf(carrying) && Distinct(UnitsOf(carrying))
    ensures r.Made? ==> r.value == Conference(id, unitCeiling, carrying)
    ensures r.Refused? ==>
              || (r.why == Empty && (id == [] || [] in UnitsOf(carrying)))
              || (r.why == NoCeiling && unitCeiling < 1)
              || (r.why == Duplicate && !Distinct(UnitsOf(carrying)))
  {
    if id == [] {
      return Refused(Empty);
    }
    if unitCeiling < 1 {
      return Refused(NoCeiling);
    }
    var held: set<Id> := {};
    for i := 0 to |carrying|
      invariant forall u :: u in held <==> u in UnitsOf(carrying)[..i]
      invariant [] !in UnitsOf(carrying)[..i] && Distinct(UnitsOf(carrying)[..i])
    {
      ghost var all := UnitsOf(carrying);
      assert all[i] == carrying[i].unit && all[..i + 1] == all[..i] + [all[i]];
      if carrying[i].unit == [] {
        return Refused(Empty);
      }
      if carrying[i].unit in held {
        return Refused(Duplicate);
      }
      held := held + {carrying[i].unit};
    }
    assert UnitsOf(carrying)[..|carrying|] == UnitsOf(carrying);
    return Made(Conference(id, unitCeiling, carrying));
  }

  // ---------------------------------------------------------------- the order over eligible units

  predicate Eligible(u: Row)
  {
    u.state == Admitting && u.load < ELIGIBILITY_CEILING
  }

  predicate Prefer(a: Row, b: Row)
  {
    if a.load != b.load then a.load < b.load else Less(a.id, b.id)
  }

  /** Which units a question considers: all of them, those in a set, or those outside it. */
  datatype Among = Anywhere | On(units: set<Id>) | Off(units: set<Id>)

  predicate Considers(a: Among, id: Id)
  {
    match a
    case Anywhere => true
    case On(units) => id in units
    case Off(units) => id !in units
  }

  predicate Candidate(u: Row, among: Among)
  {
    Eligible(u) && Considers(among, u.id)
  }

  datatype Choice = Nobody | Found(unit: Row)

  /** What the search has after looking at the rows in order. */
  function LowestOf(rows: seq<Row>, among: Among): (best: Choice)
    ensures best.Found? ==> best.unit in rows && Candidate(best.unit, among)
  {
    if rows == [] then Nobody
    else
      var best, u := LowestOf(rows[..|rows| - 1], among), rows[|rows| - 1];
      if Candidate(u, among) && (best.Nobody? || Prefer(u, best.unit)) then Found(u) else best
  }

  method Lowest(rows: seq<Row>, among: Among) returns (best: Choice)
    ensures best == LowestOf(rows, among)
  {
    best := Nobody;
    for i := 0 to |rows|
      invariant best == LowestOf(rows[..i], among)
    {
      assert rows[..i + 1][..i] == rows[..i];
      var u := rows[i];
      if !Eligible(u) || !Considers(among, u.id) {
        continue;
      }
      if best.Nobody? || Prefer(u, best.unit) {
        best := Found(u);
      }
    }
    assert rows[..|rows|] == rows;
  }

  datatype Reason = NoUnits | NoEligibleUnit | ReachedUnitCeiling

  datatype Answer = Place(unit: Id) | Refuse(reason: Reason)

  function ConferencePlace(rows: seq<Row>): Answer
  {
    if rows == [] then Refuse(NoUnits)
    else
      match LowestOf(rows, Anywhere)
      case Found(u) => Place(u.id)
      case Nobody => Refuse(NoEligibleUnit)
  }

  function UnitSet(c: Conference): set<Id>
  {
    set r | r in c.carrying :: r.unit
  }

  function ParticipantPlace(rows: seq<Row>, c: Conference): Answer
  {
    if rows == [] then Refuse(NoUnits)
    else
      match LowestOf(rows, On(UnitSet(c)))
      case Found(u) => Place(u.id)
      case Nobody =>
        if |c.carrying| >= c.unitCeiling then Refuse(ReachedUnitCeiling)
        else
          match LowestOf(rows, Off(UnitSet(c)))
          case Found(u) => Place(u.id)
          case Nobody => Refuse(NoEligibleUnit)
  }

  method PlaceConference(rows: seq<Row>) returns (a: Answer)
    ensures a == ConferencePlace(rows)
  {
    if |rows| == 0 {
      return Refuse(NoUnits);
    }
    var best := Lowest(rows, Anywhere);
    return if best.Found? then Place(best.unit.id) else Refuse(NoEligibleUnit);
  }

  method PlaceParticipant(rows: seq<Row>, c: Conference) returns (a: Answer)
    ensures a == ParticipantPlace(rows, c)
  {
    if |rows| == 0 {
      return Refuse(NoUnits);
    }
    var on: set<Id> := {};
    for i := 0 to |c.carrying|
      invariant on == set r | r in c.carrying[..i] :: r.unit
    {
      on := on + {c.carrying[i].unit};
    }
    assert c.carrying[..|c.carrying|] == c.carrying;
    var best := Lowest(rows, On(on));
    if best.Found? {
      return Place(best.unit.id);
    }
    if |c.carrying| >= c.unitCeiling {
      return Refuse(ReachedUnitCeiling);
    }
    best := Lowest(rows, Off(on));
    return if best.Found? then Place(best.unit.id) else Refuse(NoEligibleUnit);
  }

  // ---------------------------------------------------------------- the answer is the one minimum

  /** `u` is a candidate and every other candidate comes after it. */
  ghost predicate Minimum(rows: seq<Row>, among: Among, u: Row)
  {
    u in rows && Candidate(u, among) && forall v | v in rows && Candidate(v, among) && v != u :: Prefer(u, v)
  }

  lemma PreferTransitive(a: Row, b: Row, c: Row)
    requires Prefer(a, b) && Prefer(b, c)
    ensures Prefer(a, c)
  {
    if a.load == b.load == c.load {
      LessTransitive(a.id, b.id, c.id);
    }
  }

  lemma PreferTotal(a: Row, b: Row)
    ensures a.id == b.id || Prefer(a, b) || Prefer(b, a)
    ensures Prefer(a, b) ==> !Prefer(b, a)
  {
    LessTotal(a.id, b.id);
    if Less(a.id, b.id) {
      LessAsymmetric(a.id, b.id);
    }
  }

  lemma DistinctPrefix(rows: seq<Row>)
    requires rows != [] && Distinct(IdsOf(rows))
    ensures Distinct(IdsOf(rows[..|rows| - 1]))
    ensures forall v | v in rows[..|rows| - 1] :: v.id != rows[|rows| - 1].id
  {
    var n := |rows| - 1;
    assert forall i | 0 <= i < n :: IdsOf(rows)[i] == rows[i].id && IdsOf(rows)[i] != IdsOf(rows)[n];
    assert IdsOf(rows[..n]) == IdsOf(rows)[..n];
  }

  lemma {:induction false} LowestIsMinimum(rows: seq<Row>, among: Among)
    requires Distinct(IdsOf(rows))
    ensures LowestOf(rows, among).Found? ==> Minimum(rows, among, LowestOf(rows, among).unit)
    ensures LowestOf(rows, among).Nobody? ==> forall v | v in rows :: !Candidate(v, among)
  {
    if rows != [] {
      var n := |rows| - 1;
      var past, u := rows[..n], rows[n];
      DistinctPrefix(rows);
      LowestIsMinimum(past, among);
      var best := LowestOf(past, among);
      hide IdsOf, Distinct, Candidate;
      assert forall v :: v in rows <==> v in past || v == u;
      if best.Found? {
        PreferTotal(u, best.unit);
        forall v | v in past && Candidate(v, among) && v != best.unit && Prefer(u, best.unit) ensures Prefer(u, v) {
          PreferTransitive(u, best.unit, v);
        }
      }
    }
  }

  /** The search finds a unit exactly when it is the minimum of the candidates by load and then by identifier,
      and finds nobody exactly when there is no candidate. */
  lemma LowestExactly(rows: seq<Row>, among: Among, u: Row)
    requires Distinct(IdsOf(rows))
    ensures LowestOf(rows, among) == Found(u) <==> Minimum(rows, among, u)
    ensures LowestOf(rows, among) == Nobody <==> forall v | v in rows :: !Candidate(v, among)
  {
    LowestIsMinimum(rows, among);
    var best := LowestOf(rows, among);
    if best.Found? {
      PreferTotal(u, best.unit);
    }
  }

  /** Both placements are functions of the set of rows. */
  lemma RowOrderDoesNotMatter(rows: seq<Row>, others: seq<Row>, c: Conference)
    requires Distinct(IdsOf(rows)) && Distinct(IdsOf(others)) && forall u :: u in rows <==> u in others
    ensures ConferencePlace(rows) == ConferencePlace(others)
    ensures ParticipantPlace(rows, c) == ParticipantPlace(others, c)
  {
    if rows != [] {
      assert rows[0] in others;
    }
    if others != [] {
      assert others[0] in rows;
    }
    SameLowest(rows, others, Anywhere);
    SameLowest(rows, others, On(UnitSet(c)));
    SameLowest(rows, others, Off(UnitSet(c)));
    hide LowestOf;
  }

  lemma SameLowest(rows: seq<Row>, others: seq<Row>, among: Among)
    requires Distinct(IdsOf(rows)) && Distinct(IdsOf(others)) && forall u :: u in rows <==> u in others
    ensures LowestOf(rows, among) == LowestOf(others, among)
  {
    LowestIsMinimum(rows, among);
    LowestIsMinimum(others, among);
    var best := LowestOf(rows, among);
    if best.Found? {
      LowestExactly(others, among, best.unit);
    }
  }

  /** A conference goes to the eligible unit with the lowest load, ties by identifier, or is refused. */
  lemma ConferencePlaceExactly(rows: seq<Row>)
    requires Distinct(IdsOf(rows))
    ensures match ConferencePlace(rows)
            case Place(id) => exists u :: Minimum(rows, Anywhere, u) && u.id == id
            case Refuse(NoUnits) => rows == []
            case Refuse(NoEligibleUnit) => rows != [] && forall v | v in rows :: !Eligible(v)
            case Refuse(ReachedUnitCeiling) => false
  {
    LowestIsMinimum(rows, Anywhere);
  }

  ghost predicate SomeEligible(rows: seq<Row>, among: Among)
  {
    exists v :: v in rows && Candidate(v, among)
  }

  /** A participant goes to the best unit already carrying the conference; to the best other unit only when no
      carrying unit is eligible and the conference is below its ceiling; and each refusal says which failed. */
  lemma ParticipantPlaceExactly(rows: seq<Row>, c: Conference)
    requires Distinct(IdsOf(rows))
    ensures var on, off := On(UnitSet(c)), Off(UnitSet(c));
            match ParticipantPlace(rows, c)
            case Place(id) =>
              if id in UnitSet(c) then exists u :: Minimum(rows, on, u) && u.id == id
              else
                && !SomeEligible(rows, on) && |c.carrying| < c.unitCeiling
                && exists u :: Minimum(rows, off, u) && u.id == id
            case Refuse(NoUnits) => rows == []
            case Refuse(ReachedUnitCeiling) => rows != [] && !SomeEligible(rows, on) && |c.carrying| >= c.unitCeiling
            case Refuse(NoEligibleUnit) =>
              rows != [] && |c.carrying| < c.unitCeiling && forall v | v in rows :: !Eligible(v)
  {
    LowestIsMinimum(rows, On(UnitSet(c)));
    LowestIsMinimum(rows, Off(UnitSet(c)));
    hide LowestOf;
  }

  /** Growing the pool by units that do not carry the conference neither lifts the answer that it has reached
      its unit ceiling nor brings it about. */
  lemma GrowingThePoolDoesNotLiftTheCeiling(rows: seq<Row>, more: seq<Row>, c: Conference)
    requires Distinct(IdsOf(rows + more)) && rows != []
    requires forall u | u in more :: u.id !in UnitSet(c)
    ensures ParticipantPlace(rows, c) == Refuse(ReachedUnitCeiling)
            <==> ParticipantPlace(rows + more, c) == Refuse(ReachedUnitCeiling)
  {
    assert IdsOf(rows) == IdsOf(rows + more)[..|rows|];
    LowestIsMinimum(rows, On(UnitSet(c)));
    LowestIsMinimum(rows + more, On(UnitSet(c)));
    hide LowestOf, IdsOf;
    assert forall u :: u in rows + more <==> u in rows || u in more;
  }

  // ---------------------------------------------------------------- runs of arrivals

  /** The conference after one arrival against a pool: a unit it was not on joins its record. */
  function Arrive(rows: seq<Row>, c: Conference): Conference
  {
    match ParticipantPlace(rows, c)
    case Place(id) => if id in UnitSet(c) then c else c.(carrying := c.carrying + [Carrying(id, 0, 0.0)])
    case Refuse(_) => c
  }

  function Arrivals(pools: seq<seq<Row>>, c: Conference): Conference
  {
    if pools == [] then c else Arrive(pools[|pools| - 1], Arrivals(pools[..|pools| - 1], c))
  }

  lemma ArriveKeeps(rows: seq<Row>, c: Conference)
    requires Distinct(UnitsOf(c.carrying))
    ensures var n := Arrive(rows, c);
            && Distinct(UnitsOf(n.carrying)) && n.unitCeiling == c.unitCeiling && c.carrying <= n.carrying
            && (|n.carrying| == |c.carrying| || |n.carrying| <= c.unitCeiling)
  {
    var n := Arrive(rows, c);
    hide LowestOf;
    forall i | 0 <= i < |c.carrying|
      ensures UnitsOf(n.carrying)[i] == UnitsOf(c.carrying)[i] && c.carrying[i].unit in UnitSet(c) {
      assert c.carrying[i] in c.carrying;
    }
  }

  /** Over any run of arrivals, whatever the pool looks like at each, a conference stays on the units it was on
      and never occupies more than its ceiling allows, or than it did to begin with. */
  lemma {:induction false} OccupiedUnitsAreBounded(pools: seq<seq<Row>>, c: Conference)
    requires Distinct(UnitsOf(c.carrying))
    ensures var n := Arrivals(pools, c);
            && Distinct(UnitsOf(n.carrying)) && n.unitCeiling == c.unitCeiling && c.carrying <= n.carrying
            && |n.carrying| <= (if |c.carrying| >= c.unitCeiling then |c.carrying| else c.unitCeiling)
  {
    if pools != [] {
      OccupiedUnitsAreBounded(pools[..|pools| - 1], c);
      ArriveKeeps(pools[|pools| - 1], Arrivals(pools[..|pools| - 1], c));
    }
  }
}
