/** The join storm: arrivals of equal cost into one conference, one after another, against a pool rebuilt
    after every placement (`internal/placement/placement_test.go`, the storm of the placer's own tests). */
module JoinStorm {
  import opened Ids
  import opened Placement

  /** What the storm carries between arrivals: the load on every unit and the units the room is on. */
  datatype Storm = Storm(loads: map<Id, real>, on: seq<Id>)

  function RowsOf(names: seq<Id>, loads: map<Id, real>): (r: seq<Row>)
    requires forall n | n in names :: n in loads
    ensures |r| == |names|
    ensures forall i :: 0 <= i < |r| ==> r[i] == Row(names[i], loads[names[i]], 0, Admitting)
  {
    seq(|names|, i requires 0 <= i < |names| => Row(names[i], loads[names[i]], 0, Admitting))
  }

  function RoomOf(on: seq<Id>, ceiling: int): (c: Conference)
    ensures |c.carrying| == |on| && c.unitCeiling == ceiling
    ensures UnitSet(c) == set u | u in on
  {
    var c := Conference([0], ceiling, seq(|on|, i requires 0 <= i < |on| => Carrying(on[i], 0, 0.0)));
    assert forall i | 0 <= i < |on| :: c.carrying[i].unit == on[i] && c.carrying[i] in c.carrying;
    c
  }

  predicate Covers(s: Storm, names: seq<Id>)
  {
    forall n | n in names :: n in s.loads
  }

  function AnswerTo(names: seq<Id>, s: Storm, ceiling: int): Answer
    requires Covers(s, names)
  {
    ParticipantPlace(RowsOf(names, s.loads), RoomOf(s.on, ceiling))
  }

  function Place1(s: Storm, id: Id, cost: real): Storm
    requires id in s.loads
  {
    Storm(s.loads[id := s.loads[id] + cost], if id in s.on then s.on else s.on + [id])
  }

  function StormStep(names: seq<Id>, s: Storm, ceiling: int, cost: real): (n: Storm)
    requires Covers(s, names)
    ensures Covers(n, names)
  {
    match AnswerTo(names, s, ceiling)
    case Place(id) => if id in s.loads then Place1(s, id, cost) else s
    case Refuse(_) => s
  }

  function StormAfter(names: seq<Id>, start: Id, ceiling: int, cost: real, i: nat): (s: Storm)
    ensures Covers(s, names)
  {
    if i == 0 then Storm(map n | n in names :: 0.0, [start])
    else StormStep(names, StormAfter(names, start, ceiling, cost, i - 1), ceiling, cost)
  }

  /** What arrival `i`, counted from zero, is answered. */
  function Arrival(names: seq<Id>, start: Id, ceiling: int, cost: real, i: nat): Answer
  {
    AnswerTo(names, StormAfter(names, start, ceiling, cost, i), ceiling)
  }

  // ---------------------------------------------------------------- how many arrivals fill a unit

  /** The ceiling of 0.90 / cost. */
  function FillCount(cost: real): int
    requires cost > 0.0
  {
    -(-(ELIGIBILITY_CEILING / cost)).Floor
  }

  function Load(cost: real, m: int): real
  {
    cost * (m as real)
  }

  lemma LoadAdds(cost: real, m: int)
    ensures Load(cost, m) + cost == Load(cost, m + 1)
    ensures Load(cost, 0) == 0.0
  {
  }

  lemma DivideBack(cost: real)
    requires cost > 0.0
    ensures ELIGIBILITY_CEILING / cost * cost == ELIGIBILITY_CEILING && ELIGIBILITY_CEILING / cost > 0.0
  {
  }

  lemma ProductAgainst(cost: real, q: real, r: real)
    requires cost > 0.0
    ensures q < r ==> cost * q < cost * r
    ensures q >= r ==> cost * q >= cost * r
  {
    assert cost * (r - q) == cost * r - cost * q;
  }

  /** A unit with `m` of the storm's arrivals on it is below the ceiling exactly when m < FillCount(cost). */
  lemma BelowCeilingExactly(cost: real, m: int)
    requires cost > 0.0
    ensures Load(cost, m) < ELIGIBILITY_CEILING <==> m < FillCount(cost)
    ensures FillCount(cost) >= 1
  {
    DivideBack(cost);
    var q := ELIGIBILITY_CEILING / cost;
    ProductAgainst(cost, m as real, q);
    assert m < FillCount(cost) <==> (m as real) < q;
  }

  // ---------------------------------------------------------------- where every arrival lands

  /** `order` is the units in the order the storm fills them: the one the room starts on, then the others by
      identifier. */
  ghost predicate Plan(names: seq<Id>, start: Id, order: seq<Id>)
  {
    && Distinct(names) && Distinct(order) && (forall n :: n in names <==> n in order)
    && order != [] && order[0] == start && Ascending(order[1..])
  }

  function CountOn(k: int, j: nat, r: int, x: nat): int
  {
    if x < j then k else if x == j then r else 0
  }

  /** The first `j` units are full, the next holds `r` arrivals and the others none. */
  ghost predicate Filled(s: Storm, names: seq<Id>, order: seq<Id>, cost: real, j: nat, r: nat)
    requires cost > 0.0
  {
    var k := FillCount(cost);
    && r < k && j <= |order| && (j == |order| ==> r == 0)
    && (forall n :: n in s.loads <==> n in names)
    && (forall x :: 0 <= x < |order| ==> order[x] in s.loads && s.loads[order[x]] == Load(cost, CountOn(k, j, r, x)))
    && s.on == order[..if r > 0 || j == 0 then (if j < |order| then j + 1 else j) else j]
  }

  function RowFor(s: Storm, id: Id): Row
    requires id in s.loads
  {
    Row(id, s.loads[id], 0, Admitting)
  }

  lemma RowsAre(names: seq<Id>, s: Storm)
    requires Distinct(names) && Covers(s, names)
    ensures Distinct(IdsOf(RowsOf(names, s.loads)))
    ensures forall v :: v in RowsOf(names, s.loads) <==> v.id in names && v == RowFor(s, v.id)
  {
    var rows := RowsOf(names, s.loads);
    assert forall i | 0 <= i < |names| :: IdsOf(rows)[i] == names[i];
    forall v: Row | v.id in names && v == RowFor(s, v.id) ensures v in rows {
      var i :| 0 <= i < |names| && names[i] == v.id;
      assert rows[i] == v;
    }
  }

  lemma EligibleExactly(s: Storm, names: seq<Id>, order: seq<Id>, cost: real, j: nat, r: nat, x: nat)
    requires cost > 0.0 && Filled(s, names, order, cost, j, r) && x < |order|
    ensures Eligible(RowFor(s, order[x])) <==> x >= j
  {
    BelowCeilingExactly(cost, CountOn(FillCount(cost), j, r, x));
    hide FillCount, Load;
  }

  /** The rows of the pool are the units of the plan, each eligible exactly when it is not full. */
  lemma PoolIs(names: seq<Id>, start: Id, order: seq<Id>, s: Storm, cost: real, j: nat, r: nat)
    requires cost > 0.0 && Plan(names, start, order) && Filled(s, names, order, cost, j, r)
    ensures Covers(s, names) && Distinct(IdsOf(RowsOf(names, s.loads))) && RowsOf(names, s.loads) != []
    ensures forall x | 0 <= x < |order| ::
              RowFor(s, order[x]) in RowsOf(names, s.loads) && (Eligible(RowFor(s, order[x])) <==> x >= j)
    ensures forall v | v in RowsOf(names, s.loads) :: exists x :: 0 <= x < |order| && v == RowFor(s, order[x])
  {
    RowsAre(names, s);
    hide FillCount, Load, CountOn;
    forall x | 0 <= x < |order|
      ensures RowFor(s, order[x]) in RowsOf(names, s.loads) && (Eligible(RowFor(s, order[x])) <==> x >= j) {
      EligibleExactly(s, names, order, cost, j, r, x);
      assert order[x] in order;
    }
    forall v | v in RowsOf(names, s.loads) ensures exists x :: 0 <= x < |order| && v == RowFor(s, order[x]) {
      assert v.id in order;
      var x :| 0 <= x < |order| && order[x] == v.id;
      assert v == RowFor(s, order[x]);
    }
    assert RowFor(s, order[0]) in RowsOf(names, s.loads);
  }

  /** The unit being filled is on the room, and every other one of the room's is full. */
  lemma LandsOnTheRoom(names: seq<Id>, start: Id, order: seq<Id>, s: Storm, ceiling: int, cost: real, j: nat, r: nat)
    requires cost > 0.0 && Plan(names, start, order) && Filled(s, names, order, cost, j, r)
    requires j < |order| && (r > 0 || j == 0)
    ensures Covers(s, names) && AnswerTo(names, s, ceiling) == Place(order[j])
  {
    PoolIs(names, start, order, s, cost, j, r);
    var rows, room := RowsOf(names, s.loads), RoomOf(s.on, ceiling);
    var u := RowFor(s, order[j]);
    hide LowestOf, RowsOf, RoomOf, FillCount, Load, CountOn;
    assert order[j] in s.on by { assert s.on[j] == order[j]; }
    forall v | v in rows && Candidate(v, On(UnitSet(room))) ensures v == u {
      var x :| 0 <= x < |order| && v == RowFor(s, order[x]);
      InOn(order, j + 1, x);
    }
    LowestExactly(rows, On(UnitSet(room)), u);
  }

  lemma InOn(order: seq<Id>, n: nat, x: nat)
    requires Distinct(order) && n <= |order| && x < |order|
    ensures order[x] in order[..n] <==> x < n
  {
    if x < n {
      assert order[..n][x] == order[x];
    }
  }

  /** Every unit of the room is full and the next one by identifier joins it. */
  lemma LandsOnTheNext(names: seq<Id>, start: Id, order: seq<Id>, s: Storm, ceiling: int, cost: real, j: nat)
    requires cost > 0.0 && Plan(names, start, order) && Filled(s, names, order, cost, j, 0)
    requires 0 < j < |order| && j < ceiling
    ensures Covers(s, names) && AnswerTo(names, s, ceiling) == Place(order[j])
  {
    PoolIs(names, start, order, s, cost, j, 0);
    var rows, room := RowsOf(names, s.loads), RoomOf(s.on, ceiling);
    var u := RowFor(s, order[j]);
    hide LowestOf, RowsOf, RoomOf, FillCount, Load;
    forall v | v in rows && Eligible(v) ensures v.id !in s.on && (v == u || Prefer(u, v)) {
      var x :| 0 <= x < |order| && v == RowFor(s, order[x]);
      InOn(order, j, x);
      assert s.loads[order[x]] == s.loads[order[j]];
      if x > j {
        assert order[1..][j - 1] == order[j] && order[1..][x - 1] == order[x];
      }
    }
    InOn(order, j, j);
    LowestExactly(rows, On(UnitSet(room)), u);
    LowestExactly(rows, Off(UnitSet(room)), u);
  }

  /** Every unit the room may use is full. */
  lemma NowhereToLand(names: seq<Id>, start: Id, order: seq<Id>, s: Storm, ceiling: int, cost: real, j: nat)
    requires cost > 0.0 && Plan(names, start, order) && Filled(s, names, order, cost, j, 0)
    requires 0 < j && (j == |order| <= ceiling || j == ceiling <= |order|)
    ensures Covers(s, names)
    ensures AnswerTo(names, s, ceiling) == Refuse(if ceiling <= |order| then ReachedUnitCeiling else NoEligibleUnit)
  {
    PoolIs(names, start, order, s, cost, j, 0);
    var rows, room := RowsOf(names, s.loads), RoomOf(s.on, ceiling);
    hide LowestOf, RowsOf, RoomOf, FillCount, Load;
    forall v | v in rows && Eligible(v) ensures v.id !in s.on && j < |order| {
      var x :| 0 <= x < |order| && v == RowFor(s, order[x]);
      InOn(order, j, x);
    }
    LowestExactly(rows, On(UnitSet(room)), rows[0]);
    LowestExactly(rows, Off(UnitSet(room)), rows[0]);
  }

  /** The unit being filled and how many arrivals it holds, one arrival on. */
  function Onward(at: (nat, nat), k: nat): (nat, nat)
  {
    if at.1 + 1 == k then (at.0 + 1, 0) else (at.0, at.1 + 1)
  }

  lemma FilledStep(names: seq<Id>, start: Id, order: seq<Id>, s: Storm, cost: real, j: nat, r: nat)
    requires cost > 0.0 && Plan(names, start, order) && Filled(s, names, order, cost, j, r) && j < |order|
    ensures var to := Onward((j, r), FillCount(cost));
            order[j] in s.loads && Filled(Place1(s, order[j], cost), names, order, cost, to.0, to.1)
  {
    var k, n := FillCount(cost), Place1(s, order[j], cost);
    LoadAdds(cost, r);
    BelowCeilingExactly(cost, 0);
    assert order[j] in order;
    StepOn(order, s, cost, names, j, r);
    hide FillCount, Load;
    forall x | 0 <= x < |order|
      ensures order[x] in n.loads && n.loads[order[x]] == (if x == j then Load(cost, r + 1) else s.loads[order[x]])
    {
    }
  }

  lemma StepOn(order: seq<Id>, s: Storm, cost: real, names: seq<Id>, j: nat, r: nat)
    requires cost > 0.0 && Distinct(order) && Filled(s, names, order, cost, j, r) && j < |order|
    ensures order[j] in s.loads && Place1(s, order[j], cost).on == order[..j + 1]
  {
    hide FillCount, Load, CountOn;
    InOn(order, |s.on|, j);
    assert order[..j] + [order[j]] == order[..j + 1];
  }

  function Position(i: nat, k: nat): (nat, nat)
  {
    if i == 0 then (0, 0) else Onward(Position(i - 1, k), k)
  }

  lemma NonNegativeProduct(a: int, k: int)
    requires k > 0
    ensures a >= 0 ==> a * k >= 0
  {
  }

  /** Division is the only way to write a number as so many times k and a rest below k. */
  lemma Quotient(n: nat, k: nat, q: nat, r: nat)
    requires r < k && n == q * k + r
    ensures n / k == q
  {
    var d := n / k - q;
    assert d * k == r - n % k;
    NonNegativeProduct(d - 1, k);
    NonNegativeProduct(-d - 1, k);
    assert (d - 1) * k == d * k - k && (-d - 1) * k == -(d * k) - k;
  }

  lemma {:induction false} PositionAddsUp(i: nat, k: nat)
    requires k > 0
    ensures Position(i, k).1 < k && i == Position(i, k).0 * k + Position(i, k).1
  {
    if i > 0 {
      PositionAddsUp(i - 1, k);
      var at := Position(i - 1, k);
      assert (at.0 + 1) * k == at.0 * k + k;
    }
  }

  lemma PositionIsQuotient(i: nat, k: nat)
    requires k > 0
    ensures Position(i, k).0 == i / k
  {
    PositionAddsUp(i, k);
    Quotient(i, k, Position(i, k).0, Position(i, k).1);
  }

  function Limit(order: seq<Id>, ceiling: int): int
  {
    if ceiling <= |order| then ceiling else |order|
  }

  lemma LandsAt(names: seq<Id>, start: Id, order: seq<Id>, s: Storm, ceiling: int, cost: real, j: nat, r: nat)
    requires cost > 0.0 && ceiling >= 1 && Plan(names, start, order) && Filled(s, names, order, cost, j, r)
    requires j < Limit(order, ceiling)
    ensures Covers(s, names) && AnswerTo(names, s, ceiling) == Place(order[j])
  {
    hide AnswerTo;
    if r > 0 || j == 0 {
      LandsOnTheRoom(names, start, order, s, ceiling, cost, j, r);
    } else {
      LandsOnTheNext(names, start, order, s, ceiling, cost, j);
    }
  }

  /** The storm has come to `at`, or to its end. */
  ghost predicate Stands(s: Storm, names: seq<Id>, order: seq<Id>, ceiling: int, cost: real, at: (nat, nat))
    requires cost > 0.0
  {
    if at.0 < Limit(order, ceiling) then Filled(s, names, order, cost, at.0, at.1)
    else Limit(order, ceiling) > 0 && Filled(s, names, order, cost, Limit(order, ceiling), 0)
  }

  lemma StandsAt(names: seq<Id>, order: seq<Id>, s: Storm, ceiling: int, cost: real, at: (nat, nat))
    requires cost > 0.0 && Limit(order, ceiling) > 0
    requires at.0 <= Limit(order, ceiling) && (at.0 == Limit(order, ceiling) ==> at.1 == 0)
    requires Filled(s, names, order, cost, at.0, at.1)
    ensures Stands(s, names, order, ceiling, cost, at)
  {
    hide Filled;
  }

  lemma StepIsPlace(names: seq<Id>, s: Storm, ceiling: int, cost: real, id: Id)
    requires Covers(s, names) && AnswerTo(names, s, ceiling) == Place(id) && id in s.loads
    ensures StormStep(names, s, ceiling, cost) == Place1(s, id, cost)
  {
    hide AnswerTo;
  }

  lemma StepIsNothing(names: seq<Id>, s: Storm, ceiling: int, cost: real)
    requires Covers(s, names) && AnswerTo(names, s, ceiling).Refuse?
    ensures StormStep(names, s, ceiling, cost) == s
  {
    hide AnswerTo;
  }

  lemma StandsStep(names: seq<Id>, start: Id, order: seq<Id>, s: Storm, ceiling: int, cost: real, at: (nat, nat))
    requires cost > 0.0 && ceiling >= 1 && Plan(names, start, order) && Covers(s, names)
    requires Stands(s, names, order, ceiling, cost, at)
    ensures Stands(StormStep(names, s, ceiling, cost), names, order, ceiling, cost, Onward(at, FillCount(cost)))
  {
    LimitPositive(names, start, order, ceiling);
    hide FillCount, Load, AnswerTo, Filled, Plan, Place1, StormStep, Covers;
    if at.0 < Limit(order, ceiling) {
      LandsAt(names, start, order, s, ceiling, cost, at.0, at.1);
      FilledStep(names, start, order, s, cost, at.0, at.1);
      StepIsPlace(names, s, ceiling, cost, order[at.0]);
      hide Stands;
      StandsAt(names, order, Place1(s, order[at.0], cost), ceiling, cost, Onward(at, FillCount(cost)));
    } else {
      NowhereToLand(names, start, order, s, ceiling, cost, Limit(order, ceiling));
      StepIsNothing(names, s, ceiling, cost);
    }
  }

  /** Where the storm stands after `i` arrivals. */
  lemma {:induction false} StormStands(names: seq<Id>, start: Id, order: seq<Id>, ceiling: int, cost: real, i: nat)
    requires cost > 0.0 && ceiling >= 1 && Plan(names, start, order)
    ensures FillCount(cost) >= 1
    ensures Stands(StormAfter(names, start, ceiling, cost, i), names, order, ceiling, cost,
                   Position(i, FillCount(cost)))
  {
    BelowCeilingExactly(cost, 0);
    LimitPositive(names, start, order, ceiling);
    if i == 0 {
      LoadAdds(cost, 0);
      StormStarts(names, start, order, ceiling, cost);
    } else {
      StormStands(names, start, order, ceiling, cost, i - 1);
      StandsStep(names, start, order, StormAfter(names, start, ceiling, cost, i - 1), ceiling, cost,
                 Position(i - 1, FillCount(cost)));
      hide FillCount, Stands, StormStep;
    }
  }

  lemma LimitPositive(names: seq<Id>, start: Id, order: seq<Id>, ceiling: int)
    requires Plan(names, start, order) && ceiling >= 1
    ensures Limit(order, ceiling) >= 1
  {
  }

  lemma StormStarts(names: seq<Id>, start: Id, order: seq<Id>, ceiling: int, cost: real)
    requires cost > 0.0 && Plan(names, start, order) && FillCount(cost) >= 1 && Load(cost, 0) == 0.0
    ensures Filled(StormAfter(names, start, ceiling, cost, 0), names, order, cost, 0, 0)
  {
    hide FillCount, Load;
    assert forall x | 0 <= x < |order| :: order[x] in order;
    assert order[..1] == [start];
  }

  /** From zero loads, with every unit admitting and the room on one unit, arrival `i` lands on unit number
      i / k in the order of the plan, k being how many arrivals fill a unit, until the units the room may
      occupy or the pool are exhausted; and from there on every arrival is given the matching refusal. */
  lemma StormClosedForm(names: seq<Id>, start: Id, order: seq<Id>, ceiling: int, cost: real, i: nat)
    requires cost > 0.0 && ceiling >= 1 && Plan(names, start, order)
    ensures FillCount(cost) >= 1
    ensures var unit := i / FillCount(cost);
            Arrival(names, start, ceiling, cost, i)
            == if unit < Limit(order, ceiling) then Place(order[unit])
               else if ceiling <= |order| then Refuse(ReachedUnitCeiling) else Refuse(NoEligibleUnit)
  {
    StormStands(names, start, order, ceiling, cost, i);
    PositionIsQuotient(i, FillCount(cost));
    var at, limit, s := Position(i, FillCount(cost)), Limit(order, ceiling), StormAfter(names, start, ceiling, cost, i);
    hide StormAfter, FillCount, Load, AnswerTo, Filled, Plan, Position;
    if at.0 < limit {
      LandsAt(names, start, order, s, ceiling, cost, at.0, at.1);
    } else {
      LimitPositive(names, start, order, ceiling);
      NowhereToLand(names, start, order, s, ceiling, cost, limit);
    }
  }

  /** Three hundred arrivals of 0.004 of a unit fill the first unit with 225 and put the other 75 on the next. */
  lemma ThreeHundredArrivals(names: seq<Id>, start: Id, order: seq<Id>, ceiling: int, i: nat)
    requires ceiling >= 2 && Plan(names, start, order) && |order| >= 2 && i < 300
    ensures Arrival(names, start, ceiling, 0.004, i) == Place(order[if i < 225 then 0 else 1])
  {
    StormClosedForm(names, start, order, ceiling, 0.004, i);
    assert FillCount(0.004) == 225;
    hide Arrival, Plan;
  }
}
