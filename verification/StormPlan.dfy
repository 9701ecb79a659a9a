/** That every pool has the plan a join storm follows. */
module StormPlan {
  import opened Ids
  import opened Sorting
  import opened JoinStorm
  import opened Placement

  function Without(names: seq<Id>, id: Id): seq<Id>
  {
    if names == [] then []
    else (if names[0] == id then [] else [names[0]]) + Without(names[1..], id)
  }

  lemma {:induction false} WithoutElements(names: seq<Id>, id: Id)
    requires Distinct(names)
    ensures forall n :: n in Without(names, id) <==> n in names && n != id
    ensures NoDuplicates(Without(names, id))
  {
    if names != [] {
      assert Distinct(names[1..]);
      WithoutElements(names[1..], id);
      var rest := Without(names[1..], id);
      assert names == [names[0]] + names[1..];
      assert names[0] !in names[1..];
    }
  }

  lemma SortedAscends(ids: seq<Id>)
    requires NoDuplicates(ids)
    ensures Ascending(Sort(ids, Less)) && forall n :: n in Sort(ids, Less) <==> n in ids
  {
    var s := Sort(ids, Less);
    ByKeyIsStrictWeak((id: Id) => id, Less);
    SortInOrder(ids, Less);
    SortNoDuplicates(ids, Less);
    SameElements(ids, Less);
    hide Sort;
    forall i, j | 0 <= i < j < |s| ensures Less(s[i], s[j]) {
      assert s[i] != s[j] && !Less(s[j], s[i]);
      LessTotal(s[i], s[j]);
    }
  }

  lemma FrontedIsDistinct(start: Id, sorted: seq<Id>)
    requires Ascending(sorted) && start !in sorted
    ensures var order := [start] + sorted;
            && Distinct(order) && order[0] == start && order[1..] == sorted
            && forall n :: n in order <==> n == start || n in sorted
  {
    var order := [start] + sorted;
    forall i, j | 0 <= i < j < |order| ensures order[i] != order[j] {
      if i > 0 {
        assert Less(sorted[i - 1], sorted[j - 1]);
        LessIrreflexive(sorted[i - 1]);
      } else {
        assert sorted[j - 1] in sorted;
      }
    }
    hide Less;
  }

  lemma AsPlan(names: seq<Id>, start: Id, sorted: seq<Id>)
    requires Distinct(names) && start in names
    requires Ascending(sorted) && forall n :: n in sorted <==> n in names && n != start
    ensures Plan(names, start, [start] + sorted)
  {
    FrontedIsDistinct(start, sorted);
    hide Distinct, Ascending;
  }

  lemma SortedWithout(names: seq<Id>, start: Id) returns (sorted: seq<Id>)
    requires Distinct(names)
    ensures sorted == Sort(Without(names, start), Less)
    ensures Ascending(sorted) && forall n :: n in sorted <==> n in names && n != start
  {
    WithoutElements(names, start);
    SortedAscends(Without(names, start));
    sorted := Sort(Without(names, start), Less);
    hide *;
  }

  /** Whatever the units are called and wherever the room starts, there is such a plan: the starting unit and then
      the others by identifier. */
  lemma EveryPoolHasAPlan(names: seq<Id>, start: Id)
    requires Distinct(names) && start in names
    ensures Plan(names, start, [start] + Sort(Without(names, start), Less))
  {
    hide *;
    var sorted := SortedWithout(names, start);
    AsPlan(names, start, sorted);
  }
}
