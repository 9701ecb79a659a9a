/** Stable sorting of a sequence, by insertion, and the facts the callers read from it. */
module Sorting {
  import opened Ids

  function Insert<T>(x: T, xs: seq<T>, before: (T, T) -> bool): (r: seq<T>)
    ensures |r| == |xs| + 1
  {
    if xs == [] || !before(xs[0], x) then [x] + xs else [xs[0]] + Insert(x, xs[1..], before)
  }

  /** The elements in order, equal ones left in the order they came in. */
  function Sort<T>(xs: seq<T>, before: (T, T) -> bool): (r: seq<T>)
    ensures |r| == |xs|
  {
    if xs == [] then [] else Insert(xs[0], Sort(xs[1..], before), before)
  }

  lemma {:induction false} InsertPermutes<T>(x: T, xs: seq<T>, before: (T, T) -> bool)
    ensures multiset(Insert(x, xs, before)) == multiset{x} + multiset(xs)
  {
    if xs != [] && before(xs[0], x) {
      InsertPermutes(x, xs[1..], before);
      assert xs == [xs[0]] + xs[1..];
    }
  }

  /** Sorting loses nothing and invents nothing. */
  lemma {:induction false} SortPermutes<T>(xs: seq<T>, before: (T, T) -> bool)
    ensures multiset(Sort(xs, before)) == multiset(xs)
  {
    if xs != [] {
      SortPermutes(xs[1..], before);
      InsertPermutes(xs[0], Sort(xs[1..], before), before);
      assert xs == [xs[0]] + xs[1..];
    }
  }

  ghost predicate StrictWeak<T(!new)>(before: (T, T) -> bool)
  {
    && (forall a :: !before(a, a))
    && (forall a, b, c :: before(a, b) && before(b, c) ==> before(a, c))
    && (forall a, b, c :: before(a, c) ==> before(a, b) || before(b, c))
  }

  ghost predicate InOrder<T>(xs: seq<T>, before: (T, T) -> bool)
  {
    forall i, j :: 0 <= i < j < |xs| ==> !before(xs[j], xs[i])
  }

  /** An order that goes by an identifier of its elements. */
  lemma ByKeyIsStrictWeak<T(!new)>(key: T -> Id, before: (T, T) -> bool)
    requires forall a, b :: before(a, b) == Less(key(a), key(b))
    ensures StrictWeak(before)
  {
    forall a ensures !before(a, a) {
      LessIrreflexive(key(a));
    }
    forall a, b, c | before(a, b) && before(b, c) ensures before(a, c) {
      LessTransitive(key(a), key(b), key(c));
    }
    forall a, b, c | before(a, c) ensures before(a, b) || before(b, c) {
      LessTotal(key(a), key(b));
      if Less(key(b), key(a)) {
        LessTransitive(key(b), key(a), key(c));
      }
    }
    hide Less;
  }

  lemma SameElements<T(!new)>(xs: seq<T>, before: (T, T) -> bool)
    ensures forall x :: x in Sort(xs, before) <==> x in xs
  {
    SortPermutes(xs, before);
    forall x ensures x in Sort(xs, before) <==> x in xs {
      assert x in multiset(Sort(xs, before)) <==> x in multiset(xs);
    }
  }

  lemma InsertElements<T(!new)>(x: T, xs: seq<T>, before: (T, T) -> bool)
    ensures forall y :: y in Insert(x, xs, before) <==> y == x || y in xs
  {
    InsertPermutes(x, xs, before);
    forall y ensures y in Insert(x, xs, before) <==> y == x || y in xs {
      assert y in multiset(Insert(x, xs, before)) <==> y == x || y in multiset(xs);
    }
  }

  lemma {:induction false} InsertInOrder<T(!new)>(x: T, xs: seq<T>, before: (T, T) -> bool)
    requires StrictWeak(before) && InOrder(xs, before)
    ensures InOrder(Insert(x, xs, before), before)
  {
    if xs != [] && before(xs[0], x) {
      InsertInOrder(x, xs[1..], before);
      var rest := Insert(x, xs[1..], before);
      InsertElements(x, xs[1..], before);
      forall j | 0 <= j < |rest| ensures !before(rest[j], xs[0]) {
        assert rest[j] in rest;
      }
    } else if xs != [] {
      forall j | 0 <= j < |xs| ensures !before(xs[j], x) {
      }
    }
  }

  lemma {:induction false} SortInOrder<T(!new)>(xs: seq<T>, before: (T, T) -> bool)
    requires StrictWeak(before)
    ensures InOrder(Sort(xs, before), before)
  {
    if xs != [] {
      SortInOrder(xs[1..], before);
      InsertInOrder(xs[0], Sort(xs[1..], before), before);
    }
  }

  /** A list already in order is its own sort. */
  lemma {:induction false} SortFixed<T>(xs: seq<T>, before: (T, T) -> bool)
    requires InOrder(xs, before)
    ensures Sort(xs, before) == xs
  {
    if xs != [] {
      SortFixed(xs[1..], before);
    }
  }

  /** An element that belongs before all of `ys` goes into the front part. */
  lemma {:induction false} InsertFront<T>(x: T, xs: seq<T>, ys: seq<T>, before: (T, T) -> bool)
    requires ys == [] || !before(ys[0], x)
    ensures Insert(x, xs + ys, before) == Insert(x, xs, before) + ys
  {
    if xs == [] {
      assert xs + ys == ys;
    } else {
      assert (xs + ys)[1..] == xs[1..] + ys;
      if before(xs[0], x) {
        InsertFront(x, xs[1..], ys, before);
      }
    }
  }

  /** An element that belongs after all of `xs` goes into the back part. */
  lemma {:induction false} InsertBack<T>(x: T, xs: seq<T>, ys: seq<T>, before: (T, T) -> bool)
    requires forall i | 0 <= i < |xs| :: before(xs[i], x)
    ensures Insert(x, xs + ys, before) == xs + Insert(x, ys, before)
  {
    if xs == [] {
      assert xs + ys == ys;
    } else {
      assert (xs + ys)[1..] == xs[1..] + ys;
      InsertBack(x, xs[1..], ys, before);
    }
  }

  ghost predicate NoDuplicates<T>(xs: seq<T>)
  {
    forall i, j :: 0 <= i < j < |xs| ==> xs[i] != xs[j]
  }

  lemma {:induction false} InsertNoDuplicates<T(!new)>(x: T, xs: seq<T>, before: (T, T) -> bool)
    requires NoDuplicates(xs) && x !in xs
    ensures NoDuplicates(Insert(x, xs, before))
  {
    if xs != [] && before(xs[0], x) {
      InsertNoDuplicates(x, xs[1..], before);
      InsertElements(x, xs[1..], before);
      var rest := Insert(x, xs[1..], before);
      assert xs[0] !in rest;
    }
  }

  /** Sorting a list without duplicates gives one without duplicates. */
  lemma {:induction false} SortNoDuplicates<T(!new)>(xs: seq<T>, before: (T, T) -> bool)
    requires NoDuplicates(xs)
    ensures NoDuplicates(Sort(xs, before))
  {
    if xs != [] {
      SortNoDuplicates(xs[1..], before);
      SameElements(xs[1..], before);
      InsertNoDuplicates(xs[0], Sort(xs[1..], before), before);
    }
  }

  ghost predicate Strictly<T>(xs: seq<T>, before: (T, T) -> bool)
  {
    forall i, j :: 0 <= i < j < |xs| ==> before(xs[i], xs[j])
  }

  lemma StrictRest<T(!new)>(xs: seq<T>, before: (T, T) -> bool, x: T)
    requires StrictWeak(before) && Strictly(xs, before) && xs != []
    ensures x in xs[1..] <==> x in xs && x != xs[0]
  {
    assert xs == [xs[0]] + xs[1..];
  }

  lemma SomethingWithin<T(!new)>(xs: seq<T>, ys: seq<T>)
    requires forall x :: x in xs ==> x in ys
    ensures xs != [] ==> ys != []
  {
    if xs != [] {
      assert xs[0] in ys;
    }
  }

  lemma FirstComesFirst<T(!new)>(xs: seq<T>, ys: seq<T>, before: (T, T) -> bool)
    requires Strictly(xs, before) && xs != [] && ys != [] && ys[0] in xs
    ensures xs[0] == ys[0] || before(xs[0], ys[0])
  {
  }

  /** There is one way to put a set of elements strictly in order. */
  lemma {:induction false} StrictlyUnique<T(!new)>(a: seq<T>, b: seq<T>, before: (T, T) -> bool)
    requires StrictWeak(before) && Strictly(a, before) && Strictly(b, before)
    requires forall x :: x in a <==> x in b
    ensures a == b
  {
    if a == [] || b == [] {
      SomethingWithin(a, b);
      SomethingWithin(b, a);
    } else {
      assert a[0] in b && b[0] in a;
      FirstComesFirst(a, b, before);
      FirstComesFirst(b, a, before);
      assert a[0] == b[0];
      forall x ensures x in a[1..] <==> x in b[1..] {
        StrictRest(a, before, x);
        StrictRest(b, before, x);
      }
      StrictlyUnique(a[1..], b[1..], before);
      assert a == [a[0]] + a[1..] && b == [b[0]] + b[1..];
    }
  }
}
