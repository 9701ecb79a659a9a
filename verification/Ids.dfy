/** Identifiers and the order they are read in.

    Every identifier of the control plane is a byte string, and every list it
    hands out is put in the byte order of those strings. */
module Ids {

  type Byte = b: int | 0 <= b < 256

  type Bytes = seq<Byte>

  /** An identifier. The empty string is the absent one and is refused wherever it could enter. */
  type Id = Bytes

  /** The order Go's `<` puts on strings: byte by byte, a proper prefix first. */
  predicate Less(a: Id, b: Id)
  {
    b != [] && (a == [] || a[0] < b[0] || (a[0] == b[0] && Less(a[1..], b[1..])))
  }

  lemma {:induction false} LessIrreflexive(a: Id)
    ensures !Less(a, a)
  {
    if a != [] {
      LessIrreflexive(a[1..]);
    }
  }

  lemma {:induction false} LessTransitive(a: Id, b: Id, c: Id)
    requires Less(a, b) && Less(b, c)
    ensures Less(a, c)
  {
    if a != [] && a[0] == b[0] && b[0] == c[0] {
      LessTransitive(a[1..], b[1..], c[1..]);
    }
  }

  /** Any two different identifiers are ordered one way or the other. */
  lemma {:induction false} LessTotal(a: Id, b: Id)
    ensures a == b || Less(a, b) || Less(b, a)
  {
    if a != [] && b != [] && a[0] == b[0] {
      LessTotal(a[1..], b[1..]);
      assert a == [a[0]] + a[1..] && b == [b[0]] + b[1..];
    }
  }

  lemma LessAsymmetric(a: Id, b: Id)
    requires Less(a, b)
    ensures !Less(b, a) && a != b
  {
    LessIrreflexive(a);
    if Less(b, a) {
      LessTransitive(a, b, a);
    }
  }

  /** The text of a literal as bytes. */
  function Ascii(s: string): (r: Bytes)
    ensures |r| == |s|
  {
    seq(|s|, i requires 0 <= i < |s| => (s[i] as int) % 256)
  }

  /** The identifiers are in ascending order, so no two of them are equal. */
  predicate Ascending(ids: seq<Id>)
  {
    forall i, j :: 0 <= i < j < |ids| ==> Less(ids[i], ids[j])
  }

  lemma AscendingDistinct(ids: seq<Id>, i: nat, j: nat)
    requires Ascending(ids) && i < |ids| && j < |ids| && ids[i] == ids[j]
    ensures i == j
  {
    LessIrreflexive(ids[i]);
  }

  /** There is only one ascending list of a set of identifiers. */
  lemma {:induction false} AscendingUnique(a: seq<Id>, b: seq<Id>)
    requires Ascending(a) && Ascending(b)
    requires forall x :: x in a <==> x in b
    ensures a == b
  {
    if a == [] || b == [] {
      NothingWithin(a, b);
      NothingWithin(b, a);
    } else {
      FirstIsLeast(a, b);
      FirstIsLeast(b, a);
      if a[0] != b[0] {
        LessAsymmetric(a[0], b[0]);
      }
      forall x ensures x in a[1..] <==> x in b[1..] {
        RestHolds(a, x);
        RestHolds(b, x);
      }
      AscendingUnique(a[1..], b[1..]);
      assert a == [a[0]] + a[1..] && b == [b[0]] + b[1..];
    }
  }

  lemma NothingWithin(a: seq<Id>, b: seq<Id>)
    requires forall x :: x in a ==> x in b
    ensures a != [] ==> b != []
  {
    if a != [] {
      assert a[0] in b;
    }
  }

  lemma FirstIsLeast(a: seq<Id>, b: seq<Id>)
    requires Ascending(a) && a != [] && b != [] && b[0] in a
    ensures a[0] == b[0] || Less(a[0], b[0])
  {
  }

  lemma RestHolds(a: seq<Id>, x: Id)
    requires Ascending(a) && a != []
    ensures x in a[1..] <==> x in a && x != a[0]
  {
    LessIrreflexive(a[0]);
  }
}
