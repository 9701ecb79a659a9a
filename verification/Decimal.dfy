/** Natural numbers in decimal, as the envelope and the link identifiers write them. */
module Decimal {
  import opened Ids

  function Digits(n: nat): (r: Bytes)
    ensures r != [] && forall i :: 0 <= i < |r| ==> 48 <= r[i] <= 57
  {
    if n < 10 then [48 + n] else Digits(n / 10) + [48 + n % 10]
  }

  function Value(ds: Bytes): int
  {
    if ds == [] then 0 else 10 * Value(ds[..|ds| - 1]) + ds[|ds| - 1] - 48
  }

  /** Reading the digits back gives the number. */
  lemma {:induction false} ValueDigits(n: nat)
    ensures Value(Digits(n)) == n
  {
    if n >= 10 {
      ValueDigits(n / 10);
      assert Digits(n)[..|Digits(n)| - 1] == Digits(n / 10);
    } else {
      assert Digits(n)[..0] == [];
    }
  }

  lemma {:induction false} WidthGrows(a: nat, b: nat)
    requires a <= b
    ensures |Digits(a)| <= |Digits(b)|
  {
    if a >= 10 {
      WidthGrows(a / 10, b / 10);
    }
  }
}
