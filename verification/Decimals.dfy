/** Decimal numbers as digits, most significant first. */
module Decimals {
  type digit = d: nat | d < 10

  function Digits(n: nat): (ds: seq<digit>)
    ensures ds != []
  {
    if n < 10 then [n] else Digits(n / 10) + [n % 10]
  }

  function Value(ds: seq<digit>): nat {
    if ds == [] then 0 else 10 * Value(ds[..|ds| - 1]) + ds[|ds| - 1]
  }

  lemma ValueSnoc(ds: seq<digit>, d: digit)
    ensures Value(ds + [d]) == 10 * Value(ds) + d
  {
    assert (ds + [d])[..|ds|] == ds;
  }

  lemma {:induction false} ValueOfDigits(n: nat)
    ensures Value(Digits(n)) == n
  {
    if n >= 10 {
      ValueOfDigits(n / 10);
      ValueSnoc(Digits(n / 10), n % 10);
    } else {
      assert [n][..0] == [];
    }
  }
}
