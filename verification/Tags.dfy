/** Command tags: `A` and the last four digits of the command's number. */
module Tags {
  import opened Decimals

  const PERIOD: nat := 10_000

  function Zeros(n: nat): seq<digit> {
    seq(n, _ => 0)
  }

  /** At least `width` digits, with leading zeros. */
  function Padded(n: nat, width: nat): seq<digit> {
    var ds := Digits(n);
    if |ds| < width then Zeros(width - |ds|) + ds else ds
  }

  function AsText(ds: seq<digit>): string {
    seq(|ds|, i requires 0 <= i < |ds| => '0' + ds[i] as char)
  }

  /** The tag of the `n`-th command. */
  function TagOf(n: nat): string {
    "A" + AsText(Padded(n % PERIOD, 4))
  }

  class IdGenerator {
    /** The number of the last tag handed out. */
    var next: nat

    constructor ()
      ensures next == 0
    {
      next := 0;
    }

    method Next() returns (tag: string)
      modifies this
      ensures next == old(next) + 1
      ensures tag == TagOf(next)
    {
      next := next + 1;
      tag := "A" + AsText(Padded(next % PERIOD, 4));
    }
  }

  function Power10(w: nat): nat {
    if w == 0 then 1 else 10 * Power10(w - 1)
  }

  lemma {:induction false} FewDigits(n: nat, w: nat)
    requires 0 < w && n < Power10(w)
    ensures |Digits(n)| <= w
  {
    if n >= 10 {
      FewDigits(n / 10, w - 1);
    }
  }

  lemma {:induction false} LeadingZeros(k: nat, ds: seq<digit>)
    ensures Value(Zeros(k) + ds) == Value(ds)
    decreases |ds|, k
  {
    if ds != [] {
      var front, d := ds[..|ds| - 1], ds[|ds| - 1];
      assert Zeros(k) + ds == (Zeros(k) + front) + [d];
      ValueSnoc(Zeros(k) + front, d);
      LeadingZeros(k, front);
    } else if k > 0 {
      assert Zeros(k) + ds == (Zeros(k - 1) + []) + [0];
      ValueSnoc(Zeros(k - 1) + [], 0);
      LeadingZeros(k - 1, []);
    } else {
      assert Zeros(0) + ds == ds;
    }
  }

  lemma PaddedTo4(n: nat)
    requires n < PERIOD
    ensures |Padded(n, 4)| == 4 && Value(Padded(n, 4)) == n
  {
    assert Power10(4) == PERIOD by {
      assert Power10(1) == 10 && Power10(2) == 100 && Power10(3) == 1000;
    }
    FewDigits(n, 4);
    ValueOfDigits(n);
    LeadingZeros(4 - |Digits(n)|, Digits(n));
    assert Zeros(0) + Digits(n) == Digits(n);
  }

  /** Every tag is an `A` followed by exactly four digits. */
  lemma TagShape(n: nat)
    ensures |TagOf(n)| == 5 && TagOf(n)[0] == 'A'
    ensures forall i | 1 <= i < 5 :: '0' <= TagOf(n)[i] <= '9'
  {
    PaddedTo4(n % PERIOD);
  }

  /** The number that decimal digits read as. */
  function ReadNumber(text: string): nat
    requires forall i | 0 <= i < |text| :: '0' <= text[i] <= '9'
  {
    if text == "" then 0
    else 10 * ReadNumber(text[..|text| - 1]) + (text[|text| - 1] as int - '0' as int)
  }

  lemma {:induction false} TextReads(ds: seq<digit>)
    ensures forall i | 0 <= i < |AsText(ds)| :: '0' <= AsText(ds)[i] <= '9'
    ensures ReadNumber(AsText(ds)) == Value(ds)
  {
    if ds != [] {
      TextReads(ds[..|ds| - 1]);
      assert AsText(ds)[..|ds| - 1] == AsText(ds[..|ds| - 1]);
    }
  }

  /** The digits of a tag read as the number of its command modulo 10 000. */
  lemma TagReadsBack(n: nat)
    ensures |TagOf(n)| == 5 && TagOf(n)[0] == 'A'
    ensures forall i | 0 <= i < |TagOf(n)[1..]| :: '0' <= TagOf(n)[1..][i] <= '9'
    ensures ReadNumber(TagOf(n)[1..]) == n % 10_000
  {
    PaddedTo4(n % PERIOD);
    TextReads(Padded(n % PERIOD, 4));
    assert TagOf(n)[1..] == AsText(Padded(n % PERIOD, 4));
  }

  lemma AsTextInjective(xs: seq<digit>, ys: seq<digit>)
    requires AsText(xs) == AsText(ys)
    ensures xs == ys
  {
    forall i | 0 <= i < |xs| ensures xs[i] == ys[i] {
      assert AsText(xs)[i] == AsText(ys)[i];
    }
  }

  /** Two commands have the same tag exactly when their numbers agree modulo 10 000. */
  lemma TagsAgree(n: nat, m: nat)
    ensures TagOf(n) == TagOf(m) <==> n % PERIOD == m % PERIOD
  {
    PaddedTo4(n % PERIOD);
    PaddedTo4(m % PERIOD);
    if TagOf(n) == TagOf(m) {
      assert TagOf(n)[1..] == AsText(Padded(n % PERIOD, 4));
      assert TagOf(m)[1..] == AsText(Padded(m % PERIOD, 4));
      AsTextInjective(Padded(n % PERIOD, 4), Padded(m % PERIOD, 4));
    }
  }

  /** Any 10 000 commands in a row have different tags. */
  lemma TagWindow(n: nat, m: nat)
    requires n < m < n + PERIOD
    ensures TagOf(n) != TagOf(m)
  {
    TagsAgree(n, m);
  }
}
