/** Decimal numerals, as QString::number writes them and QString::toInt reads them. */
module Decimals {

  function Digit(d: nat): (c: char)
    requires d < 10
    ensures '0' <= c <= '9' && c as int - '0' as int == d
  {
    '0' + d as char
  }

  function Decimal(n: nat): (s: string)
    ensures s != "" && forall i :: 0 <= i < |s| ==> '0' <= s[i] <= '9'
  {
    if n < 10 then [Digit(n)] else Decimal(n / 10) + [Digit(n % 10)]
  }

  predicate Numeral(s: string) { s != "" && forall i :: 0 <= i < |s| ==> '0' <= s[i] <= '9' }

  function Amount(s: string): nat
    requires forall i :: 0 <= i < |s| ==> '0' <= s[i] <= '9'
  {
    if s == "" then 0 else 10 * Amount(s[..|s| - 1]) + (s[|s| - 1] as int - '0' as int)
  }

  /** QString::toInt on unsigned numerals: anything else reads as zero. */
  function ToInt(s: string): nat { if Numeral(s) then Amount(s) else 0 }

  lemma {:induction false} ReadsBack(n: nat)
    ensures ToInt(Decimal(n)) == n
  {
    var s := Decimal(n);
    if n < 10 {
      assert s[..|s| - 1] == "" && Amount("") == 0;
    } else {
      ReadsBack(n / 10);
      assert s[..|s| - 1] == Decimal(n / 10);
    }
    assert Amount(s) == 10 * Amount(s[..|s| - 1]) + (s[|s| - 1] as int - '0' as int);
  }
}
