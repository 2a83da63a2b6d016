/** Powers of two and the handful of facts about them that the address models share. */
module Powers {

  function Pow2(k: nat): (r: nat)
    ensures r >= 1
  {
    if k == 0 then 1 else 2 * Pow2(k - 1)
  }

  lemma {:induction false} Pow2Grows(a: nat, b: nat)
    requires a < b
    ensures 2 * Pow2(a) <= Pow2(b)
    decreases b
  {
    if a + 1 < b { Pow2Grows(a, b - 1); }
  }

  /** The low `k` bits of `x` are zero. */
  predicate Multiple(x: nat, k: nat) {
    k == 0 || (x % 2 == 0 && Multiple(x / 2, k - 1))
  }

  lemma {:induction false} MultipleOfSmaller(x: nat, a: nat, b: nat)
    requires a <= b && Multiple(x, b)
    ensures Multiple(x, a)
  {
    if a > 0 { MultipleOfSmaller(x / 2, a - 1, b - 1); }
  }
}
