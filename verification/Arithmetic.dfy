/** The few facts about products and remainders the other modules rest on. */
module Arithmetic {

  function Max(a: nat, b: nat): nat {
    if a < b then b else a
  }

  lemma Multiples(d: int, m: nat)
    ensures d >= 1 ==> d * m >= m
    ensures d <= 0 ==> d * m <= 0
    ensures d <= -1 ==> d * m <= -(m as int)
  {
  }

  /** Division with remainder has one answer. */
  lemma RemainderUnique(q: int, r: nat, m: nat)
    requires r < m
    ensures (q * m + r) % m == r && (q * m + r) / m == q
  {
    Multiples(q - (q * m + r) / m, m);
  }
}
