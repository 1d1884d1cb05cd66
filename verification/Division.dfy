/** Two facts about products and quotients. */
module Division {

  lemma Multiples(d: int, k: int)
    requires d >= 0
    ensures k >= 1 ==> d * k >= d
    ensures k <= -1 ==> d * k <= -d
  {
    if k >= 1 {
      assert d * k == d + d * (k - 1);
    } else if k <= -1 {
      assert d * k == -d + d * (k + 1);
    }
  }

  lemma QuotientUnique(d: nat, q: int, r: int)
    requires 0 <= r < d
    ensures (d * q + r) / d == q
  {
    var n := d * q + r;
    assert d * (n / d - q) == r - n % d;
    Multiples(d, n / d - q);
  }
}
