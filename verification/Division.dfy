/** Quotients and remainders. */
module Division {

  /** Quotient and remainder are unique. */
  lemma Unique(x: nat, m: nat, q: nat, r: nat)
    requires r < m && x == q * m + r
    ensures x / m == q && x % m == r
  {
    var d, k: int := x / m - q, m;
    assert d * k == r - x % m;
    assert d >= 1 ==> d * k >= k;
    assert d <= -1 ==> d * k <= -k;
  }

  /** Quotient and remainder, by repeated subtraction; `QuotRemAre` says they are C's `/` and `%`. */
  function Quot(v: nat, radix: nat): (q: nat)
    requires radix >= 2
    ensures v > 0 ==> q < v
    ensures 2 * q <= v
  {
    if v < radix then 0 else 1 + Quot(v - radix, radix)
  }

  function Rem(v: nat, radix: nat): (r: nat)
    requires radix >= 2
    ensures r < radix
  {
    if v < radix then v else Rem(v - radix, radix)
  }

  lemma {:induction false} QuotRemAre(v: nat, radix: nat)
    requires radix >= 2
    ensures Quot(v, radix) * radix + Rem(v, radix) == v
    ensures Quot(v, radix) == v / radix && Rem(v, radix) == v % radix
  {
    QuotTimes(v, radix);
    Unique(v, radix, Quot(v, radix), Rem(v, radix));
  }

  lemma {:induction false} QuotTimes(v: nat, radix: nat)
    requires radix >= 2
    ensures Quot(v, radix) * radix + Rem(v, radix) == v
  {
    if v >= radix {
      QuotTimes(v - radix, radix);
      assert (1 + Quot(v - radix, radix)) * radix == radix + Quot(v - radix, radix) * radix;
    }
  }

  lemma Small(v: nat, radix: nat)
    requires radix >= 2
    ensures v < radix ==> Rem(v, radix) == v
  {
  }
}
