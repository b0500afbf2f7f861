/** `uint64_t`, bit by bit. A word is its 64 bits, least significant first; the bitwise operators and the
    shift are given place by place, addition is a ripple-carry adder. `AddIsModular` and `ValueInjective`
    tie the bits back to the unsigned arithmetic they stand for. */
module Words {

  type Word = w: seq<bool> | |w| == 64 witness seq(64, _ => false)

  

  function One(): Word {
    seq(64, i => i == 0)
  }

  function AllOnes(): Word {
    seq(64, _ => true)
  }

  function And(v: Word, w: Word): Word {
    seq(64, i requires 0 <= i < 64 => v[i] && w[i])
  }

  function Or(v: Word, w: Word): Word {
    seq(64, i requires 0 <= i < 64 => v[i] || w[i])
  }

  function Not(v: Word): Word {
    seq(64, i requires 0 <= i < 64 => !v[i])
  }

  /** C's `v << n`: the top `n` bits fall off. */
  function Shl(v: Word, n: nat): Word {
    seq(64, i requires 0 <= i < 64 => i >= n && v[i - n])
  }

  /** The carry into place `i` when `v` and `w` are added. */
  function Carry(v: Word, w: Word, i: nat): bool
    requires i <= 64
  {
    if i == 0 then false
    else if v[i - 1] == w[i - 1] then v[i - 1]
    else Carry(v, w, i - 1)
  }

  /** C's `v + w` on `uint64_t`. */
  function Add(v: Word, w: Word): Word {
    seq(64, i requires 0 <= i < 64 => (v[i] != w[i]) != Carry(v, w, i))
  }

  /** C's `v - 1`: adding the word of all ones. */
  function Pred(v: Word): Word {
    Add(v, AllOnes())
  }

  /** `((1 << n) - 1) << p`. */
  function Mask(n: nat, p: nat): Word {
    Shl(Pred(Shl(One(), n)), p)
  }

  /** How many of the lowest `n` bits of `v` are set. */
  function Count(v: Word, n: nat): (c: nat)
    requires n <= 64
    ensures c <= n
  {
    if n == 0 then 0 else Count(v, n - 1) + if v[n - 1] then 1 else 0
  }

  // ---- the numbers the bits stand for -----------------------------------------------------------------------------

  function Pow2(n: nat): (p: nat)
    ensures p > 0
  {
    if n == 0 then 1 else 2 * Pow2(n - 1)
  }

  /** The number written in the lowest `n` bits. */
  function Value(v: Word, n: nat): (x: nat)
    requires n <= 64
    ensures x < Pow2(n)
  {
    if n == 0 then 0 else Value(v, n - 1) + if v[n - 1] then Pow2(n - 1) else 0
  }

  /** The adder adds, and what it drops is exactly the carry out of the top. */
  lemma {:induction false} AddValue(v: Word, w: Word, n: nat)
    requires n <= 64
    ensures Value(Add(v, w), n) + (if Carry(v, w, n) then Pow2(n) else 0) == Value(v, n) + Value(w, n)
  {
    if n > 0 {
      AddValue(v, w, n - 1);
    }
  }

  /** So addition of the low `n` bits is addition modulo `2^n`; all 64 of them give `uint64_t`. */
  lemma AddIsModular(v: Word, w: Word, n: nat)
    requires n <= 64
    ensures IsRemainder(Value(Add(v, w), n), Value(v, n) + Value(w, n), Pow2(n))
  {
    AddValue(v, w, n);
    var q := if Carry(v, w, n) then 1 else 0;
    assert Value(v, n) + Value(w, n) == q * Pow2(n) + Value(Add(v, w), n);
  }

  /** `r` is `s` modulo `m`. */
  ghost predicate IsRemainder(r: nat, s: nat, m: nat) {
    r < m && exists q: nat :: s == q * m + r
  }

  /** The bits of a number are unique, so equal values are equal words. */
  lemma {:induction false} ValueInjective(v: Word, w: Word, n: nat)
    requires n <= 64
    requires Value(v, n) == Value(w, n)
    ensures v[..n] == w[..n]
  {
    if n > 0 {
      assert v[n - 1] == w[n - 1];
      ValueInjective(v, w, n - 1);
      assert v[..n] == v[..n - 1] + [v[n - 1]] && w[..n] == w[..n - 1] + [w[n - 1]];
    }
  }

  // ---- masks ------------------------------------------------------------------------------------------------------

  /** Subtracting one from a power of two turns on exactly the places below it. */
  lemma {:induction false} PredCarry(n: nat, k: nat)
    requires k <= 64
    ensures Carry(Shl(One(), n), AllOnes(), k) <==> n < k
  {
    if k > 0 {
      PredCarry(n, k - 1);
    }
  }

  lemma MaskBits(n: nat, p: nat)
    ensures forall i | 0 <= i < 64 :: Mask(n, p)[i] <==> p <= i < p + n
  {
    forall i | 0 <= i < 64
      ensures Mask(n, p)[i] <==> p <= i < p + n
    {
      if i >= p {
        PredCarry(n, i - p);
        assert Mask(n, p)[i] == Pred(Shl(One(), n))[i - p];
      }
    }
  }

  // ---- counting ---------------------------------------------------------------------------------------------------

  /** Taking a run of `m` set bits out of a word lowers its count by exactly `m`. */
  lemma {:induction false} CountWithout(v: Word, w: Word, p: nat, m: nat, n: nat)
    requires n <= 64
    requires forall i | p <= i < p + m && i < 64 :: v[i]
    requires forall i | 0 <= i < 64 :: w[i] <==> v[i] && !(p <= i < p + m)
    ensures Count(v, n) == Count(w, n) + if n <= p then 0 else if n <= p + m then n - p else m
  {
    if n > 0 {
      CountWithout(v, w, p, m, n - 1);
    }
  }

  lemma {:induction false} CountAll(v: Word, lo: nat, n: nat)
    requires n <= 64
    requires forall i | 0 <= i < 64 :: v[i] <==> i >= lo
    ensures Count(v, n) == if n <= lo then 0 else n - lo
  {
    if n > 0 {
      CountAll(v, lo, n - 1);
    }
  }
}
