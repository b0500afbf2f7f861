/** `find_cont_bits`: the first run of `n` set bits in a 64-bit word. */
module FreeRun {
  import opened Words

  /** A request of `n` places can start at `p`. The search never lets a run touch bit 63
      (`iret + tlen >= 64` fails), and starts a run only on a set bit, even when `n` is 0. */
  predicate Fits(v: Word, n: nat, p: nat) {
    && p + n <= 63
    && v[p]
    && forall k | p <= k < p + n :: v[k]
  }

  predicate FirstFit(v: Word, n: nat, p: nat) {
    && Fits(v, n, p)
    && forall q | 0 <= q < p :: !Fits(v, n, q)
  }

  predicate NoFit(v: Word, n: nat) {
    forall q | 0 <= q < 64 :: !Fits(v, n, q)
  }

  /** `__builtin_ffsll`: one more than the index of the lowest set bit, 0 for the zero word. */
  method FindFirstSet(v: Word) returns (r: nat)
    ensures r <= 64
    ensures r == 0 <==> forall k | 0 <= k < 64 :: !v[k]
    ensures r > 0 ==> v[r - 1] && forall k | 0 <= k < r - 1 :: !v[k]
  {
    r := 0;
    while r < 64 && !v[r]
      invariant r <= 64
      invariant forall k | 0 <= k < r :: !v[k]
    {
      r := r + 1;
    }
    r := if r == 64 then 0 else r + 1;
  }

  // ---- the carry trick --------------------------------------------------------------------------------------------

  /** `i..e` is the lowest run of ones, and it ends below the top of the word. */
  predicate LowestRun(v: Word, i: nat, e: nat) {
    && i < e < 64
    && (forall k | 0 <= k < i :: !v[k])
    && (forall k | i <= k < e :: v[k])
    && !v[e]
  }

  lemma {:induction false} RunCarry(v: Word, i: nat, e: nat, k: nat)
    requires LowestRun(v, i, e) && k <= 64
    ensures Carry(v, Shl(One(), i), k) <==> i < k <= e
  {
    if k > 0 {
      RunCarry(v, i, e, k - 1);
    }
  }

  /** `tval & (tval + lowbit)` clears the lowest run of ones and nothing else; the sum does not overflow. */
  lemma SkipClearsLowestRun(v: Word, i: nat, e: nat)
    requires LowestRun(v, i, e)
    ensures !Carry(v, Shl(One(), i), 64)
    ensures forall k | 0 <= k < 64 ::
              And(v, Add(v, Shl(One(), i)))[k] <==> v[k] && !(i <= k < e)
  {
    RunCarry(v, i, e, 64);
    forall k | 0 <= k < 64
      ensures And(v, Add(v, Shl(One(), i)))[k] <==> v[k] && !(i <= k < e)
    {
      RunCarry(v, i, e, k);
    }
  }

  /** A mask test that fails shows where the lowest run ends: before it is `n` long. */
  lemma RunEnd(v: Word, i: nat, n: nat) returns (e: nat)
    requires i + n < 64 && v[i] && forall k | 0 <= k < i :: !v[k]
    requires And(v, Mask(n, i)) != Mask(n, i)
    ensures LowestRun(v, i, e) && e < i + n
  {
    MaskTest(v, i, n);
    e := i;
    while e < i + n && v[e]
      invariant i <= e <= i + n
      invariant forall k | i <= k < e :: v[k]
    {
      e := e + 1;
    }
  }

  lemma MaskTest(v: Word, i: nat, n: nat)
    requires i + n < 64
    ensures And(v, Mask(n, i)) == Mask(n, i) <==> forall k | i <= k < i + n :: v[k]
  {
    MaskBits(n, i);
    if And(v, Mask(n, i)) == Mask(n, i) {
      forall k | i <= k < i + n
        ensures v[k]
      {
        assert And(v, Mask(n, i))[k];
      }
    } else {
      var k :| 0 <= k < 64 && And(v, Mask(n, i))[k] != Mask(n, i)[k];
      assert i <= k < i + n && !v[k];
    }
  }

  /** Losing a run shorter than `n` costs no place where `n` bits fit. */
  lemma SkipKeepsFits(v: Word, w: Word, i: nat, e: nat, n: nat)
    requires LowestRun(v, i, e) && e < i + n
    requires forall k | 0 <= k < 64 :: w[k] <==> v[k] && !(i <= k < e)
    ensures forall q | 0 <= q < 64 :: Fits(v, n, q) <==> Fits(w, n, q)
  {
    forall q | 0 <= q < 64
      ensures Fits(v, n, q) <==> Fits(w, n, q)
    {
      if Fits(v, n, q) {
        assert e < q || e >= q + n;
      }
    }
  }

  method FindContBits(value: Word, n: nat) returns (status: nat, pos: nat)
    ensures status in {0, 1, 2}
    ensures status == 0 ==> FirstFit(value, n, pos)
    ensures status != 0 ==> NoFit(value, n) && pos == 0
  {
    var tval := value;
    pos := 0;
    while true
      invariant forall q | 0 <= q < 64 :: Fits(value, n, q) <==> Fits(tval, n, q)
      invariant pos == 0
      decreases Count(tval, 64)
    {
      var first := FindFirstSet(tval);
      if first == 0 {
        return 1, 0;
      }
      var start := first - 1;
      if start + n >= 64 {
        return 2, 0;
      }
      var mask := Mask(n, start);
      if And(tval, mask) == mask {
        MaskTest(tval, start, n);
        assert Fits(tval, n, start);
        assert forall q | 0 <= q < start :: !Fits(tval, n, q);
        return 0, start;
      }
      ghost var was := tval;
      ghost var e := RunEnd(tval, start, n);
      SkipClearsLowestRun(tval, start, e);
      tval := And(tval, Add(tval, Shl(One(), start)));
      SkipKeepsFits(was, tval, start, e, n);
      CountWithout(was, tval, start, e - start, 64);
    }
  }
}
