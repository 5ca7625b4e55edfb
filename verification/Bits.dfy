/** Powers of two and the shifts the log uses: Python's `x >> 1` is `x / 2` and `x & 1` is `x % 2`. */
module Bits {
  function Pow2(d: nat): (r: nat)
    ensures r >= 1
  {
    if d == 0 then 1 else 2 * Pow2(d - 1)
  }

  /** The exponent of the largest power of two below `n`. */
  function SplitExp(n: nat): (d: nat)
    requires n >= 2
    ensures Pow2(d) < n <= 2 * Pow2(d)
  {
    if n == 2 then 0 else 1 + SplitExp((n + 1) / 2)
  }

  /** The largest power of two below `n`. */
  function Split(n: nat): (k: nat)
    requires n >= 2
    ensures 1 <= k < n <= 2 * k
  {
    Pow2(SplitExp(n))
  }

  lemma {:induction false} SplitUnique(n: nat, d: nat)
    requires n >= 2 && Pow2(d) < n <= 2 * Pow2(d)
    ensures SplitExp(n) == d && Split(n) == Pow2(d)
  {
    if n > 2 {
      SplitUnique((n + 1) / 2, d - 1);
    }
  }

  /** The `k <<= 1` loop that starts `_merkle_root`, `_inclusion_proof` and `_subproof`. */
  method SplitPoint(n: nat) returns (k: nat)
    requires n >= 2
    ensures k == Split(n)
  {
    k := 1;
    ghost var d := 0;
    while 2 * k < n
      invariant k == Pow2(d) && k < n
    {
      k := 2 * k;
      d := d + 1;
    }
    SplitUnique(n, d);
  }

  /** The least `d` with `n <= 2^d`. */
  function CeilLog2(n: nat): (d: nat)
    requires n >= 1
    ensures n <= Pow2(d)
    ensures n > 1 ==> d >= 1 && Pow2(d - 1) < n
  {
    if n == 1 then 0 else 1 + SplitExp(n)
  }

  lemma {:induction false} Pow2Monotone(a: nat, b: nat)
    requires a <= b
    ensures Pow2(a) <= Pow2(b)
    decreases b
  {
    if a < b {
      Pow2Monotone(a, b - 1);
    }
  }

  function BitLength(a: nat): nat
  {
    if a == 0 then 0 else 1 + BitLength(a / 2)
  }

  function PopCount(a: nat): nat
  {
    if a == 0 then 0 else a % 2 + PopCount(a / 2)
  }

  /** `a >> k`. */
  function ShiftRight(a: nat, k: nat): nat
  {
    if k == 0 then a else ShiftRight(a / 2, k - 1)
  }
}
