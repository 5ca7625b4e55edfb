/** Exact and worst-case proof lengths, and what the 64-element cap of the SCITT walk costs. */
module ProofLengths {
  import opened Wrappers
  import opened Bits
  import opened Tlog
  import opened ProofWalks
  import Inclusion

  function Xor(a: nat, b: nat): nat
  {
    if a == 0 && b == 0 then 0 else (if a % 2 == b % 2 then 0 else 1) + 2 * Xor(a / 2, b / 2)
  }

  lemma {:induction false} XorZero(a: nat, b: nat)
    ensures Xor(a, b) == 0 <==> a == b
  {
    if a != 0 || b != 0 {
      XorZero(a / 2, b / 2);
    }
  }

  /** Halving both arguments drops one bit of the exclusive or. */
  lemma {:induction false} XorLength(a: nat, b: nat)
    ensures BitLength(Xor(a, b)) == if a == b then 0 else 1 + BitLength(Xor(a / 2, b / 2))
  {
    XorZero(a, b);
    if a != b {
      assert Xor(a, b) / 2 == Xor(a / 2, b / 2);
    }
  }

  lemma {:induction false} BitSidesLength(m: nat, s: nat)
    requires m <= s
    ensures var x := BitLength(Xor(m, s));
            |BitSides(m, s)| == x + PopCount(ShiftRight(m, x))
    decreases s
  {
    XorLength(m, s);
    if s > 0 {
      BitSidesLength(m / 2, s / 2);
      XorLength(m / 2, s / 2);
    }
  }

  /** The number of elements of an inclusion proof: the bits below and including the highest one in
      which `m` and the last index differ, plus the ones of `m` above them. */
  lemma {:induction false} InclusionProofLength(h: Hash, leaves: seq<Digest>, m: nat)
    requires m < |leaves|
    ensures var x := BitLength(Xor(m, |leaves| - 1));
            |InclusionProof(h, leaves, m)| == x + PopCount(ShiftRight(m, x))
    ensures |InclusionProof(h, leaves, m)| <= CeilLog2(|leaves|)
  {
    hide *;
    Inclusion.HonestFold(h, leaves, m);
    PathIsBits(m, |leaves|);
    BitSidesLength(m, |leaves| - 1);
    PathBound(m, |leaves|, CeilLog2(|leaves|));
  }

  lemma SplitBelow(n: nat, d: nat)
    requires 1 < n <= Pow2(d)
    ensures d >= 1 && n - Split(n) <= Split(n) <= Pow2(d - 1)
  {
    var e := SplitExp(n);
    if e >= d {
      Pow2Monotone(d, e);
    } else {
      Pow2Monotone(e, d - 1);
    }
  }

  lemma {:induction false} PathBound(m: nat, n: nat, d: nat)
    requires m < n <= Pow2(d)
    ensures |Path(m, n)| <= d
    decreases n
  {
    if n > 1 {
      var k := Split(n);
      SplitBelow(n, d);
      if m < k {
        PathBound(m, k, d - 1);
      } else {
        PathBound(m - k, n - k, d - 1);
      }
    }
  }

  lemma CapIs()
    ensures MAX_PROOF_PATH == 64
  {
  }

  /** The cap never refuses an honest proof of a log of up to 2^64 entries. */
  lemma {:induction false} CapAdmitsHonestProofs(h: Hash, leaves: seq<Digest>, m: nat)
    requires m < |leaves| <= Pow2(64)
    ensures ScittWalk(h, leaves[m], m, |leaves|, InclusionProof(h, leaves, m)) == Success(MerkleRoot(h, leaves))
  {
    hide *;
    CapIs();
    Inclusion.HonestFold(h, leaves, m);
    PathBound(m, |leaves|, 64);
    Inclusion.TlogCompleteness(h, leaves, m);
    Inclusion.ScittFollowsTlog(h, leaves[m], m, |leaves|, InclusionProof(h, leaves, m));
  }

  lemma {:induction false} SubproofBound(h: Hash, m: nat, leaves: seq<Digest>, whole: bool, d: nat)
    requires 1 <= m <= |leaves| <= Pow2(d)
    ensures |Subproof(h, m, leaves, whole)| <= d + 1
    decreases |leaves|
  {
    hide MerkleRoot, Pow2, SplitExp;
    var n := |leaves|;
    if m < n {
      var k := Split(n);
      SplitBelow(n, d);
      if m <= k {
        SubproofBound(h, m, leaves[..k], whole, d - 1);
      } else {
        SubproofBound(h, m - k, leaves[k..], false, d - 1);
      }
    }
  }

  lemma ConsistencyProofLength(h: Hash, leaves: seq<Digest>, m: int)
    requires leaves != []
    ensures |ConsistencyProof(h, leaves, m)| <= CeilLog2(|leaves|) + 1
  {
    if 1 <= m <= |leaves| {
      SubproofBound(h, m, leaves, true, CeilLog2(|leaves|));
    }
  }
}
