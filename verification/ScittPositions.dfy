/**
 The SCITT walk ends by testing `fn`, where the tlog walk tests `sn`. It therefore accepts some proofs
 before the root's level is reached, and then the leaf index is not bound. This module says exactly when.
 */
module ScittPositions {
  import opened ByteStrings
  import opened Wrappers
  import opened Bits
  import opened Tlog
  import opened ProofWalks
  import opened Inclusion

  /** The walk for index `i` accepts a path of leaf `j`'s shape. */
  ghost predicate Passes(i: nat, j: nat, n: nat)
    requires i < n && j < n
  {
    var len := |Path(j, n)|;
    len <= MAX_PROOF_PATH && After(i, n - 1, len).0 == 0 && WalkSides(i, n - 1, len) == Path(j, n)
  }

  /** Among the entries of a log, the one accepted at `index` with a given path is the one whose shape
      passes there; and every entry whose shape passes is accepted with its own proof. */
  lemma {:induction false} ScittAccepts(h: Hash, entries: seq<Bytes>, payload: Bytes, index: nat, path: seq<Bytes>)
    requires index < |entries|
    ensures forall j :: 0 <= j < |entries| && Passes(index, j, |entries|) ==>
              ScittWalk(h, LeafHash(h, entries[j]), index, |entries|, InclusionProof(h, LeafHashes(h, entries), j))
              == Success(LogRoot(h, entries))
    ensures ScittWalk(h, LeafHash(h, payload), index, |entries|, path) == Success(LogRoot(h, entries)) ==>
              || Collides(h, TreeInputs(h, entries),
                          FoldInputs(h, payload, WalkSides(index, |entries| - 1, |path|), path))
              || exists j :: 0 <= j < |entries| && Passes(index, j, |entries|) && payload == entries[j]
                             && path == InclusionProof(h, LeafHashes(h, entries), j)
  {
    var n, leaves := |entries|, LeafHashes(h, entries);
    forall j | 0 <= j < n && Passes(index, j, n)
      ensures ScittWalk(h, leaves[j], index, n, InclusionProof(h, leaves, j)) == Success(LogRoot(h, entries))
    {
      HonestFold(h, leaves, j);
    }
    if ScittWalk(h, LeafHash(h, payload), index, n, path) == Success(LogRoot(h, entries)) {
      PassingEntry(h, entries, payload, index, path);
    }
  }

  lemma {:induction false} PassingEntry(h: Hash, entries: seq<Bytes>, payload: Bytes, index: nat, path: seq<Bytes>)
    requires index < |entries|
    requires ScittWalk(h, LeafHash(h, payload), index, |entries|, path) == Success(LogRoot(h, entries))
    ensures || Collides(h, TreeInputs(h, entries),
                        FoldInputs(h, payload, WalkSides(index, |entries| - 1, |path|), path))
            || exists j :: 0 <= j < |entries| && Passes(index, j, |entries|) && payload == entries[j]
                           && path == InclusionProof(h, LeafHashes(h, entries), j)
  {
    hide WalkSides, Path, Fold, FoldInputs, TreeInputs, InclusionProof, LeafHashes, MerkleRoot, Collides, After;
    ScittMembership(h, entries, payload, index, |entries|, path);
    var sides := WalkSides(index, |entries| - 1, |path|);
    if !Collides(h, TreeInputs(h, entries), FoldInputs(h, payload, sides, path)) {
      var j :| 0 <= j < |entries| && entries[j] == payload && sides == Path(j, |entries|)
               && path == InclusionProof(h, LeafHashes(h, entries), j);
      assert Passes(index, j, |entries|);
    }
  }

  /** Nothing but a leaf's own shape passes at its index. */
  ghost predicate BindsPosition(n: nat)
  {
    forall i, j :: 0 <= i < n && 0 <= j < n && Passes(i, j, n) ==> i == j
  }

  /** The SCITT walk binds every position of a tree exactly when the tree's size is a power of two, or the
      cap refuses every honest path. */
  lemma ScittBindsPositionIff(n: nat)
    requires n >= 1
    ensures BindsPosition(n) <==> n == Pow2(CeilLog2(n)) || PopCount(n - 1) > MAX_PROOF_PATH
  {
    hide WalkSides, After, Path, CeilLog2, PopCount, Pow2;
    if n == Pow2(CeilLog2(n)) {
      forall i, j | 0 <= i < n && 0 <= j < n && Passes(i, j, n) ensures i == j {
        PerfectBinds(i, j, CeilLog2(n));
      }
    } else if PopCount(n - 1) > MAX_PROOF_PATH {
      forall i, j | 0 <= i < n && 0 <= j < n ensures !Passes(i, j, n) {
        PathIsBits(j, n);
        PathAtLeast(j, n - 1);
      }
    } else {
      CeilOfOne();
      var i := LastLeafPasses(n);
      assert Passes(i, n - 1, n);
    }
  }

  lemma CeilOfOne()
    ensures Pow2(CeilLog2(1)) == 1
  {
  }

  lemma {:induction false} PathAtLeast(m: nat, s: nat)
    requires m <= s
    ensures |BitSides(m, s)| >= PopCount(s)
    decreases s
  {
    if s > 0 {
      PathAtLeast(m / 2, s / 2);
    }
  }

  lemma {:induction false} LastSides(s: nat)
    ensures BitSides(s, s) == Lefts(PopCount(s))
  {
    if s > 0 {
      LastSides(s / 2);
      assert [Left] + Lefts(PopCount(s / 2)) == Lefts(1 + PopCount(s / 2));
    }
  }

  lemma {:induction false} PerfectBinds(i: nat, j: nat, d: nat)
    requires i < Pow2(d) && j < Pow2(d) && WalkSides(i, Pow2(d) - 1, |Path(j, Pow2(d))|) == Path(j, Pow2(d))
    ensures i == j
  {
    hide WalkSides, Path, Pow2;
    PathInPerfectTree(i, d);
    PathInPerfectTree(j, d);
    HonestSides(i, Pow2(d));
    PathInjective(i, j, Pow2(d));
  }

  /** In a tree that is not perfect, the last leaf's shape also passes at a smaller index. */
  lemma {:induction false} LastLeafPasses(n: nat) returns (i: nat)
    requires n > 1 && n != Pow2(CeilLog2(n)) && PopCount(n - 1) <= MAX_PROOF_PATH
    ensures i < n - 1 && Passes(i, n - 1, n)
  {
    hide WalkSides, Path, After, CeilLog2, Pow2, PopCount, BitSides;
    LastPath(n);
    PathIsBits(n - 1, n);
    LastSides(n - 1);
    var a := |Path(n - 1, n)|;
    if Pow2(a) == n {
      PerfectCeil(n, a);
    }
    i := Pow2(a) - 1;
    AllOnes(a, n - 1);
  }

  lemma PerfectCeil(n: nat, a: nat)
    requires n == Pow2(a)
    ensures CeilLog2(n) == a
  {
    if n > 1 {
      SplitUnique(n, a - 1);
    }
  }

  lemma {:induction false} AllOnes(a: nat, s: nat)
    ensures WalkSides(Pow2(a) - 1, s, a) == Lefts(a)
    ensures After(Pow2(a) - 1, s, a).0 == 0
  {
    if a > 0 {
      AllOnes(a - 1, s / 2);
      assert Strip(Pow2(a) - 1, s) == (Pow2(a) - 1, s);
      assert (Pow2(a) - 1) / 2 == Pow2(a - 1) - 1;
    }
  }

  lemma {:induction false} LastPath(n: nat)
    requires n >= 1
    ensures var a := |Path(n - 1, n)|;
            Path(n - 1, n) == Lefts(a) && Pow2(a) <= n
  {
    if n > 1 {
      var k := Split(n);
      LastPath(n - k);
      var a := |Path(n - k - 1, n - k)|;
      assert Lefts(a) + [Left] == Lefts(a + 1);
    }
  }

  // ----- one index at a time --------------------------------------------------------------

  /** `a` has no zero bit. */
  predicate Ones(a: nat)
  {
    a + 1 == Pow2(BitLength(a))
  }

  /** How many bits of `a` lie below its leading run of ones. */
  function BelowRun(a: nat): nat
  {
    if Ones(a) then 0 else 1 + BelowRun(a / 2)
  }

  /** At and above the leading run of ones of the index, the last index has as many ones but is not the same
      number, and just below the run it has a one. */
  predicate Confusable(i: nat, s: nat)
  {
    var x := BelowRun(i);
    && i > 0
    && PopCount(ShiftRight(s, x)) == BitLength(ShiftRight(i, x))
    && ShiftRight(s, x) != ShiftRight(i, x)
    && (x > 0 ==> ShiftRight(s, x - 1) % 2 == 1)
  }

  /** The other leaf whose path passes at a confusable index: the last one at and above the run. */
  function Other(i: nat, s: nat): nat
  {
    if Ones(i) then s else 2 * Other(i / 2, s / 2) + i % 2
  }

  lemma OnesHalved(a: nat)
    ensures a > 0 ==> (Ones(a) <==> a % 2 == 1 && Ones(a / 2))
  {
  }

  lemma ConfusableHalved(i: nat, s: nat)
    requires !Ones(i)
    ensures Confusable(i, s) <==> Confusable(i / 2, s / 2) && (Ones(i / 2) ==> s % 2 == 1)
  {
    hide PopCount;
    OnesHalved(i);
    var x := BelowRun(i / 2);
    assert BelowRun(i) == x + 1;
    assert ShiftRight(s, x) == if x == 0 then s else ShiftRight(s / 2, x - 1);
  }

  lemma ConfusableOnes(i: nat, s: nat)
    requires Ones(i)
    ensures Confusable(i, s) <==> i > 0 && PopCount(s) == BitLength(i) && s != i
  {
  }

  lemma {:induction false} BitLengthOfOnes(k: nat)
    ensures BitLength(Pow2(k) - 1) == k && Ones(Pow2(k) - 1)
  {
    if k > 0 {
      BitLengthOfOnes(k - 1);
    }
  }

  /** Away from the last node one step of a walk halves both numbers. */
  lemma StepBelowLast(i: nat, s: nat, len: nat)
    requires i < s && len > 0
    ensures WalkSides(i, s, len) == [if i % 2 == 1 then Left else Right] + WalkSides(i / 2, s / 2, len - 1)
    ensures After(i, s, len) == After(i / 2, s / 2, len - 1)
  {
  }

  lemma {:induction false} LastStaysLast(s: nat, len: nat)
    ensures After(s, s, len).0 == After(s, s, len).1
    decreases len
  {
    if len > 0 {
      StripEqual(s);
      LastStaysLast(Up(s, s).0, len - 1);
    }
  }

  /** A walk that only puts siblings on the left and ends early starts from an index of ones only. */
  lemma {:induction false} LeftsMeanOnes(i: nat, s: nat, len: nat)
    requires i <= s && WalkSides(i, s, len) == Lefts(len) && After(i, s, len).0 == 0 < After(i, s, len).1
    ensures i == Pow2(len) - 1
    decreases len
  {
    hide WalkSides, After;
    if i == s {
      LastStaysLast(s, len);
    } else if len > 0 {
      StepBelowLast(i, s, len);
      assert WalkSides(i, s, len)[1..] == Lefts(len - 1) && WalkSides(i, s, len)[0] == Left;
      LeftsMeanOnes(i / 2, s / 2, len - 1);
    } else {
      WalkNowhere(i, s);
    }
  }

  lemma WalkNowhere(i: nat, s: nat)
    ensures WalkSides(i, s, 0) == [] && After(i, s, 0) == (i, s)
  {
  }

  lemma BitSidesBelowLast(j: nat, s: nat)
    requires j < s
    ensures BitSides(j, s) == [if j % 2 == 1 then Left else Right] + BitSides(j / 2, s / 2)
  {
  }

  /** An early end on the path of another leaf happens at confusable indices only, after as many steps as the
      index has bits. */
  lemma {:induction false} EarlyEndIsConfusable(i: nat, j: nat, s: nat, len: nat)
    requires i <= s && j <= s && i != j && len == |BitSides(j, s)|
    requires WalkSides(i, s, len) == BitSides(j, s) && After(i, s, len).0 == 0 < After(i, s, len).1
    ensures Confusable(i, s) && len == BitLength(i) && (Ones(i) ==> j == s)
    decreases s
  {
    hide WalkSides, After, BitSides, Confusable, Ones, Pow2, PopCount;
    if i == s {
      LastStaysLast(s, len);
    } else if j == s {
      LastSides(s);
      LeftsMeanOnes(i, s, len);
      BitLengthOfOnes(len);
      ConfusableOnes(i, s);
      PopCountPositive(s);
    } else {
      BitSidesBelowLast(j, s);
      StepBelowLast(i, s, len);
      assert WalkSides(i, s, len)[0] == BitSides(j, s)[0] && WalkSides(i, s, len)[1..] == BitSides(j, s)[1..];
      EarlyEndIsConfusable(i / 2, j / 2, s / 2, len - 1);
      OnesHalved(i);
      ConfusablePositive(i / 2, s / 2);
      ConfusableHalved(i, s);
    }
  }

  lemma PopCountPositive(s: nat)
    requires s > 0
    ensures PopCount(s) > 0 && Pow2(PopCount(s)) >= 2
  {
  }

  lemma ConfusablePositive(i: nat, s: nat)
    requires Confusable(i, s)
    ensures i > 0
  {
  }

  lemma {:induction false} ConfusableEndsEarly(i: nat, s: nat)
    requires i <= s && Confusable(i, s)
    ensures var j := Other(i, s);
            && i < s && j <= s && j != i && (j == s <==> Ones(i))
            && WalkSides(i, s, BitLength(i)) == BitSides(j, s) && After(i, s, BitLength(i)).0 == 0
    decreases i
  {
    hide WalkSides, After, BitSides, Confusable, Ones, Pow2, PopCount;
    ConfusablePositive(i, s);
    if Ones(i) {
      ConfusableOnes(i, s);
      LastSides(s);
      OnesArePow2(i);
      AllOnes(BitLength(i), s);
    } else {
      OnesHalved(i);
      ConfusableHalved(i, s);
      ConfusableEndsEarly(i / 2, s / 2);
      BitSidesBelowLast(Other(i, s), s);
      StepBelowLast(i, s, BitLength(i));
    }
  }

  lemma OnesArePow2(a: nat)
    requires Ones(a)
    ensures a == Pow2(BitLength(a)) - 1
  {
  }

  /** Another leaf's path passes at index `i` exactly when `i` is confusable and the cap admits as many
      elements as `i` has bits. */
  lemma {:induction false} ScittBindsIndexIff(i: nat, n: nat)
    requires i < n
    ensures (forall j :: 0 <= j < n && Passes(i, j, n) ==> j == i)
            <==> !(Confusable(i, n - 1) && BitLength(i) <= MAX_PROOF_PATH)
  {
    hide WalkSides, After, BitSides, Path, Confusable, BitLength, Other;
    forall j | 0 <= j < n && Passes(i, j, n) && j != i
      ensures Confusable(i, n - 1) && BitLength(i) <= MAX_PROOF_PATH
    {
      var len := |Path(j, n)|;
      PathIsBits(j, n);
      if After(i, n - 1, len).1 == 0 {
        WalkBindsPosition(i, j, n, len);
      }
      EarlyEndIsConfusable(i, j, n - 1, len);
    }
    if Confusable(i, n - 1) && BitLength(i) <= MAX_PROOF_PATH {
      var j := OtherPasses(i, n);
    }
  }

  lemma {:induction false} OtherPasses(i: nat, n: nat) returns (j: nat)
    requires i < n && Confusable(i, n - 1) && BitLength(i) <= MAX_PROOF_PATH
    ensures j == Other(i, n - 1) && j < n && j != i && Passes(i, j, n)
  {
    hide WalkSides, After, BitSides, Path, Confusable, BitLength, Other, Ones;
    j := Other(i, n - 1);
    ConfusableEndsEarly(i, n - 1);
    PathIsBits(j, n);
  }

  /** Position binding of the SCITT walk, index by index. Where no other leaf's path passes, only the entry at
      the index is accepted, with its own proof, up to collision; anywhere else a leaf at another index is. */
  lemma {:induction false} ScittPositionExact(h: Hash, entries: seq<Bytes>, payload: Bytes, index: nat, path: seq<Bytes>)
    requires index < |entries|
    ensures var (n, leaves) := (|entries|, LeafHashes(h, entries));
            var accepted := ScittWalk(h, LeafHash(h, payload), index, n, path) == Success(LogRoot(h, entries));
            if Confusable(index, n - 1) && BitLength(index) <= MAX_PROOF_PATH then
              var j := Other(index, n - 1);
              && j < n && j != index
              && ScittWalk(h, leaves[j], index, n, InclusionProof(h, leaves, j)) == Success(LogRoot(h, entries))
            else
              accepted ==> || (payload == entries[index] && path == InclusionProof(h, leaves, index))
                           || Collides(h, TreeInputs(h, entries), FoldInputs(h, payload, WalkSides(index, n - 1, |path|), path))
  {
    hide *;
    ScittAccepts(h, entries, payload, index, path);
    ScittBindsIndexIff(index, |entries|);
    if Confusable(index, |entries| - 1) && BitLength(index) <= MAX_PROOF_PATH {
      var j := OtherPasses(index, |entries|);
      LeafHashesSplit(h, entries, 0);
    }
  }

  /** Index 1 of a three-entry log: the third entry, with a path of length one, is accepted there. */
  lemma {:induction false} ScittConfusion(h: Hash, a: Bytes, b: Bytes, c: Bytes)
    ensures var sibling := NodeHash(h, LeafHash(h, a), LeafHash(h, b));
            && ScittWalk(h, LeafHash(h, c), 1, 3, [sibling]) == Success(LogRoot(h, [a, b, c]))
            && TlogWalk(h, LeafHash(h, c), 1, 3, [sibling]) == Failure(TooShort)
  {
    var entries, sibling := [a, b, c], NodeHash(h, LeafHash(h, a), LeafHash(h, b));
    var leaves := LeafHashes(h, entries);
    SplitUnique(3, 1);
    SplitUnique(2, 0);
    assert leaves[..2][..1] == [leaves[0]] && leaves[..2][1..] == [leaves[1]] && leaves[2..] == [leaves[2]];
    assert InclusionProof(h, leaves, 2) == InclusionProof(h, leaves[2..], 0) + [MerkleRoot(h, leaves[..2])] == [sibling];
    assert Path(2, 3) == Path(0, 1) + [Left] == [Left];
    assert Up(1, 2) == (0, 1);
    assert WalkSides(1, 2, 1) == [Left] + WalkSides(0, 1, 0) == [Left];
    assert After(1, 2, 1) == After(0, 1, 0) == (0, 1);
    assert Passes(1, 2, 3);
    ScittAccepts(h, entries, c, 1, [sibling]);
  }

  /** The declared size is not bound either: index 1 of size 2, a power of two, accepts the third entry of a
      three-entry log. */
  lemma ScittDeclaredSize(h: Hash, a: Bytes, b: Bytes, c: Bytes)
    ensures var sibling := NodeHash(h, LeafHash(h, a), LeafHash(h, b));
            ScittWalk(h, LeafHash(h, c), 1, 2, [sibling]) == Success(LogRoot(h, [a, b, c]))
  {
    hide MerkleRoot, NodeHash, LeafHash, LogRoot;
    var sibling := NodeHash(h, LeafHash(h, a), LeafHash(h, b));
    ScittConfusion(h, a, b, c);
    assert Up(1, 1) == (0, 0) && Up(1, 2) == (0, 1);
    assert WalkSides(1, 1, 1) == [Left] + WalkSides(0, 0, 0) == [Left] + WalkSides(0, 1, 0) == WalkSides(1, 2, 1);
    assert After(1, 1, 1) == After(0, 0, 0) && After(1, 2, 1) == After(0, 1, 0);
  }
}
