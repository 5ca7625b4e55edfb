/**
 Inclusion walks for a declared size that need not be the log's own: a receipt carries index and size next to
 the path, and nothing but the walk checks them. Which leaf of which log a declaration can be about.
 */
module DeclaredSizes {
  import opened ByteStrings
  import opened Wrappers
  import opened Bits
  import opened Tlog
  import opened ProofWalks
  import opened Inclusion
  import opened ScittPositions

  // ----- reading the leaf off a path ------------------------------------------------------

  /** The leaf whose path these sides are, in the tree with last index `u`. */
  function LeafAt(sides: Sides, u: nat): Option<nat>
  {
    if Right !in sides then if |sides| == PopCount(u) then Some(u) else None
    else
      match LeafAt(sides[1..], u / 2)
      case None => None
      case Some(j) =>
        if Right !in sides[1..] && u % 2 == 0 then None else Some(2 * j + if sides[0].Left? then 1 else 0)
  }

  lemma {:induction false} LeafAtSound(sides: Sides, u: nat)
    requires LeafAt(sides, u).Some?
    ensures var j := LeafAt(sides, u).value;
            j <= u && (j < u <==> Right in sides) && BitSides(j, u) == sides
  {
    hide BitSides, PopCount;
    if Right !in sides {
      LastSides(u);
      forall k | 0 <= k < |sides| ensures sides[k] == Left {
        assert sides[k] in sides;
      }
      assert sides == Lefts(|sides|);
    } else {
      assert sides == [sides[0]] + sides[1..];
      LeafAtSound(sides[1..], u / 2);
      BitSidesBelowLast(LeafAt(sides, u).value, u);
    }
  }

  lemma {:induction false} LeafAtComplete(j: nat, u: nat)
    requires j <= u
    ensures LeafAt(BitSides(j, u), u) == Some(j)
    decreases u
  {
    hide BitSides, PopCount;
    if j == u {
      LastSides(u);
    } else {
      BitSidesBelowLast(j, u);
      LeafAtComplete(j / 2, u / 2);
      var tail := BitSides(j / 2, u / 2);
      LeafAtSound(tail, u / 2);
      assert BitSides(j, u)[1..] == tail && BitSides(j, u)[0] == if j % 2 == 1 then Left else Right;
      assert Right in BitSides(j, u) by {
        assert Right in tail ==> Right in BitSides(j, u)[1..];
      }
    }
  }

  /** Sides and leaves of a tree correspond. */
  lemma LeafAtExact(sides: Sides, n: nat, j: nat)
    requires n >= 1
    ensures LeafAt(sides, n - 1) == Some(j) <==> j < n && Path(j, n) == sides
  {
    hide BitSides, Path, LeafAt;
    if LeafAt(sides, n - 1).Some? {
      LeafAtSound(sides, n - 1);
      PathIsBits(LeafAt(sides, n - 1).value, n);
    }
    if j < n {
      PathIsBits(j, n);
      LeafAtComplete(j, n - 1);
    }
  }

  // ----- exact acceptance for any declared index and size ---------------------------------

  /** The leaf of a log of `n` entries that the tlog walk can accept for a declaration and a proof length. */
  function TlogLeaf(index: int, size: int, len: nat, n: nat): Option<nat>
  {
    if !(0 <= index < size) || n == 0 || After(index, size - 1, len).1 != 0 then None
    else LeafAt(WalkSides(index, size - 1, len), n - 1)
  }

  /** The same for the SCITT walk. */
  function ScittLeaf(index: int, size: int, len: nat, n: nat): Option<nat>
  {
    if !(0 <= index < size) || n == 0 || len > MAX_PROOF_PATH || After(index, size - 1, len).0 != 0 then None
    else LeafAt(WalkSides(index, size - 1, len), n - 1)
  }

  /** The honest proof of a leaf folds to the root along any walk that takes the sides of its path. */
  lemma {:induction false} WalkTakesPath(h: Hash, entries: seq<Bytes>, j: nat, index: nat, last: nat)
    requires j < |entries|
    requires var len := |InclusionProof(h, LeafHashes(h, entries), j)|;
             WalkSides(index, last, len) == Path(j, |entries|)
    ensures var proof := InclusionProof(h, LeafHashes(h, entries), j);
            && |proof| == |Path(j, |entries|)| && AllDigests(proof)
            && Fold(h, LeafHash(h, entries[j]), WalkSides(index, last, |proof|), proof) == LogRoot(h, entries)
  {
    hide WalkSides, Path, Fold, InclusionProof, MerkleRoot;
    HonestFold(h, LeafHashes(h, entries), j);
  }

  /** `e` with `proof` is the leaf `j` of the log with its own proof. */
  ghost predicate Honest(h: Hash, entries: seq<Bytes>, e: Bytes, proof: seq<Bytes>, j: Option<nat>)
  {
    j.Some? && j.value < |entries| && e == entries[j.value] && proof == InclusionProof(h, LeafHashes(h, entries), j.value)
  }

  lemma {:induction false} LeafFound(h: Hash, entries: seq<Bytes>, e: Bytes, sides: Sides, proof: seq<Bytes>)
    requires |sides| == |proof| && AllDigests(proof) && entries != []
    requires Fold(h, LeafHash(h, e), sides, proof) == LogRoot(h, entries)
    requires !Collides(h, TreeInputs(h, entries), FoldInputs(h, e, sides, proof))
    ensures Honest(h, entries, e, proof, LeafAt(sides, |entries| - 1))
  {
    hide Fold, Path, InclusionProof, LeafHashes, TreeInputs, FoldInputs, Collides, LeafAt, LogRoot;
    var j := FoldMembership(h, entries, e, sides, proof);
    LeafAtExact(sides, |entries|, j);
  }

  /** A proof that folds to the root of an empty log collides. */
  lemma {:induction false} EmptyLogCollides(h: Hash, e: Bytes, sides: Sides, proof: seq<Bytes>)
    requires |sides| == |proof| && AllDigests(proof)
    requires Fold(h, LeafHash(h, e), sides, proof) == LogRoot(h, [])
    ensures Collides(h, TreeInputs(h, []), FoldInputs(h, e, sides, proof))
  {
    hide Fold, Path, InclusionProof, LeafHashes, TreeInputs, FoldInputs, Collides, LogRoot;
    if !Collides(h, TreeInputs(h, []), FoldInputs(h, e, sides, proof)) {
      var j := FoldMembership(h, [], e, sides, proof);
    }
  }

  /** What the SCITT walk accepts against the root of a log, for any declared index and size: the leaf read off
      the walk's sides, with its own proof, and nothing else up to collision. */
  lemma {:induction false} ScittExact(h: Hash, entries: seq<Bytes>, payload: Bytes, index: int, size: int, path: seq<Bytes>)
    ensures var accepted := ScittWalk(h, LeafHash(h, payload), index, size, path) == Success(LogRoot(h, entries));
            var honest := Honest(h, entries, payload, path, ScittLeaf(index, size, |path|, |entries|));
            && (honest ==> accepted)
            && (accepted ==>
                  || honest
                  || Collides(h, TreeInputs(h, entries),
                              FoldInputs(h, payload, WalkSides(index, size - 1, |path|), path)))
  {
    hide WalkSides, After, Path, Fold, InclusionProof, LeafHashes, TreeInputs, FoldInputs, Collides, LeafAt, LogRoot;
    var j := ScittLeaf(index, size, |path|, |entries|);
    if Honest(h, entries, payload, path, j) {
      LeafAtExact(WalkSides(index, size - 1, |path|), |entries|, j.value);
      WalkTakesPath(h, entries, j.value, index, size - 1);
    }
    if ScittWalk(h, LeafHash(h, payload), index, size, path) == Success(LogRoot(h, entries)) {
      var sides := WalkSides(index, size - 1, |path|);
      if entries == [] {
        EmptyLogCollides(h, payload, sides, path);
      } else if !Collides(h, TreeInputs(h, entries), FoldInputs(h, payload, sides, path)) {
        LeafFound(h, entries, payload, sides, path);
      }
    }
  }

  /** The same for the tlog walk. */
  lemma {:induction false} TlogExact(h: Hash, entries: seq<Bytes>, e: Bytes, index: int, size: int, proof: seq<Bytes>)
    ensures var accepted := TlogWalk(h, LeafHash(h, e), index, size, proof) == Success(LogRoot(h, entries));
            var honest := Honest(h, entries, e, proof, TlogLeaf(index, size, |proof|, |entries|));
            && (honest ==> accepted)
            && (accepted ==>
                  || honest
                  || Collides(h, TreeInputs(h, entries),
                              FoldInputs(h, e, WalkSides(index, size - 1, |proof|), proof)))
  {
    hide WalkSides, After, Path, Fold, InclusionProof, LeafHashes, TreeInputs, FoldInputs, Collides, LeafAt, LogRoot;
    var j := TlogLeaf(index, size, |proof|, |entries|);
    if Honest(h, entries, e, proof, j) {
      LeafAtExact(WalkSides(index, size - 1, |proof|), |entries|, j.value);
      WalkTakesPath(h, entries, j.value, index, size - 1);
    }
    if TlogWalk(h, LeafHash(h, e), index, size, proof) == Success(LogRoot(h, entries)) {
      var sides := WalkSides(index, size - 1, |proof|);
      if entries == [] {
        EmptyLogCollides(h, e, sides, proof);
      } else if !Collides(h, TreeInputs(h, entries), FoldInputs(h, e, sides, proof)) {
        LeafFound(h, entries, e, sides, proof);
      }
    }
  }

  // ----- a declared size is not bound -----------------------------------------------------

  /** The number whose bits, lowest first, are the sides, a left sibling standing for a one. */
  function Num(sides: Sides): nat
  {
    if sides == [] then 0 else (if sides[0].Left? then 1 else 0) + 2 * Num(sides[1..])
  }

  /** Below a large enough last index the walk of that number takes just these sides and then ends. */
  lemma {:induction false} NumWalks(sides: Sides, last: nat)
    requires last >= Pow2(|sides|)
    ensures Num(sides) < Pow2(|sides|)
    ensures WalkSides(Num(sides), last, |sides|) == sides && After(Num(sides), last, |sides|).0 == 0
  {
    hide WalkSides, After;
    if sides == [] {
      WalkNowhere(0, last);
    } else {
      NumWalks(sides[1..], last / 2);
      StepBelowLast(Num(sides), last, |sides|);
      assert sides == [sides[0]] + sides[1..];
    }
  }

  /** An entry with a path the cap admits passes, with its honest proof, under every declared size from some
      size on. */
  lemma {:induction false} ScittLargerSizes(h: Hash, entries: seq<Bytes>, j: nat, size: nat)
    requires j < |entries| && |Path(j, |entries|)| <= MAX_PROOF_PATH && size > Pow2(|Path(j, |entries|)|)
    ensures var leaves := LeafHashes(h, entries);
            ScittWalk(h, leaves[j], Num(Path(j, |entries|)), size, InclusionProof(h, leaves, j)) == Success(LogRoot(h, entries))
  {
    hide WalkSides, After, Path, Fold, InclusionProof, LogRoot, Pow2, Num;
    var sides := Path(j, |entries|);
    HonestFold(h, LeafHashes(h, entries), j);
    NumWalks(sides, size - 1);
    WalkTakesPath(h, entries, j, Num(sides), size - 1);
  }

  /** The SCITT walk lets the honest proof of an entry pass under a false size exactly when the cap admits it. */
  lemma {:induction false} ScittDeclaredSizeIff(h: Hash, entries: seq<Bytes>, j: nat)
    requires j < |entries|
    ensures var leaves := LeafHashes(h, entries);
            (exists i, size :: size != |entries|
                  && ScittWalk(h, leaves[j], i, size, InclusionProof(h, leaves, j)) == Success(LogRoot(h, entries)))
            <==> |Path(j, |entries|)| <= MAX_PROOF_PATH
  {
    hide WalkSides, After, Path, Fold, InclusionProof, LogRoot, Pow2, Num, MerkleRoot;
    HonestFold(h, LeafHashes(h, entries), j);
    if |Path(j, |entries|)| <= MAX_PROOF_PATH {
      var large := Pow2(|Path(j, |entries|)|) + 1;
      ScittLargerSizes(h, entries, j, if large == |entries| then large + 1 else large);
    }
  }

  /** A leaf's shape completes the tlog walk at a declared index and size. */
  ghost predicate Completes(i: nat, size: nat, j: nat, n: nat)
    requires i < size && j < n
  {
    var len := |Path(j, n)|;
    After(i, size - 1, len).1 == 0 && WalkSides(i, size - 1, len) == Path(j, n)
  }

  /** An entry of the right half completes the walk of its place in that half. */
  lemma {:induction false} RightHalfCompletes(i: nat, size: nat, d: nat)
    requires i < size <= Pow2(d)
    ensures Path(Pow2(d) + i, Pow2(d) + size) == Path(i, size) + [Left]
    ensures Completes(i, size, Pow2(d) + i, Pow2(d) + size)
  {
    hide WalkSides, After, Path, Pow2, BitSides;
    var (j, n) := (Pow2(d) + i, Pow2(d) + size);
    PathIsBits(i, size);
    PathIsBits(j, n);
    BitsAboveSplit(i, size - 1, d);
    var len := |Path(i, size)| + 1;
    WalkFollowsBits(i, size - 1, len);
    assert (Path(i, size) + Lefts(len))[..len] == Path(i, size) + [Left];
  }

  /** No declaration binds an index on its own. For every declared index and size there are logs, of any entries,
      with another entry at which the honest proof passes, in the tlog walk and under the cap in the SCITT walk. */
  lemma {:induction false} NoIndexBound(h: Hash, entries: seq<Bytes>, i: nat, size: nat, d: nat)
    requires i < size <= Pow2(d) && |entries| == Pow2(d) + size
    ensures var (leaves, j) := (LeafHashes(h, entries), Pow2(d) + i);
            && TlogWalk(h, leaves[j], i, size, InclusionProof(h, leaves, j)) == Success(LogRoot(h, entries))
            && (|Path(i, size)| < MAX_PROOF_PATH ==>
                  ScittWalk(h, leaves[j], i, size, InclusionProof(h, leaves, j)) == Success(LogRoot(h, entries)))
  {
    hide WalkSides, After, Path, Fold, InclusionProof, LogRoot, MerkleRoot, Pow2;
    var j := Pow2(d) + i;
    HonestFold(h, LeafHashes(h, entries), j);
    RightHalfCompletes(i, size, d);
    WalkTakesPath(h, entries, j, i, size - 1);
    if |Path(i, size)| < MAX_PROOF_PATH {
      ScittFollowsTlog(h, LeafHashes(h, entries)[j], i, size, InclusionProof(h, LeafHashes(h, entries), j));
    }
  }

  /** An entry of the left half completes the walk of its own index under every size with the same left half. */
  lemma {:induction false} LeftHalfCompletes(j: nat, n: nat, size: nat, d: nat)
    requires j < Pow2(d) < n <= 2 * Pow2(d) && Pow2(d) < size <= 2 * Pow2(d)
    ensures Completes(j, size, j, n)
  {
    hide WalkSides, After, Path, Pow2, BitSides;
    PathIsBits(j, n);
    PathIsBits(j, size);
    BitsBelowSplit(j, n - 1, d);
    BitsBelowSplit(j, size - 1, d);
    HonestSides(j, size);
  }

  /** The tlog walk binds the size of a log only for the entry of a single-entry log and the first of two. */
  lemma TlogDeclaredSizeIff(j: nat, n: nat)
    requires j < n
    ensures (exists i: nat, size: nat :: i < size && size != n && Completes(i, size, j, n)) <==> n > 2 || j == 1
  {
    hide Completes, SplitExp, Pow2;
    if n > 2 || j == 1 {
      var d := SplitExp(n);
      if j >= Pow2(d) {
        RightHalfCompletes(j - Pow2(d), n - Pow2(d), d);
      } else {
        PowIsOne(d);
        LeftHalfCompletes(j, n, if n == 2 * Pow2(d) then n - 1 else n + 1, d);
      }
    } else {
      forall i: nat, size: nat | i < size && Completes(i, size, j, n) ensures size == n {
        SmallSizes(i, size, n);
      }
    }
  }

  lemma PowIsOne(d: nat)
    ensures Pow2(d) == 1 || Pow2(d) >= 2
  {
  }

  lemma SmallSizes(i: nat, size: nat, n: nat)
    requires i < size && 1 <= n <= 2 && Completes(i, size, 0, n)
    ensures size == n
  {
    hide Path, BitSides, WalkSides, After;
    PathIsBits(0, n);
    LowPaths();
    WalkFollowsBits(i, size - 1, n - 1);
    WalkNowhere(i, size - 1);
    if n == 2 {
      assert (BitSides(i, size - 1) + Lefts(1))[..1] == [Right];
      if i == size - 1 {
        LastSides(i);
        assert (Lefts(PopCount(i)) + Lefts(1))[0] == Left;
      } else {
        BitSidesBelowLast(i, size - 1);
        PathIsBits(i / 2, (size - 1) / 2 + 1);
        PathEmpty(i / 2, (size - 1) / 2 + 1);
      }
    }
  }

  lemma LowPaths()
    ensures BitSides(0, 0) == [] && BitSides(0, 1) == [Right]
  {
    assert BitSides(0, 1) == [Right] + BitSides(0, 0);
  }
}
