/**
 Inclusion proofs, both ways. SHA-256 is not injective, so soundness is stated over the byte strings
 actually hashed: either the conclusion holds or one of the tree's preimages and a different one of
 the walk's preimages have the same hash.
 */
module Inclusion {
  import opened ByteStrings
  import opened Wrappers
  import opened Bits
  import opened Tlog
  import opened ProofWalks

  // ----- collisions -----------------------------------------------------------------------

  ghost predicate IsCollision(h: Hash, x: Bytes, y: Bytes)
  {
    x != y && h(x) == h(y)
  }

  /** A member of `X` and a different member of `Y` hash alike. */
  ghost predicate Collides(h: Hash, X: set<Bytes>, Y: set<Bytes>)
  {
    exists x, y {:trigger IsCollision(h, x, y)} :: x in X && y in Y && IsCollision(h, x, y)
  }

  function LogRoot(h: Hash, entries: seq<Bytes>): Digest
  {
    MerkleRoot(h, LeafHashes(h, entries))
  }

  /** The byte string whose hash is the root of the log. */
  ghost function TreeTop(h: Hash, entries: seq<Bytes>): Bytes
  {
    if |entries| == 0 then []
    else if |entries| == 1 then [0] + entries[0]
    else
      var k := Split(|entries|);
      [1] + LogRoot(h, entries[..k]) + LogRoot(h, entries[k..])
  }

  /** Every byte string hashed while building the tree over `entries`. */
  ghost function TreeInputs(h: Hash, entries: seq<Bytes>): set<Bytes>
  {
    {TreeTop(h, entries)} +
    if |entries| <= 1 then {}
    else
      var k := Split(|entries|);
      TreeInputs(h, entries[..k]) + TreeInputs(h, entries[k..])
  }

  /** The byte string hashed last by a walk that starts from `entry`. */
  ghost function FoldTop(h: Hash, entry: Bytes, sides: Sides, proof: seq<Bytes>): Bytes
    requires |sides| == |proof|
  {
    if proof == [] then [0] + entry
    else
      var n := |proof| - 1;
      var r := Fold(h, LeafHash(h, entry), sides[..n], proof[..n]);
      if sides[n].Left? then [1] + proof[n] + r else [1] + r + proof[n]
  }

  /** Every byte string hashed by a walk that starts from `entry`. */
  ghost function FoldInputs(h: Hash, entry: Bytes, sides: Sides, proof: seq<Bytes>): set<Bytes>
    requires |sides| == |proof|
  {
    {FoldTop(h, entry, sides, proof)} +
    if proof == [] then {}
    else FoldInputs(h, entry, sides[..|proof| - 1], proof[..|proof| - 1])
  }

  lemma LeafHashesSplit(h: Hash, entries: seq<Bytes>, k: nat)
    requires k <= |entries|
    ensures LeafHashes(h, entries)[..k] == LeafHashes(h, entries[..k])
    ensures LeafHashes(h, entries)[k..] == LeafHashes(h, entries[k..])
  {
  }

  lemma LogRootIsHash(h: Hash, entries: seq<Bytes>)
    ensures LogRoot(h, entries) == h(TreeTop(h, entries))
  {
    if |entries| >= 2 {
      LeafHashesSplit(h, entries, Split(|entries|));
    }
  }

  lemma FoldIsHash(h: Hash, e: Bytes, sides: Sides, proof: seq<Bytes>)
    requires |sides| == |proof|
    ensures Fold(h, LeafHash(h, e), sides, proof) == h(FoldTop(h, e, sides, proof))
  {
  }

  lemma NoCollision(h: Hash, X: set<Bytes>, Y: set<Bytes>, x: Bytes, y: Bytes)
    requires !Collides(h, X, Y) && x in X && y in Y && h(x) == h(y)
    ensures x == y
  {
    assert !IsCollision(h, x, y);
  }

  lemma CollidesMonotone(h: Hash, X: set<Bytes>, Y: set<Bytes>, X': set<Bytes>, Y': set<Bytes>)
    requires !Collides(h, X, Y) && X' <= X && Y' <= Y
    ensures !Collides(h, X', Y')
  {
  }

  // ----- completeness ---------------------------------------------------------------------

  lemma MerkleRootOne(h: Hash, leaves: seq<Digest>)
    requires |leaves| == 1
    ensures MerkleRoot(h, leaves) == leaves[0]
  {
  }

  lemma MerkleRootSplit(h: Hash, leaves: seq<Digest>)
    requires |leaves| >= 2
    ensures var k := Split(|leaves|);
            MerkleRoot(h, leaves) == NodeHash(h, MerkleRoot(h, leaves[..k]), MerkleRoot(h, leaves[k..]))
  {
  }

  lemma {:induction false} HonestFold(h: Hash, leaves: seq<Digest>, m: nat)
    requires m < |leaves|
    ensures |InclusionProof(h, leaves, m)| == |Path(m, |leaves|)|
    ensures Fold(h, leaves[m], Path(m, |leaves|), InclusionProof(h, leaves, m)) == MerkleRoot(h, leaves)
    decreases |leaves|
  {
    hide MerkleRoot, SplitExp, Pow2, LeafHash, NodeHash;
    if |leaves| == 1 {
      MerkleRootOne(h, leaves);
    } else {
      MerkleRootSplit(h, leaves);
      var n, k := |leaves|, Split(|leaves|);
      var below := if m < k then leaves[..k] else leaves[k..];
      var m' := if m < k then m else m - k;
      HonestFold(h, below, m');
      var proof, sides := InclusionProof(h, leaves, m), Path(m, n);
      assert proof[..|proof| - 1] == InclusionProof(h, below, m');
      assert sides[..|proof| - 1] == Path(m', |below|);
    }
  }

  lemma {:induction false} HonestSides(m: nat, n: nat)
    requires m < n
    ensures WalkSides(m, n - 1, |Path(m, n)|) == Path(m, n)
    ensures After(m, n - 1, |Path(m, n)|) == (0, 0)
  {
    hide WalkSides, Path, BitSides, After;
    var len := |Path(m, n)|;
    PathIsBits(m, n);
    WalkFollowsBits(m, n - 1, len);
    assert (Path(m, n) + Lefts(len))[..len] == Path(m, n);
  }

  /** The generated proof drives the bit walk of tlog.py to exactly the root of the tree. */
  lemma {:induction false} TlogCompleteness(h: Hash, leaves: seq<Digest>, m: nat)
    requires m < |leaves|
    ensures TlogWalk(h, leaves[m], m, |leaves|, InclusionProof(h, leaves, m)) == Success(MerkleRoot(h, leaves))
  {
    hide WalkSides, Path, After, Fold, InclusionProof, MerkleRoot;
    HonestFold(h, leaves, m);
    HonestSides(m, |leaves|);
  }

  /** Where the tlog walk returns on at most 64 elements, the SCITT walk returns the same root. */
  lemma ScittFollowsTlog(h: Hash, leaf: Bytes, index: int, size: int, proof: seq<Bytes>)
    requires |proof| <= MAX_PROOF_PATH
    requires TlogWalk(h, leaf, index, size, proof).Success?
    ensures ScittWalk(h, leaf, index, size, proof) == TlogWalk(h, leaf, index, size, proof)
  {
    WalkFollowsBits(index, size - 1, |proof|);
  }

  // ----- soundness ------------------------------------------------------------------------

  /** Whatever hashes up to the root along any sides is an entry, on its own path, with its own proof. */
  lemma {:induction false} FoldMembership(h: Hash, entries: seq<Bytes>, e: Bytes, sides: Sides, proof: seq<Bytes>)
    returns (j: nat)
    requires |sides| == |proof| && AllDigests(proof)
    requires Fold(h, LeafHash(h, e), sides, proof) == LogRoot(h, entries)
    requires !Collides(h, TreeInputs(h, entries), FoldInputs(h, e, sides, proof))
    ensures j < |entries| && entries[j] == e && sides == Path(j, |entries|)
    ensures proof == InclusionProof(h, LeafHashes(h, entries), j)
    decreases |entries|
  {
    hide Path, InclusionProof, LeafHashes, MerkleRoot, Fold, FoldTop, TreeTop, TreeInputs, FoldInputs, Collides, LogRoot,
         SplitExp, Pow2;
    TopsAgree(h, entries, e, sides, proof);
    SameKindOfTop(h, entries, e, sides, proof);
    if |entries| == 1 {
      j := 0;
      PathOfOne(h, entries);
    } else {
      var n, k := |proof| - 1, Split(|entries|);
      if sides[n].Left? {
        FoldDescend(h, entries, e, sides, proof, entries[..k], entries[k..]);
        var i := FoldMembership(h, entries[k..], e, sides[..n], proof[..n]);
        j := k + i;
      } else {
        FoldDescend(h, entries, e, sides, proof, entries[k..], entries[..k]);
        j := FoldMembership(h, entries[..k], e, sides[..n], proof[..n]);
      }
      PathOneLevel(h, entries, j, sides, proof);
    }
  }

  lemma PathOfOne(h: Hash, entries: seq<Bytes>)
    requires |entries| == 1
    ensures Path(0, 1) == [] && InclusionProof(h, LeafHashes(h, entries), 0) == []
  {
  }

  lemma {:induction false} PathOneLevel(h: Hash, entries: seq<Bytes>, j: nat, sides: Sides, proof: seq<Bytes>)
    requires |entries| >= 2 && j < |entries| && |sides| == |proof| > 0
    requires var n, k := |proof| - 1, Split(|entries|);
             if sides[n].Left? then
               && k <= j && sides[..n] == Path(j - k, |entries| - k)
               && proof[..n] == InclusionProof(h, LeafHashes(h, entries[k..]), j - k)
               && proof[n] == LogRoot(h, entries[..k])
             else
               && j < k && sides[..n] == Path(j, k)
               && proof[..n] == InclusionProof(h, LeafHashes(h, entries[..k]), j)
               && proof[n] == LogRoot(h, entries[k..])
    ensures sides == Path(j, |entries|)
    ensures proof == InclusionProof(h, LeafHashes(h, entries), j)
  {
    hide InclusionProof, MerkleRoot, LeafHashes, Split;
    var n := |proof| - 1;
    InclusionProofSplit(h, entries, j);
    assert sides == sides[..n] + [sides[n]] && proof == proof[..n] + [proof[n]];
  }

  lemma {:induction false} InclusionProofSplit(h: Hash, entries: seq<Bytes>, j: nat)
    requires |entries| >= 2 && j < |entries|
    ensures var k := Split(|entries|);
            InclusionProof(h, LeafHashes(h, entries), j)
            == if j < k then InclusionProof(h, LeafHashes(h, entries[..k]), j) + [LogRoot(h, entries[k..])]
               else InclusionProof(h, LeafHashes(h, entries[k..]), j - k) + [LogRoot(h, entries[..k])]
  {
    LeafHashesSplit(h, entries, Split(|entries|));
  }

  lemma {:induction false} TopsAgree(h: Hash, entries: seq<Bytes>, e: Bytes, sides: Sides, proof: seq<Bytes>)
    requires |sides| == |proof|
    requires Fold(h, LeafHash(h, e), sides, proof) == LogRoot(h, entries)
    requires !Collides(h, TreeInputs(h, entries), FoldInputs(h, e, sides, proof))
    ensures FoldTop(h, e, sides, proof) == TreeTop(h, entries)
  {
    LogRootIsHash(h, entries);
    FoldIsHash(h, e, sides, proof);
    NoCollision(h, TreeInputs(h, entries), FoldInputs(h, e, sides, proof),
                TreeTop(h, entries), FoldTop(h, e, sides, proof));
  }

  /** The 0x00 and 0x01 prefixes keep leaves and nodes apart. */
  lemma SameKindOfTop(h: Hash, entries: seq<Bytes>, e: Bytes, sides: Sides, proof: seq<Bytes>)
    requires |sides| == |proof| && FoldTop(h, e, sides, proof) == TreeTop(h, entries)
    ensures entries != [] && (|entries| == 1 <==> proof == [])
    ensures proof == [] ==> entries == [e]
  {
    var top, walked := TreeTop(h, entries), FoldTop(h, e, sides, proof);
    assert walked[0] == if proof == [] then 0 else 1;
    assert |entries| > 0 ==> top[0] == if |entries| == 1 then 0 else 1;
    if |entries| == 1 && proof == [] {
      assert walked[1..] == e && top[1..] == entries[0];
    }
  }

  /** One level of a walk without a collision: the top sibling is the root of the other half. */
  lemma {:induction false} FoldDescend(h: Hash, entries: seq<Bytes>, e: Bytes, sides: Sides, proof: seq<Bytes>,
                    other: seq<Bytes>, below: seq<Bytes>)
    requires |sides| == |proof| && AllDigests(proof) && |entries| >= 2 && proof != []
    requires FoldTop(h, e, sides, proof) == TreeTop(h, entries)
    requires !Collides(h, TreeInputs(h, entries), FoldInputs(h, e, sides, proof))
    requires var k := Split(|entries|);
             (other, below) == if sides[|proof| - 1].Left? then (entries[..k], entries[k..]) else (entries[k..], entries[..k])
    ensures var n := |proof| - 1;
            && proof[n] == LogRoot(h, other)
            && Fold(h, LeafHash(h, e), sides[..n], proof[..n]) == LogRoot(h, below)
            && !Collides(h, TreeInputs(h, below), FoldInputs(h, e, sides[..n], proof[..n]))
  {
    var n, k := |proof| - 1, Split(|entries|);
    var r := Fold(h, LeafHash(h, e), sides[..n], proof[..n]);
    FoldIsHash(h, e, sides[..n], proof[..n]);
    if sides[n].Left? {
      NodeInputSplit(LogRoot(h, other), LogRoot(h, below), proof[n], r);
    } else {
      NodeInputSplit(LogRoot(h, below), LogRoot(h, other), r, proof[n]);
    }
    CollidesMonotone(h, TreeInputs(h, entries), FoldInputs(h, e, sides, proof),
                     TreeInputs(h, below), FoldInputs(h, e, sides[..n], proof[..n]));
  }

  /** With 32-byte halves, `left + right` splits in only one way. */
  lemma NodeInputSplit(l1: Bytes, r1: Bytes, l2: Bytes, r2: Bytes)
    requires |l1| == |l2| && [1] + l1 + r1 == [1] + l2 + r2
    ensures l1 == l2 && r1 == r2
  {
    var a, b := [1] + l1 + r1, [1] + l2 + r2;
    assert a[1..1 + |l1|] == l1 && b[1..1 + |l1|] == l2;
    assert a[1 + |l1|..] == r1 && b[1 + |l1|..] == r2;
  }

  // ----- position binding -----------------------------------------------------------------

  lemma {:induction false} PathInjective(i: nat, j: nat, n: nat)
    requires i < n && j < n && Path(i, n) == Path(j, n)
    ensures i == j
    decreases n
  {
    hide Path;
    if n > 1 {
      var k := Split(n);
      PathLast(i, n);
      PathLast(j, n);
      if i < k {
        PathInjective(i, j, k);
      } else {
        PathInjective(i - k, j - k, n - k);
      }
    }
  }

  lemma PathEmpty(m: nat, n: nat)
    requires m < n
    ensures Path(m, n) == [] <==> n == 1
  {
  }

  lemma PathLast(m: nat, n: nat)
    requires m < n && n > 1
    ensures var (k, top) := (Split(n), |Path(m, n)| - 1);
            && top >= 0
            && Path(m, n)[top] == (if m < k then Right else Left)
            && Path(m, n)[..top] == (if m < k then Path(m, k) else Path(m - k, n - k))
  {
  }

  /** The subtree reached by going right `t` times from the root of a tree of `n` leaves. */
  ghost function RightSpine(n: nat, t: nat): (r: nat)
    requires n >= 1
    ensures 1 <= r <= n
    decreases t
  {
    if t == 0 then n
    else if n == 1 then 1
    else RightSpine(n - Split(n), t - 1)
  }

  lemma SpineOfOne(t: nat)
    ensures RightSpine(1, t) == 1
  {
  }

  lemma {:induction false} RightSpineSwap(n: nat, t: nat)
    requires n >= 2 && RightSpine(n, t) >= 2
    ensures RightSpine(n - Split(n), t) == RightSpine(n, t) - Split(RightSpine(n, t))
    decreases t
  {
    if t > 0 && n - Split(n) >= 2 {
      RightSpineSwap(n - Split(n), t - 1);
    }
  }

  lemma SpineShrinks(n: nat, t: nat)
    requires n >= 2 && t >= 1
    ensures RightSpine(n, t) <= n - Split(n)
  {
  }

  lemma {:induction false} PathInPerfectTree(m: nat, d: nat)
    requires m < Pow2(d)
    ensures |Path(m, Pow2(d))| == d
  {
    PathIsBits(m, Pow2(d));
    BitsBelowSplit(m, Pow2(d), d);
  }

  /** No leaf path of the whole tree is a leaf path of a proper right-spine subtree. */
  lemma {:induction false} NoPathInSpine(i: nat, n: nat, j: nat, t: nat)
    requires n >= 2 && t >= 1 && i < n && j < RightSpine(n, t)
    ensures Path(i, n) != Path(j, RightSpine(n, t))
    decreases n
  {
    hide Path, RightSpine, Pow2, SplitExp;
    var n' := RightSpine(n, t);
    if n' == 1 {
      PathEmpty(i, n);
      PathEmpty(j, 1);
    }
    if n' >= 2 && Path(i, n) == Path(j, n') {
      var k, k' := Split(n), Split(n');
      PathLast(i, n);
      PathLast(j, n');
      RightSpineSwap(n, t);
      SpineShrinks(n, t);
      if i < k {
        PathInPerfectTree(i, SplitExp(n));
        PathInPerfectTree(j, SplitExp(n'));
        assert false;
      } else {
        NoPathInSpine(i - k, n - k, j - k', t);
      }
    }
  }

  /** An over-long walk ends in left siblings, and that is never the path of a leaf. */
  lemma {:induction false} NoOverlongPath(i: nat, n: nat, j: nat, n0: nat, t0: nat, t: nat)
    requires n0 >= 1 && i < n0 && n == RightSpine(n0, t0) && j < n
    requires Path(j, n) == Path(i, n0) + Lefts(t)
    ensures t == 0 && (n0 > 1 ==> t0 == 0)
    decreases t
  {
    hide Path, RightSpine, Pow2, SplitExp, Split;
    PathEmpty(i, n0);
    PathEmpty(j, n);
    if n0 == 1 {
      SpineOfOne(t0);
    } else if t == 0 {
      assert Path(i, n0) + Lefts(0) == Path(i, n0);
      if t0 > 0 {
        NoPathInSpine(i, n0, j, t0);
      }
    } else {
      var k := Split(n);
      var up := Path(i, n0) + Lefts(t);
      assert up[|up| - 1] == Left;
      assert up[..|up| - 1] == Path(i, n0) + Lefts(t - 1);
      PathLast(j, n);
      SpineOneMore(n0, t0);
      NoOverlongPath(i, n - k, j - k, n0, t0 + 1, t - 1);
    }
  }

  lemma {:induction false} SpineOneMore(n: nat, t: nat)
    requires n >= 1 && RightSpine(n, t) >= 2
    ensures RightSpine(n, t + 1) == RightSpine(n, t) - Split(RightSpine(n, t))
    decreases t
  {
    if t > 0 {
      SpineOneMore(n - Split(n), t - 1);
    }
  }

  /** A walk for index `i` that takes exactly the sides of leaf `j`'s path is a walk for `j`. */
  lemma WalkBindsPosition(i: nat, j: nat, n: nat, len: nat)
    requires i < n && j < n && After(i, n - 1, len).1 == 0
    requires WalkSides(i, n - 1, len) == Path(j, n)
    ensures i == j
  {
    WalkFollowsBits(i, n - 1, len);
    PathIsBits(i, n);
    var t := len - |Path(i, n)|;
    assert (Path(i, n) + Lefts(len))[..len] == Path(i, n) + Lefts(t);
    NoOverlongPath(i, n, j, n, 0, t);
    if n > 1 {
      assert Path(i, n) + Lefts(0) == Path(i, n);
      PathInjective(i, j, n);
    }
  }

  /** A tlog inclusion check of `e` at `index` against the root of `entries` succeeds exactly for the
      entry at that index with its generated proof, whatever the length of the proof offered. */
  lemma {:induction false} InclusionExact(h: Hash, entries: seq<Bytes>, e: Bytes, index: nat, proof: seq<Bytes>)
    requires index < |entries|
    ensures var accepted := TlogWalk(h, LeafHash(h, e), index, |entries|, proof) == Success(LogRoot(h, entries));
            var honest := e == entries[index] && proof == InclusionProof(h, LeafHashes(h, entries), index);
            && (honest ==> accepted)
            && (accepted ==>
                  || honest
                  || Collides(h, TreeInputs(h, entries),
                              FoldInputs(h, e, WalkSides(index, |entries| - 1, |proof|), proof)))
  {
    if e == entries[index] && proof == InclusionProof(h, LeafHashes(h, entries), index) {
      TlogCompleteness(h, LeafHashes(h, entries), index);
    }
    var sides := WalkSides(index, |entries| - 1, |proof|);
    if && TlogWalk(h, LeafHash(h, e), index, |entries|, proof) == Success(LogRoot(h, entries))
       && !Collides(h, TreeInputs(h, entries), FoldInputs(h, e, sides, proof)) {
      InclusionSound(h, entries, e, index, proof, sides);
    }
  }

  lemma {:induction false} InclusionSound(h: Hash, entries: seq<Bytes>, e: Bytes, index: nat, proof: seq<Bytes>, sides: Sides)
    requires index < |entries| && AllDigests(proof) && After(index, |entries| - 1, |proof|).1 == 0
    requires sides == WalkSides(index, |entries| - 1, |proof|)
    requires Fold(h, LeafHash(h, e), sides, proof) == LogRoot(h, entries)
    requires !Collides(h, TreeInputs(h, entries), FoldInputs(h, e, sides, proof))
    ensures e == entries[index] && proof == InclusionProof(h, LeafHashes(h, entries), index)
  {
    hide *;
    var j := FoldMembership(h, entries, e, sides, proof);
    WalkBindsPosition(index, j, |entries|, |proof|);
  }

  /** SCITT membership: for any declared index and size, a payload that walks to the root of a log is
      one of its entries, and the path offered is that entry's own proof. */
  lemma {:induction false} ScittMembership(h: Hash, entries: seq<Bytes>, payload: Bytes, index: int, size: int, path: seq<Bytes>)
    requires ScittWalk(h, LeafHash(h, payload), index, size, path) == Success(LogRoot(h, entries))
    ensures var sides := WalkSides(index, size - 1, |path|);
            || Collides(h, TreeInputs(h, entries), FoldInputs(h, payload, sides, path))
            || exists j :: 0 <= j < |entries| && entries[j] == payload && sides == Path(j, |entries|)
                           && path == InclusionProof(h, LeafHashes(h, entries), j)
  {
    var sides := WalkSides(index, size - 1, |path|);
    if !Collides(h, TreeInputs(h, entries), FoldInputs(h, payload, sides, path)) {
      var j := FoldMembership(h, entries, payload, sides, path);
    }
  }
}
