/**
 Consistency proofs (section 2.1.2 of RFC 6962). The repository generates them and leaves checking to its
 readers; `Rebuild` is the reader's side, following `_subproof` branch by branch.
 */
module Consistency {
  import opened ByteStrings
  import opened Wrappers
  import opened Bits
  import opened Tlog
  import opened Inclusion

  /** The old and the new root implied by a consistency proof, given the old root. */
  function Rebuild(h: Hash, m: nat, n: nat, whole: bool, oldRoot: Bytes, proof: seq<Bytes>): Option<(Bytes, Bytes)>
    requires 1 <= m <= n
    decreases n
  {
    if m == n then
      if whole then if proof == [] then Some((oldRoot, oldRoot)) else None
      else if |proof| == 1 && |proof[0]| == 32 then Some((proof[0], proof[0])) else None
    else if proof == [] || |proof[|proof| - 1]| != 32 then None
    else
      var (k, p, rest) := (Split(n), proof[|proof| - 1], proof[..|proof| - 1]);
      if m <= k then
        match Rebuild(h, m, k, whole, oldRoot, rest)
        case None => None
        case Some((o, w)) => Some((o, NodeHash(h, w, p)))
      else
        match Rebuild(h, m - k, n - k, false, oldRoot, rest)
        case None => None
        case Some((o, w)) => Some((NodeHash(h, p, o), NodeHash(h, p, w)))
  }

  /** Every byte string hashed by `Rebuild`. */
  ghost function RebuildInputs(h: Hash, m: nat, n: nat, whole: bool, oldRoot: Bytes, proof: seq<Bytes>): set<Bytes>
    requires 1 <= m <= n
    decreases n
  {
    if m == n || proof == [] then {}
    else
      var (k, p, rest) := (Split(n), proof[|proof| - 1], proof[..|proof| - 1]);
      if m <= k then
        RebuildInputs(h, m, k, whole, oldRoot, rest) +
        match Rebuild(h, m, k, whole, oldRoot, rest)
        case None => {}
        case Some((o, w)) => {[1] + w + p}
      else
        RebuildInputs(h, m - k, n - k, false, oldRoot, rest) +
        match Rebuild(h, m - k, n - k, false, oldRoot, rest)
        case None => {}
        case Some((o, w)) => {[1] + p + o, [1] + p + w}
  }

  // ----- completeness ---------------------------------------------------------------------

  lemma {:induction false} PrefixSplit(leaves: seq<Digest>, m: nat)
    requires 1 <= m < |leaves|
    ensures var k := Split(|leaves|);
            if m <= k then leaves[..k][..m] == leaves[..m]
            else Split(m) == k && leaves[..m][..k] == leaves[..k] && leaves[..m][k..] == leaves[k..][..m - k]
  {
    if m > Split(|leaves|) {
      SplitOfPrefix(m, |leaves|);
    }
  }

  lemma SubproofSame(h: Hash, leaves: seq<Digest>, whole: bool)
    requires leaves != []
    ensures Subproof(h, |leaves|, leaves, whole) == if whole then [] else [MerkleRoot(h, leaves)]
  {
  }

  lemma {:induction false} SubproofRebuilds(h: Hash, m: nat, leaves: seq<Digest>, whole: bool, oldRoot: Bytes)
    requires 1 <= m <= |leaves|
    requires whole ==> oldRoot == MerkleRoot(h, leaves[..m])
    ensures Rebuild(h, m, |leaves|, whole, oldRoot, Subproof(h, m, leaves, whole))
         == Some((MerkleRoot(h, leaves[..m]), MerkleRoot(h, leaves)))
    decreases |leaves|
  {
    hide MerkleRoot, SplitExp, Pow2, NodeHash;
    if m == |leaves| {
      assert leaves[..m] == leaves;
      SubproofSame(h, leaves, whole);
    } else {
      SubproofRebuildsBelow(h, m, leaves, whole, oldRoot);
    }
  }

  lemma {:induction false} SubproofRebuildsBelow(h: Hash, m: nat, leaves: seq<Digest>, whole: bool, oldRoot: Bytes)
    requires 1 <= m < |leaves|
    requires whole ==> oldRoot == MerkleRoot(h, leaves[..m])
    ensures Rebuild(h, m, |leaves|, whole, oldRoot, Subproof(h, m, leaves, whole))
         == Some((MerkleRoot(h, leaves[..m]), MerkleRoot(h, leaves)))
    decreases |leaves|, 0
  {
    hide MerkleRoot, SplitExp, Pow2, NodeHash, Rebuild;
    var k := Split(|leaves|);
    PrefixSplit(leaves, m);
    MerkleRootSplit(h, leaves);
    if m <= k {
      SubproofRebuilds(h, m, leaves[..k], whole, oldRoot);
      RebuildAppend(h, m, |leaves|, whole, oldRoot, Subproof(h, m, leaves[..k], whole), MerkleRoot(h, leaves[k..]));
    } else {
      SubproofRebuilds(h, m - k, leaves[k..], false, oldRoot);
      RebuildAppend(h, m, |leaves|, whole, oldRoot, Subproof(h, m - k, leaves[k..], false), MerkleRoot(h, leaves[..k]));
      MerkleRootSplit(h, leaves[..m]);
    }
  }

  /** One step of `Rebuild`, with the last proof element split off. */
  lemma {:induction false} RebuildAppend(h: Hash, m: nat, n: nat, whole: bool, oldRoot: Bytes, rest: seq<Bytes>, p: Bytes)
    requires 1 <= m < n && |p| == 32
    ensures var k := Split(n);
            Rebuild(h, m, n, whole, oldRoot, rest + [p]) ==
            if m <= k then
              match Rebuild(h, m, k, whole, oldRoot, rest)
              case None => None
              case Some((o, w)) => Some((o, NodeHash(h, w, p)))
            else
              match Rebuild(h, m - k, n - k, false, oldRoot, rest)
              case None => None
              case Some((o, w)) => Some((NodeHash(h, p, o), NodeHash(h, p, w)))
  {
    hide SplitExp, Pow2, NodeHash;
    var proof := rest + [p];
    assert proof[..|proof| - 1] == rest && proof[|proof| - 1] == p;
  }

  // ----- soundness ------------------------------------------------------------------------

  /** Logs of one size with one root are one log. */
  lemma {:induction false} RootInjective(h: Hash, a: seq<Bytes>, b: seq<Bytes>, U: set<Bytes>)
    requires |a| == |b| && LogRoot(h, a) == LogRoot(h, b)
    requires TreeInputs(h, a) + TreeInputs(h, b) <= U && !Collides(h, U, U)
    ensures a == b
    decreases |a|
  {
    hide LogRoot, MerkleRoot, LeafHashes, Collides, SplitExp, Pow2;
    LogRootIsHash(h, a);
    LogRootIsHash(h, b);
    NoCollision(h, U, U, TreeTop(h, a), TreeTop(h, b));
    if |a| == 1 {
      assert TreeTop(h, a)[1..] == a[0] && TreeTop(h, b)[1..] == b[0];
    } else if |a| > 1 {
      var k := Split(|a|);
      NodeInputSplit(LogRoot(h, a[..k]), LogRoot(h, a[k..]), LogRoot(h, b[..k]), LogRoot(h, b[k..]));
      RootInjective(h, a[..k], b[..k], U);
      RootInjective(h, a[k..], b[k..], U);
      assert a == a[..k] + a[k..] && b == b[..k] + b[k..];
    }
  }

  /** Every byte string hashed above the leaves. */
  ghost function NodeInputs(h: Hash, leaves: seq<Digest>): set<Bytes>
  {
    if |leaves| <= 1 then {}
    else
      var k := Split(|leaves|);
      {[1] + MerkleRoot(h, leaves[..k]) + MerkleRoot(h, leaves[k..])}
      + NodeInputs(h, leaves[..k]) + NodeInputs(h, leaves[k..])
  }

  /** Lists of leaves of one length with one root are one list. */
  lemma {:induction false} LeavesInjective(h: Hash, a: seq<Digest>, b: seq<Digest>, U: set<Bytes>)
    requires |a| == |b| && MerkleRoot(h, a) == MerkleRoot(h, b)
    requires NodeInputs(h, a) + NodeInputs(h, b) <= U && !Collides(h, U, U)
    ensures a == b
    decreases |a|
  {
    hide MerkleRoot, Collides, SplitExp, Pow2;
    if |a| == 1 {
      MerkleRootOne(h, a);
      MerkleRootOne(h, b);
      assert a[0] == b[0];
    } else if |a| > 1 {
      var k := Split(|a|);
      MerkleRootSplit(h, a);
      MerkleRootSplit(h, b);
      var x, y := [1] + MerkleRoot(h, a[..k]) + MerkleRoot(h, a[k..]), [1] + MerkleRoot(h, b[..k]) + MerkleRoot(h, b[k..]);
      NoCollision(h, U, U, x, y);
      NodeInputSplit(MerkleRoot(h, a[..k]), MerkleRoot(h, a[k..]), MerkleRoot(h, b[..k]), MerkleRoot(h, b[k..]));
      LeavesInjective(h, a[..k], b[..k], U);
      LeavesInjective(h, a[k..], b[k..], U);
      assert a == a[..k] + a[k..] && b == b[..k] + b[k..];
    }
  }

  /** A node whose hash is the root of a log is the log's top node. */
  lemma {:induction false} NodeIsTop(h: Hash, left: Bytes, right: Bytes, entries: seq<Bytes>, U: set<Bytes>)
    requires |entries| >= 2 && (|left| == 32 || |right| == 32)
    requires NodeHash(h, left, right) == LogRoot(h, entries)
    requires TreeInputs(h, entries) + {[1] + left + right} <= U && !Collides(h, U, U)
    ensures left == LogRoot(h, entries[..Split(|entries|)]) && right == LogRoot(h, entries[Split(|entries|)..])
  {
    hide LogRoot, Collides;
    LogRootIsHash(h, entries);
    NoCollision(h, U, U, TreeTop(h, entries), [1] + left + right);
    assert |TreeTop(h, entries)| == 65 && |[1] + left + right| == 1 + |left| + |right|;
    NodeInputSplit(LogRoot(h, entries[..Split(|entries|)]), LogRoot(h, entries[Split(|entries|)..]), left, right);
  }

  lemma {:induction false} SubproofSplit(h: Hash, m: nat, later: seq<Bytes>, whole: bool)
    requires 1 <= m < |later|
    ensures var k := Split(|later|);
            Subproof(h, m, LeafHashes(h, later), whole)
            == if m <= k then Subproof(h, m, LeafHashes(h, later[..k]), whole) + [LogRoot(h, later[k..])]
               else Subproof(h, m - k, LeafHashes(h, later[k..]), false) + [LogRoot(h, later[..k])]
  {
    LeafHashesSplit(h, later, Split(|later|));
  }

  /** What a rebuild to the roots of two logs forces, for any set `U` of inputs without a collision. */
  lemma {:induction false} RebuildSound(h: Hash, earlier: seq<Bytes>, later: seq<Bytes>, whole: bool, oldRoot: Bytes,
                                        proof: seq<Bytes>, U: set<Bytes>)
    requires 1 <= |earlier| <= |later|
    requires Rebuild(h, |earlier|, |later|, whole, oldRoot, proof) == Some((LogRoot(h, earlier), LogRoot(h, later)))
    requires TreeInputs(h, earlier) + TreeInputs(h, later) <= U
    requires RebuildInputs(h, |earlier|, |later|, whole, oldRoot, proof) <= U
    requires !Collides(h, U, U)
    ensures earlier == later[..|earlier|]
    ensures proof == Subproof(h, |earlier|, LeafHashes(h, later), whole)
    decreases |later|
  {
    hide LogRoot, MerkleRoot, LeafHashes, Collides, SplitExp, Pow2, NodeHash, Subproof, TreeTop;
    var m, n := |earlier|, |later|;
    if m == n {
      RootInjective(h, earlier, later, U);
      SubproofSame(h, LeafHashes(h, later), whole);
      LogRootIs(h, later);
      assert later[..m] == later;
      assert proof == if whole then [] else [proof[0]];
    } else if m <= Split(n) {
      RebuildSoundLeft(h, earlier, later, whole, oldRoot, proof, U);
    } else {
      RebuildSoundRight(h, earlier, later, whole, oldRoot, proof, U);
    }
  }

  lemma LogRootIs(h: Hash, entries: seq<Bytes>)
    ensures LogRoot(h, entries) == MerkleRoot(h, LeafHashes(h, entries))
  {
  }

  /** The old log ends in the left half of the new one. */
  lemma {:induction false} RebuildSoundLeft(h: Hash, earlier: seq<Bytes>, later: seq<Bytes>, whole: bool, oldRoot: Bytes,
                                            proof: seq<Bytes>, U: set<Bytes>)
    requires 1 <= |earlier| < |later| && |earlier| <= Split(|later|)
    requires Rebuild(h, |earlier|, |later|, whole, oldRoot, proof) == Some((LogRoot(h, earlier), LogRoot(h, later)))
    requires TreeInputs(h, earlier) + TreeInputs(h, later) <= U
    requires RebuildInputs(h, |earlier|, |later|, whole, oldRoot, proof) <= U
    requires !Collides(h, U, U)
    ensures earlier == later[..|earlier|]
    ensures proof == Subproof(h, |earlier|, LeafHashes(h, later), whole)
    decreases |later|, 0
  {
    hide LogRoot, MerkleRoot, LeafHashes, Collides, SplitExp, Pow2, NodeHash, Subproof, TreeTop;
    var m, n := |earlier|, |later|;
    var k, p, rest := Split(n), proof[|proof| - 1], proof[..|proof| - 1];
    assert proof == rest + [p];
    var (_, w) := Rebuild(h, m, k, whole, oldRoot, rest).value;
    NodeIsTop(h, w, p, later, U);
    RebuildSound(h, earlier, later[..k], whole, oldRoot, rest, U);
    assert later[..k][..m] == later[..m];
    SubproofSplit(h, m, later, whole);
  }

  lemma HalvesWithin(h: Hash, entries: seq<Bytes>, U: set<Bytes>)
    requires |entries| >= 2 && TreeInputs(h, entries) <= U
    ensures TreeInputs(h, entries[..Split(|entries|)]) <= U && TreeInputs(h, entries[Split(|entries|)..]) <= U
  {
  }

  /** The old log contains the left half of the new one. */
  lemma {:induction false} RebuildSoundRight(h: Hash, earlier: seq<Bytes>, later: seq<Bytes>, whole: bool, oldRoot: Bytes,
                                             proof: seq<Bytes>, U: set<Bytes>)
    requires |later| >= 2 && Split(|later|) < |earlier| < |later|
    requires Rebuild(h, |earlier|, |later|, whole, oldRoot, proof) == Some((LogRoot(h, earlier), LogRoot(h, later)))
    requires TreeInputs(h, earlier) + TreeInputs(h, later) <= U
    requires RebuildInputs(h, |earlier|, |later|, whole, oldRoot, proof) <= U
    requires !Collides(h, U, U)
    ensures earlier == later[..|earlier|]
    ensures proof == Subproof(h, |earlier|, LeafHashes(h, later), whole)
    decreases |later|, 0
  {
    hide LogRoot, MerkleRoot, LeafHashes, Collides, SplitExp, Pow2, NodeHash, Subproof, TreeTop, Split, TreeInputs;
    var m, n := |earlier|, |later|;
    HalvesWithin(h, earlier, U);
    HalvesWithin(h, later, U);
    var k, p, rest := Split(n), proof[|proof| - 1], proof[..|proof| - 1];
    assert proof == rest + [p];
    SplitOfPrefix(m, n);
    var (o, w) := Rebuild(h, m - k, n - k, false, oldRoot, rest).value;
    NodeIsTop(h, p, o, earlier, U);
    NodeIsTop(h, p, w, later, U);
    RootInjective(h, earlier[..k], later[..k], U);
    RebuildSound(h, earlier[k..], later[k..], false, oldRoot, rest, U);
    assert earlier == earlier[..k] + earlier[k..];
    assert later[..m] == later[..k] + later[k..][..m - k];
    SubproofSplit(h, m, later, whole);
  }

  lemma SplitOfPrefix(m: nat, n: nat)
    requires n >= 2 && Split(n) < m <= n
    ensures Split(m) == Split(n)
  {
    SplitUnique(m, SplitExp(n));
  }

  /** A consistency check between an old and a new log succeeds exactly when the old log is a prefix of the
      new one and the proof is the generated one, unless two of the byte strings hashed on the way collide. */
  lemma {:induction false} ConsistencyExact(h: Hash, earlier: seq<Bytes>, later: seq<Bytes>, proof: seq<Bytes>)
    requires 1 <= |earlier| <= |later|
    ensures var (m, n, oldRoot) := (|earlier|, |later|, LogRoot(h, earlier));
            var accepted := Rebuild(h, m, n, true, oldRoot, proof) == Some((oldRoot, LogRoot(h, later)));
            var honest := earlier == later[..m] && proof == ConsistencyProof(h, LeafHashes(h, later), m);
            var U := TreeInputs(h, earlier) + TreeInputs(h, later) + RebuildInputs(h, m, n, true, oldRoot, proof);
            && (honest ==> accepted)
            && (accepted ==> honest || Collides(h, U, U))
  {
    hide TreeInputs, RebuildInputs, Collides, MerkleRoot, LeafHashes, Subproof, Rebuild;
    var m, n, oldRoot := |earlier|, |later|, LogRoot(h, earlier);
    var U := TreeInputs(h, earlier) + TreeInputs(h, later) + RebuildInputs(h, m, n, true, oldRoot, proof);
    if earlier == later[..m] {
      LeafHashesSplit(h, later, m);
      SubproofRebuilds(h, m, LeafHashes(h, later), true, oldRoot);
    }
    if Rebuild(h, m, n, true, oldRoot, proof) == Some((oldRoot, LogRoot(h, later))) && !Collides(h, U, U) {
      RebuildSound(h, earlier, later, true, oldRoot, proof, U);
    }
  }
}
