/**
 Merkle hashing and proof generation of sm_bridge/tlog.py (sections 2.1, 2.1.1 and 2.1.2 of RFC 6962).
 SHA-256 is a parameter: any function from byte strings to 32-byte strings. Nothing is assumed about it.
 */
module Tlog {
  import opened ByteStrings
  import opened Bits

  type Digest = b: Bytes | |b| == 32 witness seq(32, _ => 0)
  type Hash = Bytes -> Digest

  function LeafHash(h: Hash, entry: Bytes): Digest { h([0] + entry) }

  function NodeHash(h: Hash, left: Bytes, right: Bytes): Digest { h([1] + left + right) }

  function LeafHashes(h: Hash, entries: seq<Bytes>): (leaves: seq<Digest>)
    ensures |leaves| == |entries|
    ensures forall i :: 0 <= i < |entries| ==> leaves[i] == LeafHash(h, entries[i])
  {
    seq(|entries|, i requires 0 <= i < |entries| => LeafHash(h, entries[i]))
  }

  function MerkleRoot(h: Hash, leaves: seq<Digest>): Digest
  {
    if |leaves| == 0 then h([])
    else if |leaves| == 1 then leaves[0]
    else
      var k := Split(|leaves|);
      NodeHash(h, MerkleRoot(h, leaves[..k]), MerkleRoot(h, leaves[k..]))
  }

  function InclusionProof(h: Hash, leaves: seq<Digest>, m: nat): seq<Digest>
    requires m < |leaves|
  {
    if |leaves| == 1 then []
    else
      var k := Split(|leaves|);
      if m < k then InclusionProof(h, leaves[..k], m) + [MerkleRoot(h, leaves[k..])]
      else InclusionProof(h, leaves[k..], m - k) + [MerkleRoot(h, leaves[..k])]
  }

  function Subproof(h: Hash, m: nat, leaves: seq<Digest>, whole: bool): seq<Digest>
    requires 1 <= m <= |leaves|
    decreases |leaves|
  {
    if m == |leaves| then if whole then [] else [MerkleRoot(h, leaves)]
    else
      var k := Split(|leaves|);
      if m <= k then Subproof(h, m, leaves[..k], whole) + [MerkleRoot(h, leaves[k..])]
      else Subproof(h, m - k, leaves[k..], false) + [MerkleRoot(h, leaves[..k])]
  }

  /** `_consistency_proof`: out-of-range old sizes give the empty list, as in the source. */
  function ConsistencyProof(h: Hash, leaves: seq<Digest>, m: int): seq<Digest>
  {
    if m <= 0 || m > |leaves| then [] else Subproof(h, m, leaves, true)
  }

  // ----- the source's recursive procedures, each with its `k <<= 1` loop ------------------

  method ComputeRoot(h: Hash, leaves: seq<Digest>) returns (r: Digest)
    ensures r == MerkleRoot(h, leaves)
  {
    if |leaves| == 0 { return h([]); }
    if |leaves| == 1 { return leaves[0]; }
    var k := SplitPoint(|leaves|);
    var left := ComputeRoot(h, leaves[..k]);
    var right := ComputeRoot(h, leaves[k..]);
    r := NodeHash(h, left, right);
  }

  method ComputeInclusionProof(h: Hash, leaves: seq<Digest>, m: nat) returns (proof: seq<Digest>)
    requires m < |leaves|
    ensures proof == InclusionProof(h, leaves, m)
    decreases |leaves|
  {
    if |leaves| <= 1 { return []; }
    var k := SplitPoint(|leaves|);
    if m < k {
      proof := ComputeInclusionProof(h, leaves[..k], m);
      var right := ComputeRoot(h, leaves[k..]);
      proof := proof + [right];
    } else {
      proof := ComputeInclusionProof(h, leaves[k..], m - k);
      var left := ComputeRoot(h, leaves[..k]);
      proof := proof + [left];
    }
  }

  method ComputeSubproof(h: Hash, m: nat, leaves: seq<Digest>, whole: bool) returns (proof: seq<Digest>)
    requires 1 <= m <= |leaves|
    ensures proof == Subproof(h, m, leaves, whole)
    decreases |leaves|
  {
    if m == |leaves| {
      if whole { return []; }
      var root := ComputeRoot(h, leaves);
      return [root];
    }
    var k := SplitPoint(|leaves|);
    if m <= k {
      proof := ComputeSubproof(h, m, leaves[..k], whole);
      var right := ComputeRoot(h, leaves[k..]);
      proof := proof + [right];
    } else {
      proof := ComputeSubproof(h, m - k, leaves[k..], false);
      var left := ComputeRoot(h, leaves[..k]);
      proof := proof + [left];
    }
  }
}
