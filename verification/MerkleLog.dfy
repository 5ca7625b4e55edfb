/** The append-only log of sm_bridge/tlog.py, with its guard against degenerate trees. */
module MerkleLogs {
  import opened ByteStrings
  import opened Wrappers
  import opened Tlog

  datatype LogError = DegenerateTree | IndexOutOfRange

  const MIN_PROOF_SIZE: int := 3

  /** What `inclusion_proof` returns or raises on a log with these leaves. */
  function ServeInclusion(h: Hash, leaves: seq<Digest>, minProofSize: int, index: int): Result<seq<Digest>, LogError>
  {
    if |leaves| < minProofSize then Failure(DegenerateTree)
    else if !(0 <= index < |leaves|) then Failure(IndexOutOfRange)
    else Success(InclusionProof(h, leaves, index))
  }

  class MerkleLog {
    const h: Hash
    const minProofSize: int
    var leaves: seq<Digest>
    var entries: seq<Bytes>

    ghost predicate Valid()
      reads this
    {
      leaves == LeafHashes(h, entries)
    }

    constructor (h: Hash, minProofSize: int := MIN_PROOF_SIZE)
      ensures Valid() && entries == [] && this.h == h && this.minProofSize == minProofSize
    {
      this.h := h;
      this.minProofSize := minProofSize;
      leaves, entries := [], [];
    }

    method Append(entry: Bytes) returns (size: nat)
      requires Valid()
      modifies this
      ensures Valid() && entries == old(entries) + [entry]
      ensures leaves == old(leaves) + [LeafHash(h, entry)] && size == |leaves|
    {
      entries := entries + [entry];
      leaves := leaves + [LeafHash(h, entry)];
      assert leaves == LeafHashes(h, entries);
      size := |leaves|;
    }

    method Root() returns (r: Digest)
      ensures r == MerkleRoot(h, leaves)
    {
      r := ComputeRoot(h, leaves);
    }

    method InclusionProofAt(index: int) returns (result: Result<seq<Digest>, LogError>)
      ensures result == ServeInclusion(h, leaves, minProofSize, index)
      ensures result == Failure(DegenerateTree) <==> |leaves| < minProofSize
      ensures result == Failure(IndexOutOfRange) <==> |leaves| >= minProofSize && !(0 <= index < |leaves|)
      ensures result.Success? ==> 0 <= index < |leaves| && result.value == InclusionProof(h, leaves, index)
    {
      if |leaves| < minProofSize { return Failure(DegenerateTree); }
      if !(0 <= index < |leaves|) { return Failure(IndexOutOfRange); }
      var proof := ComputeInclusionProof(h, leaves, index);
      return Success(proof);
    }

    method ConsistencyProofFrom(oldSize: int) returns (result: Result<seq<Digest>, LogError>)
      ensures result ==
              if |leaves| < minProofSize then Failure(DegenerateTree)
              else Success(ConsistencyProof(h, leaves, oldSize))
    {
      if |leaves| < minProofSize { return Failure(DegenerateTree); }
      if oldSize <= 0 || oldSize > |leaves| { return Success([]); }
      var proof := ComputeSubproof(h, oldSize, leaves, true);
      return Success(proof);
    }
  }
}
