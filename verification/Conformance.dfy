/** The auditor of sm_bridge/conformance.py. Ed25519 is a parameter: whether the signature verified. */
module Conformance {
  import opened ByteStrings
  import opened Wrappers
  import opened Tlog
  import opened Inclusion
  import Base64
  import Consistency
  import opened MerkleLogs
  import opened ProofWalks

  datatype Checkpoint = Checkpoint(origin: string, size: int, rootB64: string, signatureB64: string)

  datatype CheckName = CheckpointSignature | RootRecomputation | AppendOnly

  datatype CheckResult = CheckResult(name: CheckName, ok: bool)

  /** Python's `leaves[:size]`: a negative size counts from the end, an excessive one stops there. */
  function Slice(leaves: seq<Digest>, size: int): seq<Digest>
  {
    if size > |leaves| then leaves
    else if size >= 0 then leaves[..size]
    else if |leaves| + size >= 0 then leaves[..|leaves| + size]
    else []
  }

  function RootB64(h: Hash, leaves: seq<Digest>): string
  {
    Base64.Encode(MerkleRoot(h, leaves), false)
  }

  /** What signing a log with these leaves commits to. */
  predicate CommitsTo(h: Hash, leaves: seq<Digest>, cp: Checkpoint)
  {
    cp.size == |leaves| && cp.rootB64 == RootB64(h, leaves)
  }

  predicate Commitment(h: Hash, entries: seq<Bytes>, cp: Checkpoint)
  {
    CommitsTo(h, LeafHashes(h, entries), cp)
  }

  function AuditChecks(h: Hash, leaves: seq<Digest>, cp: Checkpoint, sigOk: bool, pinned: Option<Checkpoint>)
    : seq<CheckResult>
  {
    [CheckResult(CheckpointSignature, sigOk),
     CheckResult(RootRecomputation, RootB64(h, leaves) == cp.rootB64 && |leaves| == cp.size)]
    + match pinned
      case None => []
      case Some(pin) =>
        [CheckResult(AppendOnly, pin.size <= |leaves| && RootB64(h, Slice(leaves, pin.size)) == pin.rootB64)]
  }

  predicate Passed(checks: seq<CheckResult>)
  {
    forall i :: 0 <= i < |checks| ==> checks[i].ok
  }

  /** Two inputs of the trees over two lists of leaves collide. */
  ghost predicate NodesCollide(h: Hash, a: seq<Digest>, b: seq<Digest>)
  {
    var U := Consistency.NodeInputs(h, a) + Consistency.NodeInputs(h, b);
    Collides(h, U, U)
  }

  /** The live leaves have the committed root and size exactly when they are the committed ones, or inputs collide. */
  lemma LeavesChecked(h: Hash, signed: seq<Digest>, live: seq<Digest>, cp: Checkpoint)
    requires CommitsTo(h, signed, cp)
    ensures signed == live ==> RootB64(h, live) == cp.rootB64 && |live| == cp.size
    ensures RootB64(h, live) == cp.rootB64 && |live| == cp.size ==> signed == live || NodesCollide(h, signed, live)
  {
    hide MerkleRoot, Collides, Base64.Encode, Consistency.NodeInputs;
    if RootB64(h, live) == cp.rootB64 && |live| == cp.size {
      Base64.EncodeInjective(MerkleRoot(h, live), MerkleRoot(h, signed), false);
      if !NodesCollide(h, signed, live) {
        Consistency.LeavesInjective(h, signed, live,
                                    Consistency.NodeInputs(h, signed) + Consistency.NodeInputs(h, live));
      }
    }
  }

  /** `audit`, for the leaves the log holds now, tampered with or not. The second check passes exactly when they
      are the leaves the checkpoint commits to, and the third exactly when the leaves that the pinned
      checkpoint commits to come first among them, unless node inputs collide. */
  method Audit(log: MerkleLog, checkpoint: Checkpoint, verify: Checkpoint -> bool, pinned: Option<Checkpoint>)
    returns (checks: seq<CheckResult>)
    ensures checks == AuditChecks(log.h, log.leaves, checkpoint, verify(checkpoint), pinned)
    ensures |checks| == if pinned.Some? then 3 else 2
    ensures checks[0].name == CheckpointSignature && checks[1].name == RootRecomputation
    ensures pinned.Some? ==> checks[2].name == AppendOnly
    ensures checks[0].ok <==> verify(checkpoint)
    ensures checks[1].ok <==>
              checkpoint.size == |log.leaves| && checkpoint.rootB64 == Base64.Encode(MerkleRoot(log.h, log.leaves), false)
    ensures Passed(checks) <==> checks[0].ok && checks[1].ok && (pinned.Some? ==> checks[2].ok)
    ensures pinned.Some? ==>
              var (size, n) := (pinned.value.size, |log.leaves|);
              checks[2].ok <==>
                size <= n
                && var first := log.leaves[..if size >= 0 then size else if n + size >= 0 then n + size else 0];
                   pinned.value.rootB64 == Base64.Encode(MerkleRoot(log.h, first), false)
    ensures forall signed :: CommitsTo(log.h, signed, checkpoint) ==>
              && (signed == log.leaves ==> checks[1].ok)
              && (checks[1].ok ==> signed == log.leaves || NodesCollide(log.h, signed, log.leaves))
    ensures pinned.Some? ==>
              forall earlier :: CommitsTo(log.h, earlier, pinned.value) ==>
                && (earlier <= log.leaves ==> checks[2].ok)
                && (checks[2].ok ==>
                      || earlier <= log.leaves
                      || (|earlier| <= |log.leaves| && NodesCollide(log.h, earlier, log.leaves[..|earlier|])))
  {
    hide MerkleRoot, Base64.Encode, NodesCollide;
    forall signed | CommitsTo(log.h, signed, checkpoint) {
      LeavesChecked(log.h, signed, log.leaves, checkpoint);
    }
    if pinned.Some? {
      forall earlier | CommitsTo(log.h, earlier, pinned.value) && |earlier| <= |log.leaves| {
        LeavesChecked(log.h, earlier, log.leaves[..|earlier|], pinned.value);
      }
    }
    checks := [];
    var sigOk := verify(checkpoint);
    checks := checks + [CheckResult(CheckpointSignature, sigOk)];

    var root := log.Root();
    var liveRootB64 := Base64.Encode(root, false);
    var rootOk := liveRootB64 == checkpoint.rootB64 && |log.leaves| == checkpoint.size;
    checks := checks + [CheckResult(RootRecomputation, rootOk)];

    if pinned.Some? {
      var oldRoot := ComputeRoot(log.h, Slice(log.leaves, pinned.value.size));
      var recomputed := Base64.Encode(oldRoot, false);
      var grewOk := pinned.value.size <= |log.leaves| && recomputed == pinned.value.rootB64;
      checks := checks + [CheckResult(AppendOnly, grewOk)];
    }
  }

  /** The whole audit, for checkpoints that did commit to lists of leaves: it passes when the signature verifies,
      the signed leaves are the live ones and the pinned ones come first among them, and then only, unless node
      inputs collide. */
  lemma {:induction false} AuditExact(h: Hash, live: seq<Digest>, signed: seq<Digest>, earlier: seq<Digest>, cp: Checkpoint, sigOk: bool,
                   pin: Checkpoint)
    requires CommitsTo(h, signed, cp) && CommitsTo(h, earlier, pin)
    ensures var passed := Passed(AuditChecks(h, live, cp, sigOk, Some(pin)));
            && (sigOk && signed == live && earlier <= live ==> passed)
            && (passed ==>
                  && sigOk
                  && (signed == live || NodesCollide(h, signed, live))
                  && |earlier| <= |live|
                  && (earlier <= live || NodesCollide(h, earlier, live[..|earlier|])))
    ensures var passed := Passed(AuditChecks(h, live, cp, sigOk, None));
            && (sigOk && signed == live ==> passed)
            && (passed ==> sigOk && (signed == live || NodesCollide(h, signed, live)))
  {
    hide MerkleRoot, Base64.Encode, NodesCollide;
    LeavesChecked(h, signed, live, cp);
    if |earlier| <= |live| {
      LeavesChecked(h, earlier, live[..|earlier|], pin);
    }
    var checks := AuditChecks(h, live, cp, sigOk, Some(pin));
    assert Passed(checks) <==> checks[0].ok && checks[1].ok && checks[2].ok;
    var fewer := AuditChecks(h, live, cp, sigOk, None);
    assert Passed(fewer) <==> fewer[0].ok && fewer[1].ok;
  }

  /** Completeness: whatever was appended since, every earlier checkpoint passes the audit of today's log. */
  lemma {:induction false} EarlierCheckpointsPass(h: Hash, earlier: seq<Bytes>, more: seq<Bytes>, cp: Checkpoint, pin: Checkpoint)
    requires Commitment(h, earlier + more, cp) && Commitment(h, earlier, pin)
    ensures Passed(AuditChecks(h, LeafHashes(h, earlier + more), cp, true, Some(pin)))
  {
    LeafHashesSplit(h, earlier + more, |earlier|);
    assert (earlier + more)[..|earlier|] == earlier;
  }

  /** Exactness of the append-only check for a checkpoint that did commit to a log: it passes exactly
      when that log is still a prefix of today's, unless two inputs of the two trees collide. */
  lemma {:induction false} AppendOnlyExact(h: Hash, earlier: seq<Bytes>, now: seq<Bytes>, pin: Checkpoint)
    requires Commitment(h, earlier, pin)
    ensures var ok := pin.size <= |now| && RootB64(h, Slice(LeafHashes(h, now), pin.size)) == pin.rootB64;
            && (earlier <= now ==> ok)
            && (ok ==> earlier <= now || (var U := TreeInputs(h, earlier) + TreeInputs(h, now[..pin.size]); Collides(h, U, U)))
  {
    hide MerkleRoot, TreeInputs, Collides;
    if earlier <= now {
      LeafHashesSplit(h, now, |earlier|);
      assert now[..|earlier|] == earlier;
    }
    if pin.size <= |now| && RootB64(h, Slice(LeafHashes(h, now), pin.size)) == pin.rootB64 {
      var kept := now[..pin.size];
      LeafHashesSplit(h, now, pin.size);
      Base64.EncodeInjective(LogRoot(h, kept), LogRoot(h, earlier), false);
      var U := TreeInputs(h, earlier) + TreeInputs(h, kept);
      if !Collides(h, U, U) {
        Consistency.RootInjective(h, earlier, kept, U);
        assert earlier <= now;
      }
    }
  }

  /** Root recomputation is exact too: entries that differ from the signed ones fail the check. */
  lemma {:induction false} RootRecomputationExact(h: Hash, signed: seq<Bytes>, live: seq<Bytes>, cp: Checkpoint)
    requires Commitment(h, signed, cp)
    ensures var ok := RootB64(h, LeafHashes(h, live)) == cp.rootB64 && |live| == cp.size;
            && (live == signed ==> ok)
            && (ok ==> live == signed || (var U := TreeInputs(h, signed) + TreeInputs(h, live); Collides(h, U, U)))
  {
    hide MerkleRoot, TreeInputs, Collides;
    if RootB64(h, LeafHashes(h, live)) == cp.rootB64 && |live| == cp.size {
      Base64.EncodeInjective(LogRoot(h, live), LogRoot(h, signed), false);
      var U := TreeInputs(h, signed) + TreeInputs(h, live);
      if !Collides(h, U, U) {
        Consistency.RootInjective(h, signed, live, U);
      }
    }
  }

  /** A log that only grows keeps every entry provable: an entry's proof is served exactly once the log has
      three entries, and then it checks against the root of the day. */
  lemma {:induction false} EntriesStayProvable(h: Hash, earlier: seq<Bytes>, more: seq<Bytes>, index: nat)
    requires index < |earlier|
    ensures var now := earlier + more;
            var served := ServeInclusion(h, LeafHashes(h, now), MIN_PROOF_SIZE, index);
            && (served.Success? <==> |now| >= 3)
            && (served.Success? ==>
                  TlogWalk(h, LeafHash(h, earlier[index]), index, |now|, served.value) == Success(LogRoot(h, now)))
  {
    hide InclusionProof, MerkleRoot, TlogWalk;
    TlogCompleteness(h, LeafHashes(h, earlier + more), index);
    assert (earlier + more)[index] == earlier[index];
  }
}
