/** Agent facts, proof blocks and deltas (sm_bridge/models.py, sm_bridge/trust/base.py). */
module AgentFacts {
  import opened Wrappers

  datatype ProofStatus = VERIFIED | FAILED | NOT_VERIFIED

  /** A normalized proof block, without its timestamp. */
  datatype Proof = Proof(profile: string, verifier: string, status: ProofStatus,
                         evidenceRef: Option<string>, failureReason: Option<string>)

  /** `body` stands for the fields no operation here looks into. */
  datatype Facts = Facts(id: string, handle: Option<string>, body: string, proof: Option<Proof>)

  function Erase(f: Facts): Facts
  {
    f.(proof := None)
  }

  /** One entry of the change log; `action` is "upsert", "delete" or "revoke", but the store takes any. */
  datatype Delta = Delta(seqNo: int, action: string, agent: Facts)
}

/** Python's string helpers on one separator character. */
module Separators {
  /** `s.rsplit(c, 1)[-1]`: the part after the last `c`, or all of `s`. */
  function AfterLast(s: string, c: char): (t: string)
    ensures c !in t && |t| <= |s|
  {
    if c in s then AfterLast(s[1..], c) else s
  }

  lemma {:induction false} AfterLastOf(front: string, c: char, t: string)
    ensures AfterLast(front + [c] + t, c) == AfterLast(t, c)
    ensures c !in t ==> AfterLast(t, c) == t
  {
    var s := front + [c] + t;
    assert s[|front|] == c;
    if front == [] {
      assert s[1..] == t;
    } else {
      assert s[1..] == front[1..] + [c] + t;
      AfterLastOf(front[1..], c, t);
    }
  }

  /** The longest suffix without `c`. */
  lemma {:induction false} AfterLastIs(s: string, c: char)
    ensures c !in s ==> AfterLast(s, c) == s
    ensures c in s ==> exists front :: s == front + [c] + AfterLast(s, c)
  {
    if c in s {
      AfterLastIs(s[1..], c);
      if c in s[1..] {
        var front :| s[1..] == front + [c] + AfterLast(s[1..], c);
        assert s == ([s[0]] + front) + [c] + AfterLast(s, c);
      } else {
        assert s == [] + [c] + AfterLast(s, c);
      }
    }
  }

  /** `s.partition(c)[0]`, which is also `s.split(c, 1)[0]`. */
  function BeforeFirst(s: string, c: char): (t: string)
    ensures c !in t && |t| <= |s|
  {
    if s == [] || s[0] == c then [] else [s[0]] + BeforeFirst(s[1..], c)
  }

  /** `s.partition(c)[2]`. */
  function AfterFirst(s: string, c: char): string
  {
    if s == [] then [] else if s[0] == c then s[1..] else AfterFirst(s[1..], c)
  }

  lemma {:induction false} PartitionOf(t: string, c: char, rest: string)
    requires c !in t
    ensures BeforeFirst(t + [c] + rest, c) == t
    ensures AfterFirst(t + [c] + rest, c) == rest
  {
    var s := t + [c] + rest;
    if t == [] {
      assert s == [c] + rest;
    } else {
      assert s[1..] == t[1..] + [c] + rest;
      PartitionOf(t[1..], c, rest);
    }
  }

  lemma {:induction false} NothingToPartition(t: string, c: char)
    requires c !in t
    ensures BeforeFirst(t, c) == t
  {
    if t != [] {
      NothingToPartition(t[1..], c);
    }
  }
}
