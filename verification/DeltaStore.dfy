/** The delta log of sm_bridge/store.py: sequenced, append-only, with an index of the last delta per agent. */
module DeltaStores {
  import opened Wrappers
  import opened AgentFacts

  ghost predicate Sequenced(log: seq<Delta>)
  {
    forall i :: 0 <= i < |log| ==> log[i].seqNo == i + 1
  }

  /** The per-agent index after recording `log`. */
  function LatestIndex(log: seq<Delta>): map<string, Delta>
  {
    if log == [] then map[]
    else
      var last := log[|log| - 1];
      LatestIndex(log[..|log| - 1])[last.agent.id := last]
  }

  /** The delta at position `i` is the last one of its agent. */
  ghost predicate IsLatest(log: seq<Delta>, i: nat)
    requires i < |log|
  {
    forall j :: i < j < |log| ==> log[j].agent.id != log[i].agent.id
  }

  /** The position of an agent's last delta, or -1. */
  function LastPos(log: seq<Delta>, id: string): (p: int)
    ensures -1 <= p < |log|
    ensures p >= 0 ==> log[p].agent.id == id
    ensures forall i :: p < i < |log| ==> log[i].agent.id != id
  {
    if log == [] then -1
    else if log[|log| - 1].agent.id == id then |log| - 1
    else LastPos(log[..|log| - 1], id)
  }

  lemma {:induction false} LatestIndexAt(log: seq<Delta>, id: string)
    ensures id in LatestIndex(log) <==> LastPos(log, id) >= 0
    ensures id in LatestIndex(log) ==> LatestIndex(log)[id] == log[LastPos(log, id)]
  {
    if log != [] {
      LatestIndexAt(log[..|log| - 1], id);
    }
  }

  lemma {:induction false} LatestIndexIs(log: seq<Delta>)
    ensures forall id <- LatestIndex(log) :: LastPos(log, id) >= 0 && LatestIndex(log)[id] == log[LastPos(log, id)]
    ensures forall i :: 0 <= i < |log| && IsLatest(log, i) ==>
              log[i].agent.id in LatestIndex(log) && LatestIndex(log)[log[i].agent.id] == log[i]
  {
    forall id {
      LatestIndexAt(log, id);
    }
    forall i | 0 <= i < |log| && IsLatest(log, i)
      ensures LastPos(log, log[i].agent.id) == i
    {
    }
  }

  /** The position of a member of the index is that agent's last one. */
  lemma LastPosIsLatest(log: seq<Delta>, id: string)
    requires LastPos(log, id) >= 0
    ensures IsLatest(log, LastPos(log, id))
  {
  }

  ghost predicate Ascending(s: seq<Delta>)
  {
    forall i, j :: 0 <= i < j < |s| ==> s[i].seqNo < s[j].seqNo
  }

  /** `s` is the snapshot of `log`: the last delta of every agent, in sequence order. */
  ghost predicate IsSnapshot(log: seq<Delta>, s: seq<Delta>)
  {
    && Ascending(s)
    && (forall d <- s :: exists i :: 0 <= i < |log| && log[i] == d && IsLatest(log, i))
    && (forall i :: 0 <= i < |log| && IsLatest(log, i) ==> log[i] in s)
  }

  lemma {:induction false} AscendingUnique(s: seq<Delta>, t: seq<Delta>)
    requires Ascending(s) && Ascending(t)
    requires forall d :: d in s <==> d in t
    ensures s == t
  {
    FirstIn(s);
    FirstIn(t);
    if s != [] {
      assert s[0] in t;
      assert t[0] in s;
      assert s[0] == t[0];
      forall d ensures d in s[1..] <==> d in t[1..] {
        assert d in s[1..] ==> d in s && d.seqNo > s[0].seqNo;
        assert d in t[1..] ==> d in t && d.seqNo > t[0].seqNo;
      }
      AscendingUnique(s[1..], t[1..]);
    }
  }

  lemma FirstIn(s: seq<Delta>)
    ensures s != [] ==> s[0] in s
  {
  }

  /** A log has exactly one snapshot. */
  lemma SnapshotUnique(log: seq<Delta>, s: seq<Delta>, t: seq<Delta>)
    requires IsSnapshot(log, s) && IsSnapshot(log, t)
    ensures s == t
  {
    forall d ensures d in s <==> d in t {
    }
    AscendingUnique(s, t);
  }

  /** `seqNo` cut to `0..n`. */
  function Clamp(seqNo: int, n: nat): nat
  {
    if seqNo < 0 then 0 else if seqNo > n then n else seqNo
  }

  /** The deltas of a log from position `seqNo` on. */
  function TailFrom(log: seq<Delta>, seqNo: int): seq<Delta>
  {
    log[Clamp(seqNo, |log|)..]
  }

  /** The tail holds just the deltas with a greater number. */
  lemma TailMembers(log: seq<Delta>, seqNo: int)
    requires Sequenced(log)
    ensures forall d :: d in TailFrom(log, seqNo) <==> d in log && d.seqNo > seqNo
  {
    var (k, tail) := (Clamp(seqNo, |log|), TailFrom(log, seqNo));
    forall d | d in log && d.seqNo > seqNo ensures d in tail {
      var i :| 0 <= i < |log| && log[i] == d;
      assert tail[i - k] == d;
    }
    forall d | d in tail ensures d in log && d.seqNo > seqNo {
      var i :| 0 <= i < |tail| && tail[i] == d;
      assert log[k + i] == d;
    }
  }

  lemma TailOfNone(seqNo: int)
    ensures TailFrom([], seqNo) == []
  {
  }

  lemma TailGrows(log: seq<Delta>, seqNo: int, d: Delta)
    ensures TailFrom(log + [d], seqNo) == TailFrom(log, seqNo) + if |log| + 1 > seqNo then [d] else []
  {
    var k := Clamp(seqNo, |log|);
    if seqNo <= |log| {
      assert (log + [d])[k..] == log[k..] + [d];
    } else {
      assert (log + [d])[|log| + 1..] == [] && log[|log|..] == [];
    }
  }

  class DeltaStore {
    var lastSeq: nat
    var deltas: seq<Delta>
    var latest: map<string, Delta>

    ghost predicate Valid()
      reads this
    {
      lastSeq == |deltas| && Sequenced(deltas) && latest == LatestIndex(deltas)
    }

    constructor ()
      ensures Valid() && deltas == []
    {
      lastSeq, deltas, latest := 0, [], map[];
    }

    method Add(action: string, agent: Facts) returns (delta: Delta)
      requires Valid()
      modifies this
      ensures Valid() && delta == Delta(old(|deltas|) + 1, action, agent) && deltas == old(deltas) + [delta]
    {
      lastSeq := lastSeq + 1;
      delta := Delta(lastSeq, action, agent);
      deltas := deltas + [delta];
      latest := latest[agent.id := delta];
      assert deltas[..|deltas| - 1] == old(deltas);
    }

    /** Exactly the tail after `seqNo`. */
    method Since(seqNo: int) returns (tail: seq<Delta>)
      requires Valid()
      ensures tail == TailFrom(deltas, seqNo)
      ensures forall d :: d in tail <==> d in deltas && d.seqNo > seqNo
    {
      hide LatestIndex, TailFrom;
      TailMembers(deltas, seqNo);
      tail := [];
      TailOfNone(seqNo);
      assert deltas[..0] == [] && deltas[..|deltas|] == deltas;
      for i := 0 to |deltas|
        invariant tail == TailFrom(deltas[..i], seqNo)
      {
        TailGrows(deltas[..i], seqNo, deltas[i]);
        assert deltas[..i + 1] == deltas[..i] + [deltas[i]];
        if deltas[i].seqNo > seqNo {
          tail := tail + [deltas[i]];
        }
      }
    }

    /** `sorted(self._latest.values(), key=seq)`. */
    method Snapshot() returns (s: seq<Delta>)
      requires Valid()
      ensures IsSnapshot(deltas, s)
    {
      LatestIndexIs(deltas);
      forall id | id in latest ensures IsLatest(deltas, LastPos(deltas, id)) {
        LastPosIsLatest(deltas, id);
      }
      var ids := latest.Keys;
      s := [];
      while ids != {}
        invariant ids <= latest.Keys
        invariant Ascending(s)
        invariant forall d :: d in s <==> d.agent.id in latest.Keys - ids && latest[d.agent.id] == d
      {
        var id :| id in ids;
        ids := ids - {id};
        var d := latest[id];
        assert d.agent.id == id;
        LatestDiffer(deltas, d, s);
        InsertAscends(s, d);
        s := Insert(s, d);
      }
    }

    method Get(seqNo: int) returns (found: Option<Delta>)
      requires Valid()
      ensures found == if 1 <= seqNo <= |deltas| then Some(deltas[seqNo - 1]) else None
    {
      for i := 0 to |deltas|
        invariant !(1 <= seqNo <= i)
      {
        if deltas[i].seqNo == seqNo {
          return Some(deltas[i]);
        }
      }
      return None;
    }

    method NextSeq() returns (n: nat)
      requires Valid()
      ensures n == |deltas| + 1
    {
      n := lastSeq + 1;
    }
  }

  lemma LatestDiffer(log: seq<Delta>, d: Delta, s: seq<Delta>)
    requires Sequenced(log) && d in log && d !in s && forall e <- s :: e in log
    ensures forall e <- s :: e.seqNo != d.seqNo
  {
  }

  function Insert(s: seq<Delta>, d: Delta): (r: seq<Delta>)
    ensures forall e :: e in r <==> e == d || e in s
  {
    if s == [] || d.seqNo < s[0].seqNo then [d] + s
    else
      assert s == [s[0]] + s[1..];
      [s[0]] + Insert(s[1..], d)
  }

  lemma {:induction false} InsertAscends(s: seq<Delta>, d: Delta)
    requires Ascending(s) && forall e <- s :: e.seqNo != d.seqNo
    ensures Ascending(Insert(s, d))
  {
    if s != [] && d.seqNo > s[0].seqNo {
      var rest := Insert(s[1..], d);
      InsertAscends(s[1..], d);
      forall i | 0 <= i < |rest| ensures s[0].seqNo < rest[i].seqNo {
        assert rest[i] == d || rest[i] in s[1..];
      }
    }
  }
}
