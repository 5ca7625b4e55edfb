/** The catalog of sm_bridge/gateway.py, rebuilt from the store's snapshot instead of a replay of its log. */
module Gateway {
  import opened Wrappers
  import opened AgentFacts
  import opened Separators
  import opened DeltaStores

  type SlugOf = Facts -> string

  type Catalog = map<string, Facts>

  function DefaultSlug(f: Facts): string
  {
    match f.handle
    case Some(handle) => if '/' in handle then AfterLast(handle, '/') else AfterLast(f.id, ':')
    case None => AfterLast(f.id, ':')
  }

  function Step(state: Catalog, slugOf: SlugOf, d: Delta): Catalog
  {
    if d.action == "upsert" then state[slugOf(d.agent) := d.agent] else state - {slugOf(d.agent)}
  }

  /** Replaying deltas in order from an empty catalog. */
  function Replay(log: seq<Delta>, slugOf: SlugOf): Catalog
  {
    if log == [] then map[] else Step(Replay(log[..|log| - 1], slugOf), slugOf, log[|log| - 1])
  }

  /** `current_facts`. */
  method CurrentFacts(store: DeltaStore, slugOf: SlugOf) returns (state: Catalog)
    requires store.Valid()
    ensures forall snapshot :: IsSnapshot(store.deltas, snapshot) ==> state == Replay(snapshot, slugOf)
    ensures SlugsStable(store.deltas, slugOf) ==> state == Replay(store.deltas, slugOf)
  {
    state := map[];
    var snapshot := store.Snapshot();
    for i := 0 to |snapshot|
      invariant state == Replay(snapshot[..i], slugOf)
    {
      var delta := snapshot[i];
      assert snapshot[..i + 1][..i] == snapshot[..i];
      var slug := slugOf(delta.agent);
      if delta.action == "upsert" {
        state := state[slug := delta.agent];
      } else {
        state := state - {slug};
      }
    }
    assert snapshot[..|snapshot|] == snapshot;
    forall t | IsSnapshot(store.deltas, t) ensures t == snapshot {
      SnapshotUnique(store.deltas, t, snapshot);
    }
    if SlugsStable(store.deltas, slugOf) {
      SnapshotIsReplay(store.deltas, snapshot, slugOf);
    }
  }

  // ----- what a replay holds at one slug --------------------------------------------------

  /** The last delta recorded for a slug. */
  function LastFor(log: seq<Delta>, slugOf: SlugOf, slug: string): Option<Delta>
  {
    if log == [] then None
    else if slugOf(log[|log| - 1].agent) == slug then Some(log[|log| - 1])
    else LastFor(log[..|log| - 1], slugOf, slug)
  }

  predicate Shows(d: Option<Delta>)
  {
    d.Some? && d.value.action == "upsert"
  }

  lemma {:induction false} ReplayAt(log: seq<Delta>, slugOf: SlugOf, slug: string)
    ensures var last := LastFor(log, slugOf, slug);
            && (slug in Replay(log, slugOf) <==> Shows(last))
            && (Shows(last) ==> Replay(log, slugOf)[slug] == last.value.agent)
  {
    if log != [] {
      ReplayAt(log[..|log| - 1], slugOf, slug);
    }
  }

  /** In a sequence ascending in `seqNo`, the last delta for a slug is the greatest one. */
  lemma {:induction false} LastForIsGreatest(log: seq<Delta>, slugOf: SlugOf, slug: string)
    requires Ascending(log)
    ensures match LastFor(log, slugOf, slug)
            case None => forall d <- log :: slugOf(d.agent) != slug
            case Some(last) => last in log && slugOf(last.agent) == slug
                               && forall d <- log :: slugOf(d.agent) == slug ==> d.seqNo <= last.seqNo
  {
    if log != [] {
      var n := |log| - 1;
      LastForIsGreatest(log[..n], slugOf, slug);
      forall d | d in log ensures d == log[n] || d in log[..n] {
        var i :| 0 <= i < |log| && log[i] == d;
        assert i < n ==> log[..n][i] == d;
      }
    }
  }

  // ----- snapshot against replay ----------------------------------------------------------

  /** Two deltas of one agent never have different slugs. */
  ghost predicate SlugsStable(log: seq<Delta>, slugOf: SlugOf)
  {
    forall d, e :: d in log && e in log && d.agent.id == e.agent.id ==> slugOf(d.agent) == slugOf(e.agent)
  }

  /** The last delta of its agent. */
  ghost predicate IsCurrent(log: seq<Delta>, d: Delta)
  {
    exists i :: 0 <= i < |log| && log[i] == d && IsLatest(log, i)
  }

  /** Of the agents whose last delta is recorded under `slug`, the one recorded last. */
  ghost predicate IsTop(log: seq<Delta>, slugOf: SlugOf, slug: string, d: Delta)
  {
    && IsCurrent(log, d) && slugOf(d.agent) == slug
    && forall e <- log :: IsCurrent(log, e) && slugOf(e.agent) == slug ==> e.seqNo <= d.seqNo
  }

  /** The last delta recorded under `slug` is its agent's last; or it is a removal, and so is the latest of
      the agents' last deltas under that slug, if there is one. */
  ghost predicate Settled(log: seq<Delta>, slugOf: SlugOf, slug: string)
  {
    match LastFor(log, slugOf, slug)
    case None => true
    case Some(d) =>
      IsCurrent(log, d) || (d.action != "upsert" && forall e <- log :: IsTop(log, slugOf, slug, e) ==> e.action != "upsert")
  }

  lemma CurrentInSnapshot(log: seq<Delta>, snapshot: seq<Delta>, d: Delta)
    requires IsSnapshot(log, snapshot)
    ensures d in snapshot <==> IsCurrent(log, d)
  {
  }

  lemma TopOfSnapshot(log: seq<Delta>, snapshot: seq<Delta>, slugOf: SlugOf, slug: string)
    requires Sequenced(log) && IsSnapshot(log, snapshot)
    ensures Shows(LastFor(snapshot, slugOf, slug)) <==> exists e <- log :: IsTop(log, slugOf, slug, e) && e.action == "upsert"
  {
    hide IsSnapshot, IsCurrent;
    forall d {
      CurrentInSnapshot(log, snapshot, d);
    }
    SnapshotAscends(log, snapshot);
    SnapshotWithin(log, snapshot);
    LastForIsGreatest(snapshot, slugOf, slug);
    forall e | e in log && IsTop(log, slugOf, slug, e) ensures LastFor(snapshot, slugOf, slug) == Some(e) {
      SameSeqSameDelta(log, e, LastFor(snapshot, slugOf, slug).value);
    }
    match LastFor(snapshot, slugOf, slug)
    case None =>
    case Some(d) => assert IsTop(log, slugOf, slug, d);
  }

  lemma SnapshotAscends(log: seq<Delta>, snapshot: seq<Delta>)
    requires IsSnapshot(log, snapshot)
    ensures Ascending(snapshot)
  {
  }

  /** What being settled means for the catalog. */
  lemma {:induction false} SettledMeans(log: seq<Delta>, snapshot: seq<Delta>, slugOf: SlugOf, slug: string)
    requires Sequenced(log) && IsSnapshot(log, snapshot)
    ensures Settled(log, slugOf, slug) <==>
            match LastFor(log, slugOf, slug)
            case None => true
            case Some(d) => d in snapshot || (d.action != "upsert" && !Shows(LastFor(snapshot, slugOf, slug)))
  {
    hide IsSnapshot, IsCurrent, IsTop, LastFor;
    TopOfSnapshot(log, snapshot, slugOf, slug);
    match LastFor(log, slugOf, slug)
    case None =>
    case Some(d) => CurrentInSnapshot(log, snapshot, d);
  }

  lemma SequencedAscends(log: seq<Delta>)
    requires Sequenced(log)
    ensures Ascending(log)
    ensures forall i, j :: 0 <= i < |log| && 0 <= j < |log| && log[i].seqNo <= log[j].seqNo ==> i <= j
  {
  }

  lemma SnapshotWithin(log: seq<Delta>, snapshot: seq<Delta>)
    requires IsSnapshot(log, snapshot)
    ensures forall d <- snapshot :: d in log
  {
  }

  /** A current delta that is the last under its slug in the log is the last in the snapshot. */
  lemma {:induction false} LastInBoth(log: seq<Delta>, snapshot: seq<Delta>, slugOf: SlugOf, slug: string, d: Delta)
    requires Sequenced(log) && IsSnapshot(log, snapshot)
    requires LastFor(log, slugOf, slug) == Some(d) && d in snapshot
    ensures LastFor(snapshot, slugOf, slug) == Some(d)
  {
    SequencedAscends(log);
    SnapshotWithin(log, snapshot);
    LastForIsGreatest(log, slugOf, slug);
    LastForIsGreatest(snapshot, slugOf, slug);
    SameSeqSameDelta(log, d, LastFor(snapshot, slugOf, slug).value);
  }

  lemma SameSeqSameDelta(log: seq<Delta>, d: Delta, e: Delta)
    requires Sequenced(log) && d in log && e in log && d.seqNo == e.seqNo
    ensures d == e
  {
  }

  /** A superseded delta that is the last under its slug cannot share its facts' agent with a current
      delta under that slug. */
  lemma {:induction false} SupersededMoved(log: seq<Delta>, snapshot: seq<Delta>, slugOf: SlugOf, slug: string, d: Delta, e: Delta)
    requires Sequenced(log) && IsSnapshot(log, snapshot)
    requires LastFor(log, slugOf, slug) == Some(d) && d !in snapshot
    requires e in snapshot && slugOf(e.agent) == slug
    ensures e.agent.id != d.agent.id
  {
    SequencedAscends(log);
    LastForIsGreatest(log, slugOf, slug);
    var i :| 0 <= i < |log| && log[i] == e && IsLatest(log, i);
    var j :| 0 <= j < |log| && log[j] == d;
    assert i <= j;
  }

  /** The snapshot gives the replayed catalog exactly when every slug is settled. */
  lemma {:induction false} SnapshotExact(log: seq<Delta>, snapshot: seq<Delta>, slugOf: SlugOf)
    requires Sequenced(log) && IsSnapshot(log, snapshot)
    ensures Replay(snapshot, slugOf) == Replay(log, slugOf)
            <==> forall slug :: Settled(log, slugOf, slug)
  {
    var a, b := Replay(snapshot, slugOf), Replay(log, slugOf);
    if forall slug :: Settled(log, slugOf, slug) {
      forall slug ensures slug in a <==> slug in b
                  ensures slug in a && slug in b ==> a[slug] == b[slug]
      {
        assert Settled(log, slugOf, slug);
        SettledAgrees(log, snapshot, slugOf, slug);
      }
      assert a == b;
    }
    if a == b {
      forall slug ensures Settled(log, slugOf, slug) {
        AgreeingSettled(log, snapshot, slugOf, slug);
      }
    }
  }

  lemma {:induction false} SettledAgrees(log: seq<Delta>, snapshot: seq<Delta>, slugOf: SlugOf, slug: string)
    requires Sequenced(log) && IsSnapshot(log, snapshot) && Settled(log, slugOf, slug)
    ensures slug in Replay(snapshot, slugOf) <==> slug in Replay(log, slugOf)
    ensures slug in Replay(log, slugOf) ==> Replay(snapshot, slugOf)[slug] == Replay(log, slugOf)[slug]
  {
    SettledMeans(log, snapshot, slugOf, slug);
    ReplayAt(log, slugOf, slug);
    ReplayAt(snapshot, slugOf, slug);
    match LastFor(log, slugOf, slug)
    case None =>
      SequencedAscends(log);
      SnapshotWithin(log, snapshot);
      LastForIsGreatest(log, slugOf, slug);
      LastForIsGreatest(snapshot, slugOf, slug);
    case Some(d) =>
      if d in snapshot {
        LastInBoth(log, snapshot, slugOf, slug, d);
      }
  }

  lemma {:induction false} AgreeingSettled(log: seq<Delta>, snapshot: seq<Delta>, slugOf: SlugOf, slug: string)
    requires Sequenced(log) && IsSnapshot(log, snapshot) && Replay(snapshot, slugOf) == Replay(log, slugOf)
    ensures Settled(log, slugOf, slug)
  {
    SettledMeans(log, snapshot, slugOf, slug);
    ReplayAt(log, slugOf, slug);
    ReplayAt(snapshot, slugOf, slug);
    var last := LastFor(log, slugOf, slug);
    if last.Some? && last.value !in snapshot && Shows(last) {
      LastForIsGreatest(snapshot, slugOf, slug);
      SupersededMoved(log, snapshot, slugOf, slug, last.value, LastFor(snapshot, slugOf, slug).value);
    }
  }

  /** Snapshot equals replay for every log whose agents keep their slugs, deletes and slugs shared by
      several agents included. */
  lemma {:induction false} SnapshotIsReplay(log: seq<Delta>, snapshot: seq<Delta>, slugOf: SlugOf)
    requires Sequenced(log) && IsSnapshot(log, snapshot) && SlugsStable(log, slugOf)
    ensures Replay(snapshot, slugOf) == Replay(log, slugOf)
  {
    forall slug ensures Settled(log, slugOf, slug) {
      SequencedAscends(log);
      LastForIsGreatest(log, slugOf, slug);
      match LastFor(log, slugOf, slug)
      case None =>
      case Some(d) =>
        var i :| 0 <= i < |log| && log[i] == d;
        assert IsLatest(log, i);
    }
    SnapshotExact(log, snapshot, slugOf);
  }

  /** An agent whose handle moved leaves its old slug behind in a replay, and not in the snapshot. */
  lemma {:induction false} MovedHandleDiffers()
    ensures var (before, after) := (Facts("did:x", Some("@r:n/a"), "", None), Facts("did:x", Some("@r:n/b"), "", None));
            var log := [Delta(1, "upsert", before), Delta(2, "upsert", after)];
            && IsSnapshot(log, [log[1]])
            && "a" in Replay(log, DefaultSlug) && "a" !in Replay([log[1]], DefaultSlug)
  {
    hide AfterLast, Replay, DefaultSlug;
    var before, after := Facts("did:x", Some("@r:n/a"), "", None), Facts("did:x", Some("@r:n/b"), "", None);
    var log := [Delta(1, "upsert", before), Delta(2, "upsert", after)];
    assert log[1].agent.id == log[0].agent.id;
    assert IsLatest(log, 1) && !IsLatest(log, 0);
    assert "@r:n/a" == "@r:n" + ['/'] + "a" && "@r:n/b" == "@r:n" + ['/'] + "b";
    SlugOfHandle(before, "@r:n", "a");
    SlugOfHandle(after, "@r:n", "b");
    ReplayOnce(DefaultSlug, log[0]);
    ReplayOnce(DefaultSlug, log[1]);
    ReplayTwice(DefaultSlug, log[0], log[1]);
  }

  lemma SlugOfHandle(f: Facts, head: string, name: string)
    requires '/' !in name && f.handle == Some(head + ['/'] + name)
    ensures DefaultSlug(f) == name
  {
    hide AfterLast;
    AfterLastOf(head, '/', name);
    assert f.handle.value[|head|] == '/';
  }

  lemma ReplayTwice(slugOf: SlugOf, d: Delta, e: Delta)
    ensures Replay([d, e], slugOf) == Step(Replay([d], slugOf), slugOf, e)
  {
    assert [d, e][..1] == [d];
  }

  lemma ReplayOnce(slugOf: SlugOf, d: Delta)
    ensures Replay([d], slugOf) == Step(map[], slugOf, d)
  {
    assert [d][..0] == [];
  }

  /** Without a '/' in the handle the slug is what follows the last colon of the id. */
  lemma SlugOfId(f: Facts, front: string, name: string)
    requires (f.handle == None || '/' !in f.handle.value) && ':' !in name
    ensures f.id == front + [':'] + name ==> DefaultSlug(f) == name
    ensures f.id == name ==> DefaultSlug(f) == name
  {
    hide AfterLast;
    AfterLastOf(front, ':', name);
  }
}
