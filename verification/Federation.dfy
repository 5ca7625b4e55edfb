/** The delta pull of sm_bridge/federation.py: validate a whole page, resolve every proof, then write. */
module Federation {
  import opened Wrappers
  import opened AgentFacts
  import opened DeltaStores

  // ----- pages as they arrive -------------------------------------------------------------

  datatype SeqField = SeqInt(n: int) | NotInt

  datatype AgentField = WellFormed(facts: Facts) | Malformed

  datatype Row = NotObject | Row(seqNo: SeqField, action: Option<string>, agent: AgentField)

  datatype Page = NotPage | Page(rows: seq<Row>, nextSeq: SeqField)

  datatype Mode = Exclusive | Inclusive | Unsupported

  datatype PullError = BadArguments | FetchFailed | BadPage | BadRow | BadNextSeq | ReverifyRaised

  datatype PullResult = PullResult(applied: nat, cursor: int)

  type Fetch = int -> Option<Page>

  datatype Opinion = NoOpinion | Raised | Opinion(proof: Proof)

  type Reverify = (Facts, Row) -> Opinion

  // ----- validation -----------------------------------------------------------------------

  predicate RowOk(row: Row)
  {
    && row.Row?
    && row.seqNo.SeqInt?
    && (row.action == Some("upsert") || row.action == Some("delete") || row.action == Some("revoke"))
    && row.agent.WellFormed?
  }

  predicate AllOk(rows: seq<Row>)
  {
    forall i {:trigger rows[i]} :: 0 <= i < |rows| ==> RowOk(rows[i])
  }

  /** The sequence number a row must exceed. */
  function Before(rows: seq<Row>, i: nat, previous: int): int
    requires i <= |rows| && AllOk(rows[..i])
  {
    if i == 0 then previous else assert RowOk(rows[..i][i - 1]); rows[i - 1].seqNo.n
  }

  /** Every row is well formed, and sequence numbers increase from above `previous`. */
  predicate RowsOk(rows: seq<Row>, previous: int)
  {
    AllOk(rows) && forall i {:trigger rows[i]} :: 0 <= i < |rows| ==> Before(rows, i, previous) < rows[i].seqNo.n
  }

  function Floor(mode: Mode, since: int): int
  {
    if mode.Exclusive? then since else since - 1
  }

  function CursorAfter(mode: Mode, since: int, rows: seq<Row>): int
    requires AllOk(rows)
  {
    if rows == [] then since
    else if mode.Inclusive? then rows[|rows| - 1].seqNo.n + 1
    else rows[|rows| - 1].seqNo.n
  }

  /** The cursor a page leads to, or why it is refused. */
  function CheckPage(mode: Mode, since: int, page: Page): Result<int, PullError>
  {
    if page.NotPage? then Failure(BadPage)
    else if !RowsOk(page.rows, Floor(mode, since)) then Failure(BadRow)
    else if mode.Inclusive? && page.nextSeq != SeqInt(CursorAfter(mode, since, page.rows)) then Failure(BadNextSeq)
    else Success(CursorAfter(mode, since, page.rows))
  }

  // ----- the same, spelled out ------------------------------------------------------------

  /** Row `i` of a page asked for from `since`: an object with an integer number greater than the one before (the
      first, greater than what `since` excludes), one of the three actions, and facts that validate. */
  ghost predicate GoodRow(rows: seq<Row>, i: nat, mode: Mode, since: int)
    requires i < |rows|
  {
    && rows[i].Row? && rows[i].seqNo.SeqInt? && rows[i].agent.WellFormed?
    && rows[i].action in {Some("upsert"), Some("delete"), Some("revoke")}
    && (i == 0 ==> rows[0].seqNo.n > if mode.Exclusive? then since else since - 1)
    && (i > 0 ==> rows[i - 1].Row? && rows[i - 1].seqNo.SeqInt? && rows[i].seqNo.n > rows[i - 1].seqNo.n)
  }

  ghost predicate GoodRows(rows: seq<Row>, mode: Mode, since: int)
  {
    forall i :: 0 <= i < |rows| ==> GoodRow(rows, i, mode, since)
  }

  /** The cursor is the last number of a page, or one more, or unmoved by an empty page. */
  ghost predicate IsCursor(cursor: int, rows: seq<Row>, mode: Mode, since: int)
  {
    && (rows == [] ==> cursor == since)
    && (rows != [] ==>
          var last := rows[|rows| - 1];
          last.Row? && last.seqNo == SeqInt(if mode.Inclusive? then cursor - 1 else cursor))
  }

  lemma RowsOkIs(rows: seq<Row>, mode: Mode, since: int)
    ensures RowsOk(rows, Floor(mode, since)) <==> GoodRows(rows, mode, since)
  {
    if GoodRows(rows, mode, since) {
      forall i {:trigger rows[i]} | 0 <= i < |rows| ensures RowOk(rows[i]) {
        assert GoodRow(rows, i, mode, since);
      }
      forall i {:trigger rows[i]} | 0 <= i < |rows| ensures Before(rows, i, Floor(mode, since)) < rows[i].seqNo.n {
        assert GoodRow(rows, i, mode, since);
      }
    }
    if RowsOk(rows, Floor(mode, since)) {
      forall i | 0 <= i < |rows| ensures GoodRow(rows, i, mode, since) {
        RowIs(rows, i, mode, since);
      }
    }
  }

  lemma RowIs(rows: seq<Row>, i: nat, mode: Mode, since: int)
    requires i < |rows| && RowsOk(rows, Floor(mode, since))
    ensures GoodRow(rows, i, mode, since)
  {
    assert RowOk(rows[i]) && (i > 0 ==> RowOk(rows[i - 1]));
    assert Before(rows, i, Floor(mode, since)) < rows[i].seqNo.n;
  }

  lemma CursorIs(rows: seq<Row>, mode: Mode, since: int)
    requires AllOk(rows)
    ensures forall cursor :: IsCursor(cursor, rows, mode, since) <==> cursor == CursorAfter(mode, since, rows)
  {
    assert rows != [] ==> RowOk(rows[|rows| - 1]);
  }

  /** No local re-verification of a row raises. */
  ghost predicate NoneRaises(rows: seq<Row>, reverify: Option<Reverify>)
  {
    forall i {:trigger rows[i]} :: 0 <= i < |rows| && reverify.Some? && rows[i].Row? && rows[i].agent.WellFormed? ==>
      reverify.value(rows[i].agent.facts, rows[i]) != Raised
  }

  /** When a pull succeeds, and with which cursor. */
  lemma {:induction false} PullIs(fetch: Fetch, since: int, mode: Mode, reverify: Option<Reverify>, trustPeer: bool)
    ensures var result := Pull(fetch, since, mode, reverify, trustPeer);
            && (result.Success? <==>
                  && since >= 0 && (mode.Exclusive? || mode.Inclusive?)
                  && fetch(since).Some? && fetch(since).value.Page?
                  && var page := fetch(since).value;
                     && GoodRows(page.rows, mode, since)
                     && (mode.Inclusive? ==>
                           page.nextSeq.SeqInt? && IsCursor(page.nextSeq.n, page.rows, mode, since))
                     && NoneRaises(page.rows, reverify))
            && (result.Success? ==>
                  && |result.value.0| == |fetch(since).value.rows|
                  && IsCursor(result.value.1, fetch(since).value.rows, mode, since))
  {
    hide ResolveAll, RowsOk, GoodRows, IsCursor, OpinionOn, Floor;
    if since >= 0 && !mode.Unsupported? && fetch(since).Some? && fetch(since).value.Page? {
      var rows := fetch(since).value.rows;
      RowsOkIs(rows, mode, since);
      if RowsOk(rows, Floor(mode, since)) {
        RowsOkAreOk(rows, Floor(mode, since));
        CursorIs(rows, mode, since);
        NoLaundering(rows, reverify, trustPeer);
        RaisesIs(rows, reverify);
      }
    }
  }

  lemma RowsOkAreOk(rows: seq<Row>, previous: int)
    requires RowsOk(rows, previous)
    ensures AllOk(rows)
  {
  }

  lemma RaisesIs(rows: seq<Row>, reverify: Option<Reverify>)
    requires AllOk(rows)
    ensures NoneRaises(rows, reverify) <==> forall i {:trigger rows[i]} :: 0 <= i < |rows| ==> OpinionOn(rows[i], reverify) != Raised
  {
    assert forall i {:trigger rows[i]} :: 0 <= i < |rows| ==> RowOk(rows[i]);
  }

  // ----- proofs ---------------------------------------------------------------------------

  const INGESTED: Proof := Proof("federation", "federation-ingest", NOT_VERIFIED, None,
                                 Some("proof asserted by a federated peer; not re-verified by this registry"))

  function ResolveInboundProof(facts: Facts, row: Row, reverify: Option<Reverify>, trustPeer: bool)
    : Result<Option<Proof>, PullError>
  {
    var opinion := if reverify.Some? then reverify.value(facts, row) else NoOpinion;
    match opinion
    case Raised => Failure(ReverifyRaised)
    case Opinion(proof) => Success(Some(proof))
    case NoOpinion => Success(if trustPeer then facts.proof else Some(INGESTED))
  }

  datatype Prepared = Prepared(action: string, facts: Facts)

  /** The rows with their proofs decided by this registry. */
  function ResolveAll(rows: seq<Row>, reverify: Option<Reverify>, trustPeer: bool): (r: Result<seq<Prepared>, PullError>)
    requires AllOk(rows)
    ensures r.Success? ==> |r.value| == |rows|
  {
    if rows == [] then Success([])
    else
      var (front, last) := (rows[..|rows| - 1], rows[|rows| - 1]);
      match ResolveAll(front, reverify, trustPeer)
      case Failure(e) => Failure(e)
      case Success(done) =>
        match ResolveInboundProof(last.agent.facts, last, reverify, trustPeer)
        case Failure(e) => Failure(e)
        case Success(proof) => Success(done + [Prepared(last.action.value, last.agent.facts.(proof := proof))])
  }

  /** What one pull decides to write, and the cursor it would return. */
  function Pull(fetch: Fetch, since: int, mode: Mode, reverify: Option<Reverify>, trustPeer: bool)
    : Result<(seq<Prepared>, int), PullError>
  {
    if since < 0 || mode.Unsupported? then Failure(BadArguments)
    else
      match fetch(since)
      case None => Failure(FetchFailed)
      case Some(page) =>
        match CheckPage(mode, since, page)
        case Failure(e) => Failure(e)
        case Success(cursor) =>
          match ResolveAll(page.rows, reverify, trustPeer)
          case Failure(e) => Failure(e)
          case Success(prepared) => Success((prepared, cursor))
  }

  /** A log after recording prepared rows: numbered onward, in order. */
  function Recorded(log: seq<Delta>, prepared: seq<Prepared>): seq<Delta>
  {
    log + seq(|prepared|, i requires 0 <= i < |prepared| =>
      Delta(|log| + i + 1, prepared[i].action, prepared[i].facts))
  }

  method PullDeltas(fetch: Fetch, store: DeltaStore, since: int, mode: Mode, reverify: Option<Reverify>, trustPeer: bool)
    returns (result: Result<PullResult, PullError>)
    requires store.Valid()
    modifies store
    ensures store.Valid()
    ensures match Pull(fetch, since, mode, reverify, trustPeer)
            case Failure(e) => result == Failure(e) && store.deltas == old(store.deltas)
            case Success((prepared, cursor)) =>
              && result == Success(PullResult(|prepared|, cursor))
              && store.deltas == Recorded(old(store.deltas), prepared)
    ensures result.Success? <==>
            && since >= 0 && (mode.Exclusive? || mode.Inclusive?)
            && fetch(since).Some? && fetch(since).value.Page?
            && var page := fetch(since).value;
               && GoodRows(page.rows, mode, since)
               && (mode.Inclusive? ==> page.nextSeq.SeqInt? && IsCursor(page.nextSeq.n, page.rows, mode, since))
               && NoneRaises(page.rows, reverify)
    ensures result.Success? ==>
            && result.value.applied == |fetch(since).value.rows|
            && IsCursor(result.value.cursor, fetch(since).value.rows, mode, since)
  {
    hide GoodRows, IsCursor, NoneRaises;
    PullIs(fetch, since, mode, reverify, trustPeer);
    if since < 0 { return Failure(BadArguments); }
    if mode.Unsupported? { return Failure(BadArguments); }
    var data := fetch(since);
    if data.None? { return Failure(FetchFailed); }
    if data.value.NotPage? { return Failure(BadPage); }
    var cursor := ValidateRows(data.value.rows, mode, since);
    if cursor.Failure? { return Failure(cursor.error); }
    if mode.Inclusive? && data.value.nextSeq != SeqInt(cursor.value) {
      return Failure(BadNextSeq);
    }
    var prepared := PrepareRows(data.value.rows, reverify, trustPeer);
    if prepared.Failure? { return Failure(prepared.error); }
    WriteRows(store, prepared.value);
    return Success(PullResult(|prepared.value|, cursor.value));
  }

  /** The first loop of a pull. */
  method ValidateRows(rows: seq<Row>, mode: Mode, since: int) returns (result: Result<int, PullError>)
    ensures result == if RowsOk(rows, Floor(mode, since)) then Success(CursorAfter(mode, since, rows)) else Failure(BadRow)
    ensures if GoodRows(rows, mode, since) then result.Success? && IsCursor(result.value, rows, mode, since)
            else result == Failure(BadRow)
  {
    hide GoodRows, IsCursor;
    RowsOkIs(rows, mode, since);
    if RowsOk(rows, Floor(mode, since)) {
      CursorIs(rows, mode, since);
    }
    var cursor, previous := since, Floor(mode, since);
    for i := 0 to |rows|
      invariant RowsOk(rows[..i], Floor(mode, since))
      invariant previous == Before(rows, i, Floor(mode, since))
      invariant cursor == CursorAfter(mode, since, rows[..i])
    {
      var row := rows[i];
      if !RowOk(row) || row.seqNo.n <= previous {
        assert rows[i] == row;
        return Failure(BadRow);
      }
      RowsOkExtend(rows, i, Floor(mode, since));
      previous := row.seqNo.n;
      cursor := if mode.Inclusive? then row.seqNo.n + 1 else row.seqNo.n;
    }
    assert rows[..|rows|] == rows;
    return Success(cursor);
  }

  lemma RowsOkExtend(rows: seq<Row>, i: nat, previous: int)
    requires i < |rows| && RowsOk(rows[..i], previous) && RowOk(rows[i])
    requires Before(rows, i, previous) < rows[i].seqNo.n
    ensures RowsOk(rows[..i + 1], previous)
  {
    var longer := rows[..i + 1];
    forall j | 0 <= j <= i ensures RowOk(longer[j]) {
      assert j < i ==> longer[j] == rows[..i][j];
    }
    forall j | 0 <= j <= i ensures Before(longer, j, previous) < longer[j].seqNo.n {
      assert longer[..j] == rows[..j];
      if j < i {
        assert longer[j] == rows[..i][j] && rows[..i][..j] == rows[..j];
        assert j > 0 ==> longer[j - 1] == rows[..i][j - 1];
      }
    }
  }

  /** The second loop: every proof is decided before anything is written. */
  method PrepareRows(rows: seq<Row>, reverify: Option<Reverify>, trustPeer: bool)
    returns (result: Result<seq<Prepared>, PullError>)
    requires AllOk(rows)
    ensures result == ResolveAll(rows, reverify, trustPeer)
  {
    var prepared: seq<Prepared> := [];
    for i := 0 to |rows|
      invariant ResolveAll(rows[..i], reverify, trustPeer) == Success(prepared)
    {
      assert rows[..i + 1][..i] == rows[..i];
      var proof := ResolveInboundProof(rows[i].agent.facts, rows[i], reverify, trustPeer);
      if proof.Failure? {
        ResolveFails(rows, i + 1, reverify, trustPeer);
        return Failure(proof.error);
      }
      prepared := prepared + [Prepared(rows[i].action.value, rows[i].agent.facts.(proof := proof.value))];
    }
    assert rows[..|rows|] == rows;
    return Success(prepared);
  }

  /** The third loop. */
  method WriteRows(store: DeltaStore, prepared: seq<Prepared>)
    requires store.Valid()
    modifies store
    ensures store.Valid() && store.deltas == Recorded(old(store.deltas), prepared)
  {
    ghost var before := store.deltas;
    for i := 0 to |prepared|
      invariant store.Valid() && store.deltas == Recorded(before, prepared[..i])
    {
      var delta := store.Add(prepared[i].action, prepared[i].facts);
      assert Recorded(before, prepared[..i + 1]) == Recorded(before, prepared[..i]) + [delta];
    }
    assert prepared[..|prepared|] == prepared;
  }

  /** A proof that cannot be resolved fails the whole page. */
  lemma {:induction false} ResolveFails(rows: seq<Row>, n: nat, reverify: Option<Reverify>, trustPeer: bool)
    requires n <= |rows| && AllOk(rows)
    requires ResolveAll(rows[..n], reverify, trustPeer).Failure?
    ensures ResolveAll(rows, reverify, trustPeer) == ResolveAll(rows[..n], reverify, trustPeer)
    decreases |rows|
  {
    if n == |rows| {
      assert rows[..n] == rows;
    } else {
      assert rows[..|rows| - 1][..n] == rows[..n];
      ResolveFails(rows[..|rows| - 1], n, reverify, trustPeer);
    }
  }

  class FederationPoller {
    const fetch: Fetch
    const store: DeltaStore
    const mode: Mode
    const reverify: Option<Reverify>
    const trustPeer: bool
    var since: int

    constructor (fetch: Fetch, store: DeltaStore, since: int, mode: Mode, reverify: Option<Reverify>, trustPeer: bool)
      ensures this.fetch == fetch && this.store == store && this.since == since && this.mode == mode
      ensures this.reverify == reverify && this.trustPeer == trustPeer
    {
      this.fetch, this.store, this.since, this.mode := fetch, store, since, mode;
      this.reverify, this.trustPeer := reverify, trustPeer;
    }

    /** One tick: the cursor moves only with a completed pull; a refused one changes nothing. */
    method SyncOnce() returns (result: Result<PullResult, PullError>)
      requires store.Valid()
      modifies this, store
      ensures store.Valid()
      ensures match Pull(fetch, old(since), mode, reverify, trustPeer)
              case Failure(e) => result == Failure(e) && store.deltas == old(store.deltas) && since == old(since)
              case Success((prepared, cursor)) =>
                && result == Success(PullResult(|prepared|, cursor))
                && store.deltas == Recorded(old(store.deltas), prepared) && since == cursor
    {
      result := PullDeltas(fetch, store, since, mode, reverify, trustPeer);
      if result.Success? {
        since := result.value.cursor;
      }
    }
  }

  // ----- guarantees against an arbitrary peer ---------------------------------------------

  /** The peer sequence numbers applied by polling with the given responses, and the final cursor. */
  function Poll(mode: Mode, since: int, responses: seq<Option<Page>>): (r: (seq<int>, int))
  {
    if responses == [] then ([], since)
    else
      var (applied, cursor) := Poll(mode, since, responses[..|responses| - 1]);
      match responses[|responses| - 1]
      case None => (applied, cursor)
      case Some(page) =>
        match CheckPage(mode, cursor, page)
        case Failure(_) => (applied, cursor)
        case Success(next) => (applied + SeqNos(page.rows), next)
  }

  function SeqNos(rows: seq<Row>): seq<int>
    requires AllOk(rows)
  {
    seq(|rows|, i requires 0 <= i < |rows| => rows[i].seqNo.n)
  }

  lemma {:induction false} RowsIncrease(rows: seq<Row>, previous: int, i: nat, j: nat)
    requires RowsOk(rows, previous) && i < j < |rows|
    ensures previous < rows[i].seqNo.n < rows[j].seqNo.n
    decreases j, i
  {
    if i + 1 < j {
      RowsIncrease(rows, previous, i, j - 1);
    } else if i > 0 {
      RowsIncrease(rows, previous, i - 1, i);
    }
  }

  /** Strictly increasing numbers above `low`, ending at `high`; `low == high` when there are none. */
  ghost predicate Climbs(nos: seq<int>, low: int, high: int)
  {
    && (forall i, j :: 0 <= i < j < |nos| ==> nos[i] < nos[j])
    && (nos == [] ==> low == high)
    && (nos != [] ==> low < nos[0] && nos[|nos| - 1] == high)
  }

  lemma ClimbsOn(a: seq<int>, b: seq<int>, low: int, middle: int, high: int)
    requires Climbs(a, low, middle) && Climbs(b, middle, high)
    ensures Climbs(a + b, low, high)
  {
    var all := a + b;
    assert forall i :: 0 <= i < |a| ==> all[i] == a[i] && a[i] <= a[|a| - 1];
    assert forall i :: 0 <= i < |b| ==> all[|a| + i] == b[i] && b[0] <= b[i];
  }

  lemma {:induction false} PageClimbs(mode: Mode, cursor: int, page: Page)
    requires !mode.Unsupported? && CheckPage(mode, cursor, page).Success?
    ensures Climbs(SeqNos(page.rows), Floor(mode, cursor), Floor(mode, CheckPage(mode, cursor, page).value))
  {
    var rows := page.rows;
    if rows != [] {
      assert Before(rows, 0, Floor(mode, cursor)) < rows[0].seqNo.n;
    }
    forall i, j | 0 <= i < j < |rows| ensures SeqNos(rows)[i] < SeqNos(rows)[j] {
      RowsIncrease(rows, Floor(mode, cursor), i, j);
    }
  }

  /** Whatever the peer answers, the applied sequence numbers strictly increase over the whole run, from
      above the first cursor up to exactly the last one; a run that applied nothing kept its cursor. */
  lemma {:induction false} AppliedIncreases(mode: Mode, since: int, responses: seq<Option<Page>>)
    requires !mode.Unsupported?
    ensures var (applied, cursor) := Poll(mode, since, responses);
            Climbs(applied, Floor(mode, since), Floor(mode, cursor))
  {
    hide Climbs, CheckPage;
    if responses == [] {
      NothingClimbs(Floor(mode, since));
    } else {
      var before := responses[..|responses| - 1];
      AppliedIncreases(mode, since, before);
      var (applied, cursor) := Poll(mode, since, before);
      var response := responses[|responses| - 1];
      if response.Some? && CheckPage(mode, cursor, response.value).Success? {
        AcceptedRowsOk(mode, cursor, response.value);
        PageClimbs(mode, cursor, response.value);
        ClimbsOn(applied, SeqNos(response.value.rows), Floor(mode, since), Floor(mode, cursor),
                 Floor(mode, CheckPage(mode, cursor, response.value).value));
      }
    }
  }

  lemma NothingClimbs(at: int)
    ensures Climbs([], at, at)
  {
  }

  lemma AcceptedRowsOk(mode: Mode, cursor: int, page: Page)
    requires CheckPage(mode, cursor, page).Success?
    ensures page.Page? && AllOk(page.rows)
  {
  }

  function OpinionOn(row: Row, reverify: Option<Reverify>): Opinion
    requires RowOk(row)
  {
    if reverify.Some? then reverify.value(row.agent.facts, row) else NoOpinion
  }

  /** No claim of a peer becomes a verification of ours. A page is prepared exactly when no re-verification
      raises, with actions and facts kept; a row carries the local re-verifier's proof if it gave one, else
      the peer's own claim only if the operator trusts the peer. */
  lemma {:induction false} NoLaundering(rows: seq<Row>, reverify: Option<Reverify>, trustPeer: bool)
    requires AllOk(rows)
    ensures ResolveAll(rows, reverify, trustPeer).Success?
            <==> forall i {:trigger rows[i]} :: 0 <= i < |rows| ==> OpinionOn(rows[i], reverify) != Raised
    ensures var result := ResolveAll(rows, reverify, trustPeer);
            result.Success? ==>
              forall i {:trigger rows[i]} :: 0 <= i < |rows| ==>
                var (done, claim, opinion) := (result.value[i], rows[i].agent.facts, OpinionOn(rows[i], reverify));
                && done.action == rows[i].action.value
                && Erase(done.facts) == Erase(claim)
                && (opinion.Opinion? ==> done.facts.proof == Some(opinion.proof))
                && (opinion.NoOpinion? && trustPeer ==> done.facts.proof == claim.proof)
                && (opinion.NoOpinion? && !trustPeer ==>
                      done.facts.proof == Some(Proof("federation", "federation-ingest", NOT_VERIFIED, None,
                        Some("proof asserted by a federated peer; not re-verified by this registry"))))
  {
    if rows != [] {
      var front := rows[..|rows| - 1];
      NoLaundering(front, reverify, trustPeer);
      assert forall i {:trigger rows[i]} :: 0 <= i < |front| ==> front[i] == rows[i];
      assert forall i {:trigger front[i]} :: 0 <= i < |front| ==> rows[i] == front[i];
    }
  }
}
