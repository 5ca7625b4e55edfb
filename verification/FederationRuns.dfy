/**
 The federation protocol over whole runs: a peer that appends at any time, the router's two separately
 locked reads, a response that may be lost or refused, rows written one by one, and the cursor moved last.
 One poller has at most one pull in flight.
 */
module FederationRuns {
  import opened Wrappers
  import opened AgentFacts
  import opened DeltaStores
  import opened Gateway
  import opened Federation

  datatype Phase =
    | Idle
    | RowsRead(rows: seq<Delta>)
    | Answered(page: Page)
    | Writing(todo: seq<Prepared>, target: int)

  datatype State = State(peer: seq<Delta>, sink: seq<Delta>, cursor: int, phase: Phase)

  datatype Config = Config(mode: Mode, reverify: Option<Reverify>, trustPeer: bool)

  datatype Step =
    | PeerAppend(action: string, facts: Facts)
    | ReadRows(count: nat)
    | ReadNextSeq
    | Lose
    | Refuse(page: Page)
    | Accept
    | WriteRow
    | Commit
    | WriteFails(landed: bool)

  /** How many of the peer's deltas a cursor covers. */
  function Covered(mode: Mode, cursor: int): int
  {
    if mode.Inclusive? && cursor > 0 then cursor - 1 else cursor
  }

  function ToRow(d: Delta): Row
  {
    Row(SeqInt(d.seqNo), Some(d.action), WellFormed(d.agent))
  }

  function ToRows(rows: seq<Delta>): (r: seq<Row>)
    ensures |r| == |rows| && forall i :: 0 <= i < |rows| ==> r[i] == ToRow(rows[i])
  {
    seq(|rows|, i requires 0 <= i < |rows| => ToRow(rows[i]))
  }

  /** The peer's next_seq: an exclusive peer reads its counter, an inclusive one names the row after the page. */
  function PeerNextSeq(cfg: Config, s: State, rows: seq<Delta>): int
  {
    if cfg.mode.Inclusive? then if rows == [] then s.cursor else rows[|rows| - 1].seqNo + 1
    else |s.peer| + 1
  }

  function Accepted(cfg: Config, cursor: int, page: Page): Option<(seq<Prepared>, int)>
  {
    match CheckPage(cfg.mode, cursor, page)
    case Failure(_) => None
    case Success(next) =>
      match ResolveAll(page.rows, cfg.reverify, cfg.trustPeer)
      case Failure(_) => None
      case Success(prepared) => Some((prepared, next))
  }

  ghost predicate Next(cfg: Config, s: State, s': State, step: Step)
  {
    match step
    case PeerAppend(action, facts) =>
      s' == s.(peer := s.peer + [Delta(|s.peer| + 1, action, facts)])
    case ReadRows(count) =>
      // The peer's `since`, or the first `count` rows of it.
      && s.phase.Idle?
      && count <= |TailFrom(s.peer, Covered(cfg.mode, s.cursor))|
      && s' == s.(phase := RowsRead(TailFrom(s.peer, Covered(cfg.mode, s.cursor))[..count]))
    case ReadNextSeq =>
      && s.phase.RowsRead?
      && s' == s.(phase := Answered(Page(ToRows(s.phase.rows), SeqInt(PeerNextSeq(cfg, s, s.phase.rows)))))
    case Lose =>
      !s.phase.Writing? && s' == s.(phase := Idle)
    case Refuse(page) =>
      s.phase.Answered? && Accepted(cfg, s.cursor, page).None? && s' == s.(phase := Idle)
    case Accept =>
      && s.phase.Answered?
      && Accepted(cfg, s.cursor, s.phase.page).Some?
      && var (todo, target) := Accepted(cfg, s.cursor, s.phase.page).value;
         s' == s.(phase := Writing(todo, target))
    case WriteRow =>
      && s.phase.Writing? && s.phase.todo != []
      && s' == s.(sink := Recorded(s.sink, s.phase.todo[..1]), phase := s.phase.(todo := s.phase.todo[1..]))
    case Commit =>
      s.phase.Writing? && s.phase.todo == [] && s' == s.(cursor := s.phase.target, phase := Idle)
    case WriteFails(landed) =>
      // `PersistentDeltaStore.add` may raise before the row reaches memory, or after.
      && s.phase.Writing? && s.phase.todo != []
      && s' == s.(sink := if landed then Recorded(s.sink, s.phase.todo[..1]) else s.sink, phase := Idle)
  }

  /** Two stores in any state, any cursor the poller accepts, and no pull in flight. */
  ghost predicate Init(s: State)
  {
    Sequenced(s.sink) && s.cursor >= 0 && s.phase == Idle && Sequenced(s.peer)
  }

  ghost predicate IsPath(cfg: Config, states: seq<State>, steps: seq<Step>)
  {
    && |states| == |steps| + 1
    && forall i :: 0 <= i < |steps| ==> Next(cfg, states[i], states[i + 1], steps[i])
  }

  ghost predicate IsRun(cfg: Config, states: seq<State>, steps: seq<Step>)
  {
    !cfg.mode.Unsupported? && IsPath(cfg, states, steps) && Init(states[0])
  }

  // ----- exactly once ---------------------------------------------------------------------

  /** What a delta says, without the number and the proof that each registry gives it for itself. */
  datatype Change = Change(action: string, facts: Facts)

  function ChangeOf(d: Delta): Change
  {
    Change(d.action, Erase(d.agent))
  }

  function Changes(log: seq<Delta>): (r: seq<Change>)
    ensures |r| == |log| && forall i :: 0 <= i < |log| ==> r[i] == ChangeOf(log[i])
  {
    seq(|log|, i requires 0 <= i < |log| => ChangeOf(log[i]))
  }

  /** The peer's deltas after `from` up to `end`; none if `from` is past the end of its log. */
  function Between(peer: seq<Delta>, from: int, end: int): seq<Delta>
  {
    if 0 <= from <= end <= |peer| then peer[from..end] else []
  }

  /** Prepared rows are the peer's deltas `from..`, proofs aside. */
  ghost predicate Matches(peer: seq<Delta>, from: int, todo: seq<Prepared>)
  {
    && (todo != [] ==> 0 <= from <= |peer| - |todo|)
    && forall i {:trigger todo[i]} :: 0 <= i < |todo| ==>
         todo[i].action == peer[from + i].action && Erase(todo[i].facts) == Erase(peer[from + i].agent)
  }

  /** The rows a page carries are the peer's deltas right after the cursor. */
  ghost predicate Serves(peer: seq<Delta>, from: int, rows: seq<Delta>)
  {
    rows <= TailFrom(peer, from)
  }

  /** What each phase of a pull holds, in every run, failing writes included. `done` is the number of the
      peer's deltas the pull has gone through; a cursor that was past the end of the peer's log at the
      start stays where it is until the log has grown past it. */
  ghost predicate PhaseOk(cfg: Config, s: State, start: int, done: int)
  {
    var from := Covered(cfg.mode, s.cursor);
    && 0 <= start <= from <= done && s.cursor >= 0 && (done <= |s.peer| || done == start)
    && match s.phase
       case Idle => done == from
       case RowsRead(rows) => done == from && Serves(s.peer, from, rows)
       case Answered(page) =>
         && done == from
         && page.Page?
         && exists rows :: Serves(s.peer, from, rows) && page.rows == ToRows(rows)
       case Writing(todo, target) =>
         0 <= target && Matches(s.peer, done, todo) && Covered(cfg.mode, target) == done + |todo|
  }

  /** The sink holds what it held before, one row for each delta gone through, and `wasted` more; with none
      wasted, just the peer's deltas in order. */
  ghost predicate Accounted(cfg: Config, s: State, before: seq<Delta>, start: int, done: int, wasted: int)
  {
    && Sequenced(s.peer) && PhaseOk(cfg, s, start, done)
    && Sequenced(s.sink) && before <= s.sink
    && wasted >= 0 && |s.sink| == |before| + (done - start) + wasted
    && (wasted == 0 ==> Changes(s.sink) == Changes(before) + Changes(Between(s.peer, start, done)))
  }

  lemma {:induction false} ResolveMatches(rows: seq<Row>, reverify: Option<Reverify>, trustPeer: bool)
    requires AllOk(rows) && ResolveAll(rows, reverify, trustPeer).Success?
    ensures var todo := ResolveAll(rows, reverify, trustPeer).value;
            forall i {:trigger todo[i]} :: 0 <= i < |rows| ==>
              todo[i].action == rows[i].action.value && Erase(todo[i].facts) == Erase(rows[i].agent.facts)
  {
    if rows != [] {
      ResolveMatches(rows[..|rows| - 1], reverify, trustPeer);
    }
  }

  lemma ServedAre(peer: seq<Delta>, from: int, rows: seq<Delta>)
    requires from >= 0 && Serves(peer, from, rows)
    ensures rows != [] ==> from <= |peer| - |rows|
    ensures forall i :: 0 <= i < |rows| ==> rows[i] == peer[from + i]
  {
    var tail := TailFrom(peer, from);
    assert forall i :: 0 <= i < |rows| ==> rows[i] == tail[i];
  }

  /** An accepted page of an honest peer is prepared as the peer's next deltas. */
  lemma {:induction false} AcceptMatches(cfg: Config, s: State, page: Page)
    requires !cfg.mode.Unsupported? && Sequenced(s.peer) && s.cursor >= 0
    requires page.Page? && exists rows :: Serves(s.peer, Covered(cfg.mode, s.cursor), rows) && page.rows == ToRows(rows)
    requires Accepted(cfg, s.cursor, page).Some?
    ensures var ((todo, target), from) := (Accepted(cfg, s.cursor, page).value, Covered(cfg.mode, s.cursor));
            && target >= 0 && Matches(s.peer, from, todo) && Covered(cfg.mode, target) == from + |todo|
            && |todo| == |page.rows|
  {
    hide ResolveAll, RowsOk, Serves;
    var from := Covered(cfg.mode, s.cursor);
    var rows :| Serves(s.peer, from, rows) && page.rows == ToRows(rows);
    ServedAre(s.peer, from, rows);
    AcceptedRowsOk(cfg.mode, s.cursor, page);
    ResolveMatches(page.rows, cfg.reverify, cfg.trustPeer);
    var (todo, target) := Accepted(cfg, s.cursor, page).value;
    forall i {:trigger todo[i]} | 0 <= i < |todo|
      ensures todo[i].action == s.peer[from + i].action && Erase(todo[i].facts) == Erase(s.peer[from + i].agent)
    {
      assert page.rows[i] == ToRow(s.peer[from + i]);
    }
    if rows != [] {
      assert page.rows[|rows| - 1] == ToRow(s.peer[from + |rows| - 1]);
    }
  }

  lemma TailKeepsPrefix(peer: seq<Delta>, d: Delta, from: int, rows: seq<Delta>)
    requires Serves(peer, from, rows)
    ensures Serves(peer + [d], from, rows)
  {
    hide TailFrom;
    TailGrows(peer, from, d);
  }

  /** The phases of a pull stay in order under every step. */
  lemma {:induction false} PhaseStep(cfg: Config, s: State, s': State, step: Step, start: int, done: int) returns (done': int)
    requires !cfg.mode.Unsupported? && Sequenced(s.peer) && PhaseOk(cfg, s, start, done)
    requires Next(cfg, s, s', step)
    ensures Sequenced(s'.peer) && PhaseOk(cfg, s', start, done')
    ensures done' == match step
                     case WriteRow => done + 1
                     case WriteFails(_) => Covered(cfg.mode, s.cursor)
                     case _ => done
  {
    hide TailFrom, Serves;
    done' := done;
    match step
    case PeerAppend(action, facts) =>
      forall rows | Serves(s.peer, Covered(cfg.mode, s.cursor), rows)
        ensures Serves(s'.peer, Covered(cfg.mode, s.cursor), rows)
      {
        TailKeepsPrefix(s.peer, Delta(|s.peer| + 1, action, facts), Covered(cfg.mode, s.cursor), rows);
      }
    case ReadRows(count) =>
      FirstRowsServed(s.peer, Covered(cfg.mode, s.cursor), count);
    case ReadNextSeq =>
      assert Serves(s.peer, Covered(cfg.mode, s.cursor), s.phase.rows);
    case Accept =>
      AcceptMatches(cfg, s, s.phase.page);
    case WriteRow =>
      done' := done + 1;
    case WriteFails(_) =>
      done' := Covered(cfg.mode, s.cursor);
    case _ =>
  }

  lemma FirstRowsServed(peer: seq<Delta>, from: int, count: nat)
    requires count <= |TailFrom(peer, from)|
    ensures Serves(peer, from, TailFrom(peer, from)[..count])
  {
  }

  lemma BetweenGrows(peer: seq<Delta>, from: int, end: int)
    requires 0 <= from <= end < |peer|
    ensures Between(peer, from, end + 1) == Between(peer, from, end) + [peer[end]]
  {
  }

  lemma BetweenKept(peer: seq<Delta>, more: seq<Delta>, from: int, end: int)
    requires end <= |peer| || end == from
    ensures Between(peer + more, from, end) == Between(peer, from, end)
  {
  }

  /** What a step adds to the waste: the rows a dying pull has written since the cursor. */
  function Waste(cfg: Config, s: State, step: Step): int
  {
    if step.WriteFails? then Done(cfg, s) - Covered(cfg.mode, s.cursor) + if step.landed then 1 else 0 else 0
  }

  /** How many rows pulls that died have written over the first `n` steps. */
  function Wasted(cfg: Config, states: seq<State>, steps: seq<Step>, n: nat): int
    requires n <= |steps| <= |states|
  {
    if n == 0 then 0 else Wasted(cfg, states, steps, n - 1) + Waste(cfg, states[n - 1], steps[n - 1])
  }

  lemma {:induction false} AccountedStep(cfg: Config, s: State, s': State, step: Step, before: seq<Delta>, start: int, wasted: int)
    requires !cfg.mode.Unsupported? && Accounted(cfg, s, before, start, Done(cfg, s), wasted)
    requires Next(cfg, s, s', step)
    ensures Accounted(cfg, s', before, start, Done(cfg, s'), wasted + Waste(cfg, s, step))
  {
    hide Between, PhaseOk, Done;
    var done := Done(cfg, s);
    var done' := PhaseStep(cfg, s, s', step, start, done);
    DoneIsPhase(cfg, s', start, done');
    RangeOk(cfg, s, start, done);
    match step
    case PeerAppend(action, facts) =>
      BetweenKept(s.peer, [Delta(|s.peer| + 1, action, facts)], start, done);
    case WriteRow =>
      var row := s.phase.todo[0];
      NextRowIs(cfg, s, start, done);
      assert s'.sink == s.sink + [Delta(|s.sink| + 1, row.action, row.facts)];
      BetweenGrows(s.peer, start, done);
      assert Changes(s'.sink) == Changes(s.sink) + [ChangeOf(s.peer[done])];
      assert Changes(Between(s.peer, start, done + 1)) == Changes(Between(s.peer, start, done)) + [ChangeOf(s.peer[done])];
    case WriteFails(landed) =>
      CursorBehind(cfg, s, start, done);
      if landed {
        var row := s.phase.todo[0];
        assert s'.sink == s.sink + [Delta(|s.sink| + 1, row.action, row.facts)];
      }
    case _ =>
  }

  lemma DoneIsPhase(cfg: Config, s: State, start: int, done: int)
    requires PhaseOk(cfg, s, start, done)
    ensures done == Done(cfg, s)
  {
    hide Matches, Serves;
  }

  lemma RangeOk(cfg: Config, s: State, start: int, done: int)
    requires PhaseOk(cfg, s, start, done)
    ensures 0 <= start <= done && (done <= |s.peer| || done == start)
  {
  }

  /** A row that is about to be written is the peer's next delta. */
  lemma NextRowIs(cfg: Config, s: State, start: int, done: int)
    requires PhaseOk(cfg, s, start, done) && s.phase.Writing? && s.phase.todo != []
    ensures start <= done < |s.peer|
    ensures s.phase.todo[0].action == s.peer[done].action && Erase(s.phase.todo[0].facts) == Erase(s.peer[done].agent)
  {
  }

  lemma {:induction false} AccountedUpTo(cfg: Config, states: seq<State>, steps: seq<Step>, n: nat)
    requires IsRun(cfg, states, steps) && n <= |steps|
    ensures Accounted(cfg, states[n], states[0].sink, Covered(cfg.mode, states[0].cursor), Done(cfg, states[n]),
                      Wasted(cfg, states, steps, n))
  {
    hide Accounted, Next;
    if n == 0 {
      AccountedAtStart(cfg, states[0]);
    } else {
      AccountedUpTo(cfg, states, steps, n - 1);
      assert Next(cfg, states[n - 1], states[n - 1 + 1], steps[n - 1]);
      AccountedStep(cfg, states[n - 1], states[n], steps[n - 1], states[0].sink, Covered(cfg.mode, states[0].cursor),
                    Wasted(cfg, states, steps, n - 1));
    }
  }

  lemma AccountedAtStart(cfg: Config, s: State)
    requires Init(s)
    ensures Accounted(cfg, s, s.sink, Covered(cfg.mode, s.cursor), Done(cfg, s), 0)
  {
  }

  /** Exactly-once federation. In every run, between pulls, the sink has grown by the peer's deltas from the
      first cursor to the current one and by the rows that dying pulls left. It is its first log followed by
      those deltas, each once and in order, under its own numbers and proofs aside, exactly when they left
      none. */
  lemma {:induction false} ExactlyOnceFederation(cfg: Config, states: seq<State>, steps: seq<Step>, n: nat)
    requires IsRun(cfg, states, steps) && n <= |steps|
    requires states[n].phase.Idle?
    ensures var (s0, s, wasted) := (states[0], states[n], Wasted(cfg, states, steps, n));
            var (start, end) := (Covered(cfg.mode, s0.cursor), Covered(cfg.mode, s.cursor));
            && start <= end && (end <= |s.peer| || end == start)
            && Sequenced(s.sink) && s0.sink <= s.sink
            && wasted >= 0 && |s.sink| == |s0.sink| + (end - start) + wasted
            && (Changes(s.sink) == Changes(s0.sink) + Changes(Between(s.peer, start, end)) <==> wasted == 0)
  {
    AccountedUpTo(cfg, states, steps, n);
    var (s0, s) := (states[0], states[n]);
    assert |Between(s.peer, Covered(cfg.mode, s0.cursor), Covered(cfg.mode, s.cursor))|
        == Covered(cfg.mode, s.cursor) - Covered(cfg.mode, s0.cursor);
    if Changes(s.sink) == Changes(s0.sink) + Changes(Between(s.peer, Covered(cfg.mode, s0.cursor), Covered(cfg.mode, s.cursor))) {
      assert |Changes(s.sink)| == |s.sink|;
    }
  }

  /** While no write has failed nothing is wasted. */
  lemma {:induction false} NoFailureNoWaste(cfg: Config, states: seq<State>, steps: seq<Step>, n: nat)
    requires n <= |steps| <= |states| && forall i :: 0 <= i < n ==> !steps[i].WriteFails?
    ensures Wasted(cfg, states, steps, n) == 0
  {
    if n > 0 {
      NoFailureNoWaste(cfg, states, steps, n - 1);
    }
  }

  /** A sink that starts empty from the beginning of the peer's log is, up to the cursor, that log. */
  lemma {:induction false} FreshSinkIsPeer(cfg: Config, states: seq<State>, steps: seq<Step>, n: nat)
    requires IsRun(cfg, states, steps) && n <= |steps| && states[0].sink == [] && states[0].cursor == 0
    requires Wasted(cfg, states, steps, n) == 0
    requires states[n].phase.Idle?
    ensures var (s, end) := (states[n], Covered(cfg.mode, states[n].cursor));
            && end == |s.sink| <= |s.peer|
            && forall i :: 0 <= i < end ==>
                 s.sink[i].seqNo == s.peer[i].seqNo && ChangeOf(s.sink[i]) == ChangeOf(s.peer[i])
  {
    hide Between, Sequenced, Wasted, Changes;
    ExactlyOnceFederation(cfg, states, steps, n);
    PeerStaysSequenced(cfg, states, steps, n);
    NoChanges();
    var (s, end) := (states[n], Covered(cfg.mode, states[n].cursor));
    assert Changes(s.sink) == Changes(Between(s.peer, 0, end));
    SameChanges(s.sink, s.peer, end);
  }

  lemma NoChanges()
    ensures Changes([]) == []
  {
  }

  lemma SameChanges(sink: seq<Delta>, peer: seq<Delta>, end: int)
    requires Sequenced(sink) && Sequenced(peer) && 0 <= end && (end <= |peer| || end == 0)
    requires Changes(sink) == Changes(Between(peer, 0, end))
    ensures end == |sink| <= |peer|
    ensures forall i :: 0 <= i < end ==> sink[i].seqNo == peer[i].seqNo && ChangeOf(sink[i]) == ChangeOf(peer[i])
  {
    assert |Changes(sink)| == |Changes(Between(peer, 0, end))|;
    forall i | 0 <= i < end ensures ChangeOf(sink[i]) == ChangeOf(peer[i]) {
      assert Changes(sink)[i] == Changes(Between(peer, 0, end))[i];
    }
  }

  lemma {:induction false} PeerStaysSequenced(cfg: Config, states: seq<State>, steps: seq<Step>, n: nat)
    requires IsRun(cfg, states, steps) && n <= |steps|
    ensures Sequenced(states[n].peer)
  {
    if n > 0 {
      PeerStaysSequenced(cfg, states, steps, n - 1);
      assert Next(cfg, states[n - 1], states[n - 1 + 1], steps[n - 1]);
    }
  }

  // ----- convergence despite failing writes -----------------------------------------------

  /** What a registry with this log shows under a slug, proofs aside. */
  function Shown(log: seq<Delta>, slugOf: SlugOf, slug: string): Option<Facts>
  {
    var last := LastFor(log, slugOf, slug);
    if Shows(last) then Some(Erase(last.value.agent)) else None
  }

  /** No delta of `log[from..end]` is recorded under `slug`. */
  ghost predicate Untouched(log: seq<Delta>, from: nat, end: nat, slugOf: SlugOf, slug: string)
    requires end <= |log|
  {
    forall i :: from <= i < end ==> slugOf(log[i].agent) != slug
  }

  ghost predicate IgnoresProof(slugOf: SlugOf)
  {
    forall f: Facts, p: Option<Proof> :: slugOf(f.(proof := p)) == slugOf(f)
  }

  /** The sink shows what it would after its own deltas and the peer's from `start` to `done`, except perhaps
      under slugs of deltas from `done` to `reached`, the furthest one any attempt has written. */
  ghost predicate Agrees(peer: seq<Delta>, sink: seq<Delta>, before: seq<Delta>, start: int, done: int, reached: nat,
                         slugOf: SlugOf)
    requires done >= 0 && reached <= |peer|
  {
    forall slug :: Untouched(peer, done, reached, slugOf, slug) ==>
      Shown(sink, slugOf, slug) == Shown(before + Between(peer, start, done), slugOf, slug)
  }

  ghost predicate HasSource(known: seq<Delta>, d: Delta)
  {
    exists source :: source in known && Erase(source.agent) == Erase(d.agent)
  }

  /** Every row in the sink came from one of the known deltas, proofs aside. */
  ghost predicate Sourced(known: seq<Delta>, sink: seq<Delta>)
  {
    Sequenced(sink) && forall d <- sink :: HasSource(known, d)
  }

  ghost predicate Converging(cfg: Config, s: State, before: seq<Delta>, start: int, done: int, reached: nat,
                             slugOf: SlugOf)
  {
    && Sequenced(s.peer) && PhaseOk(cfg, s, start, done) && done >= 0
    && reached <= |s.peer|
    && Agrees(s.peer, s.sink, before, start, done, reached, slugOf)
    && Sourced(before + s.peer, s.sink)
  }

  lemma ErasedSlug(slugOf: SlugOf, f: Facts, g: Facts)
    requires IgnoresProof(slugOf) && Erase(f) == Erase(g)
    ensures slugOf(f) == slugOf(g)
  {
    assert f == g.(proof := f.proof);
  }

  lemma ShownAppend(log: seq<Delta>, d: Delta, slugOf: SlugOf, slug: string)
    ensures Shown(log + [d], slugOf, slug) ==
            if slugOf(d.agent) == slug then if d.action == "upsert" then Some(Erase(d.agent)) else None
            else Shown(log, slugOf, slug)
  {
    assert (log + [d])[..|log|] == log;
  }

  /** Writing the next row brings the sink one delta further along. */
  lemma {:induction false} WriteAgrees(s: State, before: seq<Delta>, start: int, row: Prepared, done: nat, reached: nat, slugOf: SlugOf)
    requires IgnoresProof(slugOf) && 0 <= start <= done < |s.peer| && reached <= |s.peer|
    requires Agrees(s.peer, s.sink, before, start, done, reached, slugOf) && Sourced(before + s.peer, s.sink)
    requires row.action == s.peer[done].action && Erase(row.facts) == Erase(s.peer[done].agent)
    ensures var sink := s.sink + [Delta(|s.sink| + 1, row.action, row.facts)];
            Agrees(s.peer, sink, before, start, done + 1, reached, slugOf) && Sourced(before + s.peer, sink)
  {
    hide Shown, Between;
    var d := Delta(|s.sink| + 1, row.action, row.facts);
    ErasedSlug(slugOf, row.facts, s.peer[done].agent);
    BetweenGrows(s.peer, start, done);
    var base := before + Between(s.peer, start, done);
    assert before + Between(s.peer, start, done + 1) == base + [s.peer[done]];
    forall slug | Untouched(s.peer, done + 1, reached, slugOf, slug)
      ensures Shown(s.sink + [d], slugOf, slug) == Shown(base + [s.peer[done]], slugOf, slug)
    {
      ShownAppend(s.sink, d, slugOf, slug);
      ShownAppend(base, s.peer[done], slugOf, slug);
      if slugOf(row.facts) != slug {
        assert Untouched(s.peer, done, reached, slugOf, slug);
      }
    }
    assert (before + s.peer)[|before| + done] == s.peer[done];
    assert HasSource(before + s.peer, d);
  }

  lemma {:induction false} UntouchedShown(peer: seq<Delta>, before: seq<Delta>, start: int, from: nat, end: nat,
                                          slugOf: SlugOf, slug: string)
    requires 0 <= start <= from <= end <= |peer| && Untouched(peer, from, end, slugOf, slug)
    ensures Shown(before + Between(peer, start, end), slugOf, slug)
         == Shown(before + Between(peer, start, from), slugOf, slug)
    decreases end
  {
    hide Shown, Between;
    if end > from {
      BetweenGrows(peer, start, end - 1);
      var base := before + Between(peer, start, end - 1);
      assert before + Between(peer, start, end) == base + [peer[end - 1]];
      ShownAppend(base, peer[end - 1], slugOf, slug);
      UntouchedShown(peer, before, start, from, end - 1, slugOf, slug);
    }
  }

  /** A pull that dies falls back to the old cursor; what it wrote stays inside the reached range. */
  lemma {:induction false} FallBack(peer: seq<Delta>, sink: seq<Delta>, before: seq<Delta>, start: int, from: nat, done: nat, reached: nat,
                 slugOf: SlugOf)
    requires 0 <= start <= from <= done <= |peer| && reached <= |peer|
    requires Agrees(peer, sink, before, start, done, reached, slugOf)
    ensures Agrees(peer, sink, before, start, from, Max(reached, done), slugOf)
  {
    hide Shown;
    forall slug | Untouched(peer, from, Max(reached, done), slugOf, slug)
      ensures Shown(sink, slugOf, slug) == Shown(before + Between(peer, start, from), slugOf, slug)
    {
      assert Untouched(peer, from, done, slugOf, slug) && Untouched(peer, done, reached, slugOf, slug);
      UntouchedShown(peer, before, start, from, done, slugOf, slug);
    }
  }

  lemma {:induction false} ConvergingStep(cfg: Config, s: State, s': State, step: Step, before: seq<Delta>, start: int, done: int,
                       reached: nat, slugOf: SlugOf)
    returns (done': int, reached': nat)
    requires !cfg.mode.Unsupported? && IgnoresProof(slugOf)
    requires Converging(cfg, s, before, start, done, reached, slugOf) && Next(cfg, s, s', step)
    ensures Converging(cfg, s', before, start, done', reached', slugOf)
    ensures reached' == if step.WriteFails? then Max(reached, done + if step.landed then 1 else 0) else reached
    ensures done' == match step
                     case WriteRow => done + 1
                     case WriteFails(_) => Covered(cfg.mode, s.cursor)
                     case _ => done
  {
    hide PhaseOk, Agrees, Sourced, IgnoresProof;
    done' := PhaseStep(cfg, s, s', step, start, done);
    RangeOk(cfg, s, start, done);
    RangeOk(cfg, s', start, done');
    reached' := reached;
    match step
    case PeerAppend(action, facts) =>
      PeerGrows(s.peer, Delta(|s.peer| + 1, action, facts), s.sink, before, start, done, reached, slugOf);
    case WriteRow =>
      NextRowIs(cfg, s, start, done);
      WriteAgrees(s, before, start, s.phase.todo[0], done, reached, slugOf);
      assert s'.sink == s.sink + [Delta(|s.sink| + 1, s.phase.todo[0].action, s.phase.todo[0].facts)];
    case WriteFails(landed) =>
      NextRowIs(cfg, s, start, done);
      CursorBehind(cfg, s, start, done);
      if landed {
        WriteAgrees(s, before, start, s.phase.todo[0], done, reached, slugOf);
        assert s'.sink == s.sink + [Delta(|s.sink| + 1, s.phase.todo[0].action, s.phase.todo[0].facts)];
      }
      var written := done + if landed then 1 else 0;
      reached' := Max(reached, written);
      FallBack(s.peer, s'.sink, before, start, done', written, reached, slugOf);
    case _ =>
  }

  lemma CursorBehind(cfg: Config, s: State, start: int, done: int)
    requires PhaseOk(cfg, s, start, done)
    ensures start <= Covered(cfg.mode, s.cursor) <= done
  {
  }

  function Max(a: nat, b: nat): nat
  {
    if a < b then b else a
  }

  lemma PeerGrows(peer: seq<Delta>, d: Delta, sink: seq<Delta>, before: seq<Delta>, start: int, done: int, reached: nat,
                  slugOf: SlugOf)
    requires done >= 0 && (done <= |peer| || done == start) && reached <= |peer|
    requires Agrees(peer, sink, before, start, done, reached, slugOf) && Sourced(before + peer, sink)
    ensures Agrees(peer + [d], sink, before, start, done, reached, slugOf) && Sourced(before + (peer + [d]), sink)
  {
    hide Shown, Between;
    BetweenKept(peer, [d], start, done);
    forall slug | Untouched(peer + [d], done, reached, slugOf, slug)
      ensures Untouched(peer, done, reached, slugOf, slug)
    {
      forall i | done <= i < reached ensures slugOf(peer[i].agent) != slug {
        assert (peer + [d])[i] == peer[i];
      }
    }
    assert before + (peer + [d]) == (before + peer) + [d];
    forall e | e in sink ensures HasSource(before + (peer + [d]), e) {
      assert HasSource(before + peer, e);
      var source :| source in before + peer && Erase(source.agent) == Erase(e.agent);
      assert source in before + (peer + [d]);
    }
  }

  /** How many of the peer's deltas the pull in flight has gone through. */
  function Done(cfg: Config, s: State): int
  {
    if s.phase.Writing? then Covered(cfg.mode, s.phase.target) - |s.phase.todo| else Covered(cfg.mode, s.cursor)
  }

  /** The furthest delta that a pull which died had written, over the first `n` steps. */
  function Reached(cfg: Config, states: seq<State>, steps: seq<Step>, n: nat): (r: nat)
    requires n <= |steps| <= |states|
  {
    if n == 0 then 0
    else
      var (before, step) := (Reached(cfg, states, steps, n - 1), steps[n - 1]);
      if !step.WriteFails? then before
      else
        var written := Done(cfg, states[n - 1]) + if step.landed then 1 else 0;
        if before < written then written else before
  }

  lemma {:induction false} ConvergingUpTo(cfg: Config, states: seq<State>, steps: seq<Step>, n: nat, slugOf: SlugOf)
    requires IsRun(cfg, states, steps) && n <= |steps| && IgnoresProof(slugOf)
    ensures Done(cfg, states[n]) >= 0
    ensures Converging(cfg, states[n], states[0].sink, Covered(cfg.mode, states[0].cursor), Done(cfg, states[n]),
                       Reached(cfg, states, steps, n), slugOf)
  {
    hide Converging, Next;
    if n == 0 {
      ConvergingAtStart(cfg, states[0], slugOf);
    } else {
      ConvergingUpTo(cfg, states, steps, n - 1, slugOf);
      var s, s', step := states[n - 1], states[n - 1 + 1], steps[n - 1];
      assert Next(cfg, s, s', step);
      var done, reached := ConvergingStep(cfg, s, s', step, states[0].sink, Covered(cfg.mode, states[0].cursor),
                                          Done(cfg, s), Reached(cfg, states, steps, n - 1), slugOf);
      DoneIs(cfg, s', states[0].sink, Covered(cfg.mode, states[0].cursor), done, reached, slugOf);
    }
  }

  lemma {:induction false} ConvergingAtStart(cfg: Config, s: State, slugOf: SlugOf)
    requires Init(s)
    ensures Done(cfg, s) >= 0
    ensures Converging(cfg, s, s.sink, Covered(cfg.mode, s.cursor), Done(cfg, s), 0, slugOf)
  {
    var start := Covered(cfg.mode, s.cursor);
    assert s.sink + Between(s.peer, start, start) == s.sink;
    forall d | d in s.sink ensures HasSource(s.sink + s.peer, d) {
      assert d in s.sink + s.peer;
    }
  }

  lemma DoneIs(cfg: Config, s: State, before: seq<Delta>, start: int, done: int, reached: nat, slugOf: SlugOf)
    requires Converging(cfg, s, before, start, done, reached, slugOf)
    ensures done == Done(cfg, s) >= 0
  {
    hide Agrees, Sourced, Matches, Serves;
  }

  function EraseAll(c: Catalog): Catalog
  {
    map slug | slug in c :: Erase(c[slug])
  }

  lemma ShownIsReplay(log: seq<Delta>, slugOf: SlugOf, slug: string)
    ensures var shown := EraseAll(Replay(log, slugOf));
            Shown(log, slugOf, slug) == if slug in shown then Some(shown[slug]) else None
  {
    ReplayAt(log, slugOf, slug);
  }

  lemma StableSlugs(known: seq<Delta>, sink: seq<Delta>, slugOf: SlugOf)
    requires IgnoresProof(slugOf) && SlugsStable(known, slugOf) && Sourced(known, sink)
    ensures SlugsStable(sink, slugOf)
  {
    forall d, e | d in sink && e in sink && d.agent.id == e.agent.id
      ensures slugOf(d.agent) == slugOf(e.agent)
    {
      assert HasSource(known, d) && HasSource(known, e);
      var d' :| d' in known && Erase(d'.agent) == Erase(d.agent);
      var e' :| e' in known && Erase(e'.agent) == Erase(e.agent);
      ErasedSlug(slugOf, d'.agent, d.agent);
      ErasedSlug(slugOf, e'.agent, e.agent);
      assert d'.agent.id == Erase(d'.agent).id && e'.agent.id == Erase(e'.agent).id;
    }
  }

  /** What a registry would show that had recorded its own deltas and then the peer's, each once. */
  function Merged(before: seq<Delta>, peer: seq<Delta>, start: int, end: int, slugOf: SlugOf): Catalog
  {
    EraseAll(Replay(before + Between(peer, start, end), slugOf))
  }

  /** Convergence despite partial writes: pulls may die after any number of rows, with or without the failing
      row landing, and are retried from the old cursor. Whenever no pull is in flight and the cursor covers
      everything a dead pull had written, `current_facts` of the sink, proofs erased, is what its own deltas
      and then the peer's from the first cursor to the current one give. */
  lemma {:induction false} Convergence(cfg: Config, states: seq<State>, steps: seq<Step>, n: nat, slugOf: SlugOf,
                    sinkSnapshot: seq<Delta>)
    requires IsRun(cfg, states, steps) && n <= |steps|
    requires IgnoresProof(slugOf) && SlugsStable(states[0].sink + states[n].peer, slugOf)
    requires states[n].phase.Idle? && Reached(cfg, states, steps, n) <= Covered(cfg.mode, states[n].cursor)
    requires IsSnapshot(states[n].sink, sinkSnapshot)
    ensures EraseAll(Replay(sinkSnapshot, slugOf))
         == Merged(states[0].sink, states[n].peer, Covered(cfg.mode, states[0].cursor),
                   Covered(cfg.mode, states[n].cursor), slugOf)
  {
    hide IsSnapshot, LastFor, Replay, Shown, IgnoresProof, SlugsStable, PhaseOk, Between;
    ConvergingUpTo(cfg, states, steps, n, slugOf);
    var s, before, start := states[n], states[0].sink, Covered(cfg.mode, states[0].cursor);
    var end, reached := Covered(cfg.mode, s.cursor), Reached(cfg, states, steps, n);
    StableSlugs(before + s.peer, s.sink, slugOf);
    SnapshotIsReplay(s.sink, sinkSnapshot, slugOf);
    var whole := before + Between(s.peer, start, end);
    forall slug ensures Shown(s.sink, slugOf, slug) == Shown(whole, slugOf, slug) {
      assert Untouched(s.peer, end, reached, slugOf, slug);
    }
    SameShown(s.sink, whole, slugOf);
  }

  /** Two logs that show the same under every slug replay to the same catalog, proofs aside. */
  lemma {:induction false} SameShown(a: seq<Delta>, b: seq<Delta>, slugOf: SlugOf)
    requires forall slug :: Shown(a, slugOf, slug) == Shown(b, slugOf, slug)
    ensures EraseAll(Replay(a, slugOf)) == EraseAll(Replay(b, slugOf))
  {
    hide Shown, Replay;
    var c, d := EraseAll(Replay(a, slugOf)), EraseAll(Replay(b, slugOf));
    forall slug ensures slug in c <==> slug in d
                ensures slug in c && slug in d ==> c[slug] == d[slug]
    {
      ShownIsReplay(a, slugOf, slug);
      ShownIsReplay(b, slugOf, slug);
    }
    assert c == d;
  }

  /** For a sink that starts empty from the beginning, that is the peer's own catalog at the cursor. */
  lemma {:induction false} FreshSinkConverges(cfg: Config, states: seq<State>, steps: seq<Step>, n: nat, slugOf: SlugOf,
                           sinkSnapshot: seq<Delta>, peerSnapshot: seq<Delta>)
    requires IsRun(cfg, states, steps) && n <= |steps| && states[0].sink == [] && states[0].cursor == 0
    requires IgnoresProof(slugOf) && SlugsStable(states[n].peer, slugOf)
    requires states[n].phase.Idle? && Reached(cfg, states, steps, n) <= Covered(cfg.mode, states[n].cursor)
    requires IsSnapshot(states[n].sink, sinkSnapshot)
    requires IsSnapshot(Between(states[n].peer, 0, Covered(cfg.mode, states[n].cursor)), peerSnapshot)
    ensures EraseAll(Replay(sinkSnapshot, slugOf)) == EraseAll(Replay(peerSnapshot, slugOf))
  {
    hide IsSnapshot, Replay, IgnoresProof, EraseAll, SlugsStable, Between, Reached;
    var s := states[n];
    var end := Covered(cfg.mode, s.cursor);
    assert [] + s.peer == s.peer && [] + Between(s.peer, 0, end) == Between(s.peer, 0, end);
    Convergence(cfg, states, steps, n, slugOf, sinkSnapshot);
    PeerStaysSequenced(cfg, states, steps, n);
    FirstPart(s.peer, end, slugOf);
    SnapshotIsReplay(Between(s.peer, 0, end), peerSnapshot, slugOf);
  }

  lemma FirstPart(peer: seq<Delta>, end: int, slugOf: SlugOf)
    requires Sequenced(peer) && SlugsStable(peer, slugOf)
    ensures Sequenced(Between(peer, 0, end)) && SlugsStable(Between(peer, 0, end), slugOf)
  {
    assert forall d <- Between(peer, 0, end) :: d in peer;
  }

  // ----- a peer that serves its whole tail ------------------------------------------------

  /** Every read of the peer takes the whole tail, as `DeltaStore.since` does. */
  ghost predicate WholeTails(cfg: Config, states: seq<State>, steps: seq<Step>)
    requires |steps| <= |states|
  {
    forall i :: 0 <= i < |steps| && steps[i].ReadRows? ==>
      steps[i].count == |TailFrom(states[i].peer, Covered(cfg.mode, states[i].cursor))|
  }

  /** The position after the page of the pull in flight. */
  function PageEnd(cfg: Config, s: State): int
  {
    match s.phase
    case Idle => |s.peer|
    case RowsRead(rows) => Covered(cfg.mode, s.cursor) + |rows|
    case Answered(page) => Covered(cfg.mode, s.cursor) + if page.Page? then |page.rows| else 0
    case Writing(todo, target) => Covered(cfg.mode, target)
  }

  lemma {:induction false} PagesCoverReached(cfg: Config, states: seq<State>, steps: seq<Step>, n: nat)
    requires IsRun(cfg, states, steps) && n <= |steps| && WholeTails(cfg, states, steps)
    ensures Reached(cfg, states, steps, n) <= PageEnd(cfg, states[n])
    ensures Reached(cfg, states, steps, n) <= |states[n].peer|
  {
    hide PhaseOk, Agrees, Sourced;
    if n > 0 {
      PagesCoverReached(cfg, states, steps, n - 1);
      var slugOf := (f: Facts) => "";
      ConvergingUpTo(cfg, states, steps, n - 1, slugOf);
      var s, s', step := states[n - 1], states[n - 1 + 1], steps[n - 1];
      assert Next(cfg, s, s', step);
      PageStep(cfg, s, s', step, states[0].sink, Covered(cfg.mode, states[0].cursor), Reached(cfg, states, steps, n - 1),
               slugOf);
    }
  }

  /** One step of a peer that serves whole tails keeps every row ever written inside the page in flight. */
  lemma PageStep(cfg: Config, s: State, s': State, step: Step, before: seq<Delta>, start: int, reached: nat, slugOf: SlugOf)
    requires !cfg.mode.Unsupported? && Next(cfg, s, s', step)
    requires Converging(cfg, s, before, start, Done(cfg, s), reached, slugOf)
    requires step.ReadRows? ==> step.count == |TailFrom(s.peer, Covered(cfg.mode, s.cursor))|
    requires reached <= PageEnd(cfg, s)
    ensures var reached' := if step.WriteFails? then Max(reached, Done(cfg, s) + if step.landed then 1 else 0) else reached;
            reached' <= PageEnd(cfg, s') && reached' <= |s'.peer|
  {
    hide Agrees, Sourced, Accepted, Recorded, Matches, Between;
    if step.Accept? {
      AcceptMatches(cfg, s, s.phase.page);
    }
    if step.WriteFails? {
      NextRowIs(cfg, s, start, Done(cfg, s));
    }
  }

  /** Against the built-in router every completed pull converges, however many died before it. */
  lemma {:induction false} CompletedPullConverges(cfg: Config, states: seq<State>, steps: seq<Step>, n: nat, slugOf: SlugOf,
                               sinkSnapshot: seq<Delta>)
    requires IsRun(cfg, states, steps) && n < |steps| && WholeTails(cfg, states, steps) && steps[n].Commit?
    requires IgnoresProof(slugOf) && SlugsStable(states[0].sink + states[n + 1].peer, slugOf)
    requires IsSnapshot(states[n + 1].sink, sinkSnapshot)
    ensures EraseAll(Replay(sinkSnapshot, slugOf))
         == Merged(states[0].sink, states[n + 1].peer, Covered(cfg.mode, states[0].cursor),
                   Covered(cfg.mode, states[n + 1].cursor), slugOf)
  {
    hide IsSnapshot, IgnoresProof, SlugsStable, Replay, Merged;
    PagesCoverReached(cfg, states, steps, n);
    assert Next(cfg, states[n], states[n + 1], steps[n]);
    Convergence(cfg, states, steps, n + 1, slugOf, sinkSnapshot);
  }

  // ----- one undisturbed pull -------------------------------------------------------------

  lemma PathPrepends(cfg: Config, s: State, step: Step, states: seq<State>, steps: seq<Step>)
    requires IsPath(cfg, states, steps) && Next(cfg, s, states[0], step)
    ensures IsPath(cfg, [s] + states, [step] + steps)
  {
    hide Next;
    forall i | 0 <= i < |[step] + steps|
      ensures Next(cfg, ([s] + states)[i], ([s] + states)[i + 1], ([step] + steps)[i])
    {
      if i > 0 {
        assert Next(cfg, states[i - 1], states[i - 1 + 1], steps[i - 1]);
      }
    }
  }

  /** Writing the remaining rows one by one and committing records them all. */
  lemma {:induction false} WriteThrough(cfg: Config, s: State) returns (states: seq<State>, steps: seq<Step>)
    requires s.phase.Writing?
    ensures IsPath(cfg, states, steps) && states[0] == s
    ensures states[|steps|] == s.(sink := Recorded(s.sink, s.phase.todo), cursor := s.phase.target, phase := Idle)
    decreases if s.phase.Writing? then |s.phase.todo| else 0
  {
    if s.phase.todo == [] {
      var s' := s.(cursor := s.phase.target, phase := Idle);
      assert Recorded(s.sink, []) == s.sink;
      states, steps := [s, s'], [Commit];
    } else {
      var s' := s.(sink := Recorded(s.sink, s.phase.todo[..1]), phase := s.phase.(todo := s.phase.todo[1..]));
      RecordedInTwo(s.sink, s.phase.todo);
      states, steps := WriteThrough(cfg, s');
      PathPrepends(cfg, s, WriteRow, states, steps);
      states, steps := [s] + states, [WriteRow] + steps;
    }
  }

  lemma RecordedInTwo(log: seq<Delta>, prepared: seq<Prepared>)
    requires prepared != []
    ensures Recorded(Recorded(log, prepared[..1]), prepared[1..]) == Recorded(log, prepared)
  {
  }

  /** The page a peer with this log serves when nothing lands between its two reads. */
  function WholePage(cfg: Config, s: State): Page
  {
    var rows := TailFrom(s.peer, Covered(cfg.mode, s.cursor));
    Page(ToRows(rows), SeqInt(PeerNextSeq(cfg, s, rows)))
  }

  lemma TailRows(log: seq<Delta>, since: nat)
    requires Sequenced(log)
    ensures var rows := ToRows(TailFrom(log, since));
            && |rows| == (if since <= |log| then |log| - since else 0)
            && forall i :: 0 <= i < |rows| ==> rows[i] == ToRow(log[since + i]) && rows[i].seqNo == SeqInt(since + i + 1)
  {
    hide TailFrom, ToRows, Sequenced;
    TailLength(log, since);
    var tail := TailFrom(log, since);
    ServedAre(log, since, tail);
    forall i | 0 <= i < |tail| ensures tail[i] == log[since + i] && log[since + i].seqNo == since + i + 1 {
      NumberAt(log, since + i);
    }
  }

  lemma TailLength(log: seq<Delta>, since: nat)
    ensures |TailFrom(log, since)| == (if since <= |log| then |log| - since else 0)
    ensures Serves(log, since, TailFrom(log, since))
  {
  }

  lemma NumberAt(log: seq<Delta>, i: nat)
    requires Sequenced(log) && i < |log|
    ensures log[i].seqNo == i + 1
  {
  }

  /** `sm_deltas`, which reads the rows and then the counter: the deltas after `since`, numbered on from there. */
  method SmDeltas(store: DeltaStore, since: nat) returns (page: Page)
    requires store.Valid()
    ensures page == Page(ToRows(TailFrom(store.deltas, since)), SeqInt(|store.deltas| + 1))
    ensures |page.rows| == if since <= |store.deltas| then |store.deltas| - since else 0
    ensures forall i :: 0 <= i < |page.rows| ==>
              page.rows[i] == ToRow(store.deltas[since + i]) && page.rows[i].seqNo == SeqInt(since + i + 1)
  {
    hide TailFrom, ToRow;
    TailRows(store.deltas, since);
    var rows := store.Since(since);
    var nextSeq := store.NextSeq();
    page := Page(ToRows(rows), SeqInt(nextSeq));
  }

  /** A pull with nothing in between takes the steps to just the outcome `FederationPoller.SyncOnce` promises
      for the page served. */
  lemma {:induction false} PullAlone(cfg: Config, s: State, fetch: Fetch) returns (states: seq<State>, steps: seq<Step>)
    requires !cfg.mode.Unsupported? && s.cursor >= 0 && s.phase.Idle?
    requires fetch(s.cursor) == Some(WholePage(cfg, s))
    ensures IsPath(cfg, states, steps) && states[0] == s
    ensures states[|steps|] == match Pull(fetch, s.cursor, cfg.mode, cfg.reverify, cfg.trustPeer)
                               case Failure(_) => s
                               case Success((prepared, cursor)) => s.(sink := Recorded(s.sink, prepared), cursor := cursor)
  {
    hide CheckPage, ResolveAll, Recorded, TailFrom, ToRows;
    var rows := TailFrom(s.peer, Covered(cfg.mode, s.cursor));
    var (s1, s2) := (s.(phase := RowsRead(rows)), s.(phase := Answered(WholePage(cfg, s))));
    assert rows[..|rows|] == rows;
    var accepted := Accepted(cfg, s.cursor, WholePage(cfg, s));
    if accepted.None? {
      states, steps := [s2, s], [Refuse(WholePage(cfg, s))];
    } else {
      states, steps := WriteThrough(cfg, s.(phase := Writing(accepted.value.0, accepted.value.1)));
      PathPrepends(cfg, s2, Accept, states, steps);
      states, steps := [s2] + states, [Accept] + steps;
    }
    PathPrepends(cfg, s1, ReadNextSeq, states, steps);
    states, steps := [s1] + states, [ReadNextSeq] + steps;
    PathPrepends(cfg, s, ReadRows(|rows|), states, steps);
    states, steps := [s] + states, [ReadRows(|rows|)] + steps;
  }

  // ----- no claim of a peer becomes ours, in any run --------------------------------------

  /** A step against a peer that may answer anything. */
  ghost predicate NextAny(cfg: Config, s: State, s': State, step: Step)
  {
    || Next(cfg, s, s', step)
    || (step.ReadNextSeq? && s.phase.RowsRead? && s'.phase.Answered? && s' == s.(phase := s'.phase))
  }

  /** The local re-verifier gave this proof for a row that carried these facts. */
  ghost predicate Judged(reverify: Option<Reverify>, row: Row, f: Facts)
  {
    && reverify.Some? && row.Row? && row.agent.WellFormed? && Erase(row.agent.facts) == Erase(f)
    && f.proof.Some? && reverify.value(row.agent.facts, row) == Opinion(f.proof.value)
  }

  ghost predicate Vouched(cfg: Config, f: Facts)
  {
    || (f.proof.Some? && f.proof.value.status == NOT_VERIFIED)
    || exists row :: Judged(cfg.reverify, row, f)
  }

  /** Everything written since the start, and everything about to be, is vouched for. */
  ghost predicate AllVouched(cfg: Config, s: State, before: seq<Delta>)
  {
    && before <= s.sink
    && (forall k :: |before| <= k < |s.sink| ==> Vouched(cfg, s.sink[k].agent))
    && (s.phase.Writing? ==> forall k :: 0 <= k < |s.phase.todo| ==> Vouched(cfg, s.phase.todo[k].facts))
  }

  lemma {:induction false} AcceptedVouched(cfg: Config, cursor: int, page: Page)
    requires !cfg.trustPeer && Accepted(cfg, cursor, page).Some?
    ensures var todo := Accepted(cfg, cursor, page).value.0;
            forall k :: 0 <= k < |todo| ==> Vouched(cfg, todo[k].facts)
  {
    hide ResolveAll, RowsOk, Vouched;
    AcceptedRowsOk(cfg.mode, cursor, page);
    NoLaundering(page.rows, cfg.reverify, cfg.trustPeer);
    var todo := Accepted(cfg, cursor, page).value.0;
    forall k | 0 <= k < |todo| ensures Vouched(cfg, todo[k].facts) {
      RowVouched(cfg, page.rows[k], todo[k].facts);
    }
  }

  lemma RowVouched(cfg: Config, row: Row, f: Facts)
    requires RowOk(row) && Erase(f) == Erase(row.agent.facts)
    requires match OpinionOn(row, cfg.reverify)
             case Raised => false
             case Opinion(proof) => f.proof == Some(proof)
             case NoOpinion => f.proof.Some? && f.proof.value.status == NOT_VERIFIED
    ensures Vouched(cfg, f)
  {
    if OpinionOn(row, cfg.reverify).Opinion? {
      assert Judged(cfg.reverify, row, f);
    }
  }

  lemma {:induction false} VouchedStep(cfg: Config, s: State, s': State, step: Step, before: seq<Delta>)
    requires !cfg.trustPeer && AllVouched(cfg, s, before) && NextAny(cfg, s, s', step)
    ensures AllVouched(cfg, s', before)
  {
    hide Vouched, TailFrom, Accepted;
    if step.Accept? {
      AcceptedVouched(cfg, s.cursor, s.phase.page);
    }
  }

  /** An operator who does not trust the peer never records its word: in every run, whatever the peer answers and
      however pulls die, a row written since the start carries a proof of the local re-verifier for that row
      or one that says NOT_VERIFIED. */
  lemma {:induction false} NoLaunderedRow(cfg: Config, states: seq<State>, steps: seq<Step>, n: nat)
    requires !cfg.trustPeer && |states| == |steps| + 1 && states[0].phase.Idle? && n <= |steps|
    requires forall i :: 0 <= i < |steps| ==> NextAny(cfg, states[i], states[i + 1], steps[i])
    ensures AllVouched(cfg, states[n], states[0].sink)
  {
    hide Vouched, NextAny;
    if n > 0 {
      NoLaunderedRow(cfg, states, steps, n - 1);
      assert NextAny(cfg, states[n - 1], states[n - 1 + 1], steps[n - 1]);
      VouchedStep(cfg, states[n - 1], states[n], steps[n - 1], states[0].sink);
    }
  }

  // ----- an honest peer is heard ----------------------------------------------------------

  /** The first `count` rows that the peer has for the cursor, with the number it adds. */
  function HonestPage(cfg: Config, s: State, count: nat): Page
    requires count <= |TailFrom(s.peer, Covered(cfg.mode, s.cursor))|
  {
    var rows := TailFrom(s.peer, Covered(cfg.mode, s.cursor))[..count];
    Page(ToRows(rows), SeqInt(PeerNextSeq(cfg, s, rows)))
  }

  lemma {:induction false} HonestRows(cfg: Config, s: State, count: nat)
    requires !cfg.mode.Unsupported? && Sequenced(s.peer) && s.cursor >= 0
    requires count <= |TailFrom(s.peer, Covered(cfg.mode, s.cursor))|
    requires forall d <- s.peer :: d.action == "upsert" || d.action == "delete" || d.action == "revoke"
    ensures GoodRows(HonestPage(cfg, s, count).rows, cfg.mode, s.cursor)
    ensures var target := if count == 0 then s.cursor
                          else Covered(cfg.mode, s.cursor) + count + if cfg.mode.Inclusive? then 1 else 0;
            && IsCursor(target, HonestPage(cfg, s, count).rows, cfg.mode, s.cursor)
            && (cfg.mode.Inclusive? ==> HonestPage(cfg, s, count).nextSeq == SeqInt(target))
  {
    hide TailFrom;
    var from := Covered(cfg.mode, s.cursor);
    var rows := TailFrom(s.peer, from)[..count];
    FirstRowsServed(s.peer, from, count);
    ServedAre(s.peer, from, rows);
    forall i | 0 <= i < count ensures GoodRow(ToRows(rows), i, cfg.mode, s.cursor) {
      assert rows[i] == s.peer[from + i] && s.peer[from + i] in s.peer;
      assert i > 0 ==> rows[i - 1] == s.peer[from + i - 1];
    }
    assert count > 0 ==> rows[count - 1] == s.peer[from + count - 1];
  }

  /** An honest page is accepted. Whatever the mode, the cursor and the length of the page, a pull from a peer
      whose log has only the three actions succeeds exactly when no local re-verification raises; every row
      served is then written, and the cursor covers exactly the rows served. */
  lemma {:induction false} HonestPageAccepted(cfg: Config, s: State, count: nat, fetch: Fetch)
    requires !cfg.mode.Unsupported? && Sequenced(s.peer) && s.cursor >= 0
    requires count <= |TailFrom(s.peer, Covered(cfg.mode, s.cursor))|
    requires forall d <- s.peer :: d.action == "upsert" || d.action == "delete" || d.action == "revoke"
    requires fetch(s.cursor) == Some(HonestPage(cfg, s, count))
    ensures var result := Pull(fetch, s.cursor, cfg.mode, cfg.reverify, cfg.trustPeer);
            && (result.Success? <==> NoneRaises(HonestPage(cfg, s, count).rows, cfg.reverify))
            && (result.Success? ==>
                  var ((prepared, cursor), from) := (result.value, Covered(cfg.mode, s.cursor));
                  && |prepared| == count && Covered(cfg.mode, cursor) == from + count
                  && Changes(Recorded(s.sink, prepared)) == Changes(s.sink) + Changes(Between(s.peer, from, from + count)))
  {
    hide TailFrom, ResolveAll, GoodRows, CheckPage, IsCursor, NoneRaises;
    HonestRows(cfg, s, count);
    PullIs(fetch, s.cursor, cfg.mode, cfg.reverify, cfg.trustPeer);
    var from := Covered(cfg.mode, s.cursor);
    FirstRowsServed(s.peer, from, count);
    var page := HonestPage(cfg, s, count);
    assert Serves(s.peer, from, TailFrom(s.peer, from)[..count]);
    if NoneRaises(page.rows, cfg.reverify) {
      AcceptMatches(cfg, s, page);
      var (prepared, cursor) := Pull(fetch, s.cursor, cfg.mode, cfg.reverify, cfg.trustPeer).value;
      RecordedMatches(s.sink, s.peer, from, prepared);
    }
  }

  lemma RecordedMatches(sink: seq<Delta>, peer: seq<Delta>, from: int, prepared: seq<Prepared>)
    requires from >= 0 && Matches(peer, from, prepared)
    ensures Changes(Recorded(sink, prepared)) == Changes(sink) + Changes(Between(peer, from, from + |prepared|))
  {
    assert prepared != [] ==> |Between(peer, from, from + |prepared|)| == |prepared|;
    assert prepared == [] ==> Between(peer, from, from) == [];
  }

  /** An undisturbed pull from such a peer ends with the cursor at the end of its log. */
  lemma {:induction false} HonestPullCompletes(cfg: Config, s: State, fetch: Fetch) returns (states: seq<State>, steps: seq<Step>)
    requires !cfg.mode.Unsupported? && Sequenced(s.peer) && s.cursor >= 0 && s.phase.Idle?
    requires forall d <- s.peer :: d.action == "upsert" || d.action == "delete" || d.action == "revoke"
    requires NoneRaises(WholePage(cfg, s).rows, cfg.reverify)
    requires fetch(s.cursor) == Some(WholePage(cfg, s))
    ensures IsPath(cfg, states, steps) && states[0] == s
    ensures var (s', from) := (states[|steps|], Covered(cfg.mode, s.cursor));
            && s'.phase.Idle? && s'.peer == s.peer
            && Covered(cfg.mode, s'.cursor) == (if from <= |s.peer| then |s.peer| else from)
            && Changes(s'.sink) == Changes(s.sink) + Changes(Between(s.peer, from, |s.peer|))
  {
    hide Pull, Recorded, PeerNextSeq, NoneRaises;
    var from := Covered(cfg.mode, s.cursor);
    var count := |TailFrom(s.peer, from)|;
    assert TailFrom(s.peer, from)[..count] == TailFrom(s.peer, from);
    HonestPageAccepted(cfg, s, count, fetch);
    states, steps := PullAlone(cfg, s, fetch);
  }
}
