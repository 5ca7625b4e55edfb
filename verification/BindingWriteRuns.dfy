/**
 Concurrent binding writes: any number of requests, each going through authentication, the nonce gate, the
 verdict, the store and the log, one atomic step at a time, in any interleaving. The authenticator and the
 authorizer may answer anything at any time; their answers are recorded.
 */
module BindingWriteRuns {
  import opened CanonicalJson
  import opened BindingRequests
  import opened BindingWrite

  datatype Stage =
    | Received
    | Authentic
    | Reserved
    | Approved
    | Pending(version: nat)
    | Done(leaf: nat)
    | Stopped(refusal: Refusal)

  datatype Thread = Thread(req: Request, stage: Stage)

  datatype Answer = Authenticated(thread: nat) | Judged(thread: nat, status: string)

  /** `log` holds the leaves this router appended, after the `existing` ones the log came with. */
  datatype State = State(threads: seq<Thread>, seen: set<NonceKey>, records: Records, existing: nat, log: seq<Entry>,
                         writers: seq<nat>, answers: set<Answer>)

  datatype Step =
    | Arrive(req: Request)
    | Authenticate(t: nat, ok: bool)
    | NonceGate(t: nat)
    | Authorize(t: nat, status: string)
    | Apply(t: nat)
    | Append(t: nat)

  /** A new router over any store and any log. */
  ghost predicate Init(s: State)
  {
    s == State([], {}, s.records, s.existing, [], [], {})
  }

  function Move(s: State, t: nat, stage: Stage): State
    requires t < |s.threads|
  {
    s.(threads := s.threads[t := s.threads[t].(stage := stage)])
  }

  function AfterVerdict(status: string): (stage: Stage)
    ensures if status == "SATISFIED" then stage == Approved else stage.Stopped?
  {
    if status == "VIOLATED" then Stopped(Violated)
    else if status == "INDETERMINATE" then Stopped(Indeterminate)
    else if status != "SATISFIED" then Stopped(UnknownVerdict)
    else Approved
  }

  ghost predicate Next(s: State, s': State, step: Step)
  {
    match step
    case Arrive(req) => s' == s.(threads := s.threads + [Thread(req, Received)])
    case Authenticate(t, ok) =>
      && t < |s.threads| && s.threads[t].stage == Received
      && s' == if ok then Move(s, t, Authentic).(answers := s.answers + {Authenticated(t)})
               else Move(s, t, Stopped(SignatureInvalid))
    case NonceGate(t) =>
      && t < |s.threads| && s.threads[t].stage == Authentic
      && var key := KeyOf(s.threads[t].req);
         s' == if key in s.seen then Move(s, t, Stopped(NonceReplayed))
               else Move(s, t, Reserved).(seen := s.seen + {key})
    case Authorize(t, status) =>
      && t < |s.threads| && s.threads[t].stage == Reserved
      && s' == Move(s, t, AfterVerdict(status)).(answers := s.answers + {Judged(t, status)})
    case Apply(t) =>
      && t < |s.threads| && s.threads[t].stage == Approved
      && var req := s.threads[t].req;
         var rec := Written(s.records, req);
         s' == Move(s, t, Pending(rec.version)).(records := s.records[req.subject := rec])
    case Append(t) =>
      && t < |s.threads| && s.threads[t].stage.Pending?
      && s' == Move(s, t, Done(s.existing + |s.log|)).(
                 log := s.log + [EntryOf(s.threads[t].req, s.threads[t].stage.version)], writers := s.writers + [t])
  }

  ghost predicate IsPath(states: seq<State>, steps: seq<Step>)
  {
    && |states| == |steps| + 1
    && forall i :: 0 <= i < |steps| ==> Next(states[i], states[i + 1], steps[i])
  }

  ghost predicate IsRun(states: seq<State>, steps: seq<Step>)
  {
    IsPath(states, steps) && Init(states[0])
  }

  // ----- conservation of versions ---------------------------------------------------------

  function Share(th: Thread, subject: string, v: nat): nat
  {
    if th.req.subject == subject && th.stage == Pending(v) then 1 else 0
  }

  /** How many writes took version `v` of `subject` and are applied but not yet logged. */
  function PendingWrites(threads: seq<Thread>, subject: string, v: nat): nat
  {
    if threads == [] then 0
    else PendingWrites(threads[..|threads| - 1], subject, v) + Share(threads[|threads| - 1], subject, v)
  }

  /** How many leaves of the log record version `v` of `subject`. */
  function LoggedWrites(log: seq<Entry>, subject: string, v: nat): nat
  {
    if log == [] then 0
    else
      var last := log[|log| - 1];
      LoggedWrites(log[..|log| - 1], subject, v) + if last.subject == subject && last.version == v then 1 else 0
  }

  /** The versions after the one a subject had at first, up to the current one, belong to one write each, and no
      other version to any. */
  ghost predicate Conserved(base: Records, s: State)
  {
    forall subject, v: nat :: ConservedAt(base, s, subject, v)
  }

  lemma {:induction false} PendingUpdate(threads: seq<Thread>, t: nat, th: Thread, subject: string, v: nat)
    requires t < |threads|
    ensures PendingWrites(threads[t := th], subject, v) + Share(threads[t], subject, v)
         == PendingWrites(threads, subject, v) + Share(th, subject, v)
    decreases |threads|
  {
    var n := |threads| - 1;
    var changed := threads[t := th];
    if t == n {
      assert changed[..n] == threads[..n];
    } else {
      PendingUpdate(threads[..n], t, th, subject, v);
      assert changed[..n] == threads[..n][t := th];
    }
  }

  ghost predicate ConservedAt(base: Records, s: State, subject: string, v: nat)
  {
    && Version(base, subject) <= Version(s.records, subject)
    && LoggedWrites(s.log, subject, v) + PendingWrites(s.threads, subject, v)
       == if Version(base, subject) < v <= Version(s.records, subject) then 1 else 0
  }

  lemma {:induction false} ConservedStep(base: Records, s: State, s': State, step: Step)
    requires Conserved(base, s) && Next(s, s', step)
    ensures Conserved(base, s')
  {
    hide ConservedAt, Next;
    forall subject, v: nat ensures ConservedAt(base, s', subject, v) {
      ConservedStepAt(base, s, s', step, subject, v);
    }
  }

  lemma {:induction false} ConservedStepAt(base: Records, s: State, s': State, step: Step, subject: string, v: nat)
    requires ConservedAt(base, s, subject, v) && Next(s, s', step)
    ensures ConservedAt(base, s', subject, v)
  {
    hide PendingWrites, LoggedWrites, WellFormed, Written, FieldNames, GrantId, AfterVerdict;
    match step
    case Arrive(req) =>
      PendingArrives(s.threads, req, subject, v);
    case Apply(t) =>
      ConservedApply(base, s, s', t, subject, v);
    case Append(t) =>
      ConservedAppend(base, s, s', t, subject, v);
    case _ =>
      PendingUpdate(s.threads, step.t, s'.threads[step.t], subject, v);
  }

  lemma {:induction false} ConservedApply(base: Records, s: State, s': State, t: nat, subject: string, v: nat)
    requires ConservedAt(base, s, subject, v) && Next(s, s', Apply(t))
    ensures ConservedAt(base, s', subject, v)
  {
    hide PendingWrites, LoggedWrites, WellFormed, Written;
    PendingUpdate(s.threads, t, s'.threads[t], subject, v);
  }

  lemma {:induction false} ConservedAppend(base: Records, s: State, s': State, t: nat, subject: string, v: nat)
    requires ConservedAt(base, s, subject, v) && Next(s, s', Append(t))
    ensures ConservedAt(base, s', subject, v)
  {
    hide PendingWrites, LoggedWrites, WellFormed, FieldNames, GrantId;
    PendingUpdate(s.threads, t, s'.threads[t], subject, v);
    LoggedAppend(s.log, EntryOf(s.threads[t].req, s.threads[t].stage.version), subject, v);
  }

  lemma LoggedAppend(log: seq<Entry>, e: Entry, subject: string, v: nat)
    ensures LoggedWrites(log + [e], subject, v)
         == LoggedWrites(log, subject, v) + if e.subject == subject && e.version == v then 1 else 0
  {
    assert (log + [e])[..|log|] == log;
  }

  lemma PendingArrives(threads: seq<Thread>, req: Request, subject: string, v: nat)
    ensures PendingWrites(threads + [Thread(req, Received)], subject, v) == PendingWrites(threads, subject, v)
  {
    assert (threads + [Thread(req, Received)])[..|threads|] == threads;
  }

  // ----- the log's size -------------------------------------------------------------------

  ghost function Total(records: Records): nat
  {
    if records == map[] then 0
    else
      var subject :| subject in records;
      records[subject].version + Total(records - {subject})
  }

  lemma {:induction false} TotalWithout(records: Records, subject: string)
    requires subject in records
    ensures Total(records) == records[subject].version + Total(records - {subject})
    decreases |records|
  {
    var pick :| pick in records && Total(records) == records[pick].version + Total(records - {pick});
    if pick != subject {
      TotalWithout(records - {pick}, subject);
      TotalWithout(records - {subject}, pick);
      assert records - {pick} - {subject} == records - {subject} - {pick};
    }
  }

  lemma TotalUpdate(records: Records, subject: string, rec: Record)
    ensures Total(records[subject := rec]) + Version(records, subject) == Total(records) + rec.version
  {
    var updated := records[subject := rec];
    TotalWithout(updated, subject);
    assert updated - {subject} == records - {subject};
    if subject in records {
      TotalWithout(records, subject);
    } else {
      assert records - {subject} == records;
    }
  }

  function PendingCount(threads: seq<Thread>): nat
  {
    if threads == [] then 0
    else PendingCount(threads[..|threads| - 1]) + if threads[|threads| - 1].stage.Pending? then 1 else 0
  }

  lemma {:induction false} PendingCountUpdate(threads: seq<Thread>, t: nat, th: Thread)
    requires t < |threads|
    ensures PendingCount(threads[t := th]) + (if threads[t].stage.Pending? then 1 else 0)
         == PendingCount(threads) + (if th.stage.Pending? then 1 else 0)
    decreases |threads|
  {
    var n := |threads| - 1;
    var changed := threads[t := th];
    if t == n {
      assert changed[..n] == threads[..n];
    } else {
      PendingCountUpdate(threads[..n], t, th);
      assert changed[..n] == threads[..n][t := th];
    }
  }

  ghost predicate Counted(base: Records, s: State)
  {
    |s.log| + PendingCount(s.threads) + Total(base) == Total(s.records)
  }

  lemma {:induction false} CountedStep(base: Records, s: State, s': State, step: Step)
    requires Counted(base, s) && Next(s, s', step)
    ensures Counted(base, s')
  {
    hide PendingCount, Total, WellFormed, EntryOf;
    match step
    case Arrive(req) =>
      ArrivalCount(s.threads, req);
    case Apply(t) =>
      PendingCountUpdate(s.threads, t, s'.threads[t]);
      TotalUpdate(s.records, s.threads[t].req.subject, Written(s.records, s.threads[t].req));
    case _ =>
      PendingCountUpdate(s.threads, step.t, s'.threads[step.t]);
  }

  lemma ArrivalCount(threads: seq<Thread>, req: Request)
    ensures PendingCount(threads + [Thread(req, Received)]) == PendingCount(threads)
  {
    assert (threads + [Thread(req, Received)])[..|threads|] == threads;
  }

  // ----- nonces and authority -------------------------------------------------------------

  /** Past the nonce gate and not stopped since. */
  predicate PastGate(stage: Stage)
  {
    stage.Reserved? || stage.Approved? || stage.Pending? || stage.Done?
  }

  ghost predicate Guarded(s: State)
  {
    && (forall t {:trigger s.threads[t]} :: 0 <= t < |s.threads| && PastGate(s.threads[t].stage) ==>
          KeyOf(s.threads[t].req) in s.seen)
    && (forall t, u {:trigger s.threads[t], s.threads[u]} ::
          (0 <= t < u < |s.threads| && PastGate(s.threads[t].stage) && PastGate(s.threads[u].stage)) ==>
          KeyOf(s.threads[t].req) != KeyOf(s.threads[u].req))
  }

  ghost predicate Answered(s: State)
  {
    forall t {:trigger s.threads[t]} :: 0 <= t < |s.threads| ==>
      var stage := s.threads[t].stage;
      && (stage.Authentic? || PastGate(stage) ==> Authenticated(t) in s.answers)
      && (PastGate(stage) && !stage.Reserved? ==> Judged(t, "SATISFIED") in s.answers)
  }

  /** Leaf `k` was appended by its own request. */
  ghost predicate AttributedAt(s: State, k: nat)
    requires k < |s.log| == |s.writers|
  {
    && s.writers[k] < |s.threads|
    && s.threads[s.writers[k]].stage == Done(s.existing + k)
    && s.log[k] == EntryOf(s.threads[s.writers[k]].req, s.log[k].version)
  }

  ghost predicate Attributed(s: State)
  {
    |s.writers| == |s.log| && forall k :: 0 <= k < |s.log| ==> AttributedAt(s, k)
  }

  lemma GuardedStep(s: State, s': State, step: Step)
    requires Guarded(s) && Next(s, s', step)
    ensures Guarded(s')
  {
    hide WellFormed, Written, EntryOf, AfterVerdict;
  }

  lemma AnsweredStep(s: State, s': State, step: Step)
    requires Answered(s) && Next(s, s', step)
    ensures Answered(s')
  {
    hide WellFormed, Written, EntryOf, KeyOf;
  }

  lemma {:induction false} AttributedStep(s: State, s': State, step: Step)
    requires Attributed(s) && Next(s, s', step)
    ensures Attributed(s')
  {
    hide WellFormed, Written, KeyOf, FieldNames, GrantId, AfterVerdict;
    forall k | 0 <= k < |s'.log| ensures AttributedAt(s', k) {
      assert k < |s.log| ==> AttributedAt(s, k);
    }
  }

  ghost predicate Invariant(base: Records, s: State)
  {
    Conserved(base, s) && Counted(base, s) && Guarded(s) && Answered(s) && Attributed(s)
  }

  lemma {:induction false} InvariantHolds(states: seq<State>, steps: seq<Step>, n: nat)
    requires IsRun(states, steps) && n <= |steps|
    ensures Invariant(states[0].records, states[n])
  {
    hide Conserved, Counted, Guarded, Answered, Attributed, Next;
    if n == 0 {
      InitInvariant(states[0]);
    } else {
      InvariantHolds(states, steps, n - 1);
      var s, s', step := states[n - 1], states[n - 1 + 1], steps[n - 1];
      assert Next(s, s', step);
      ConservedStep(states[0].records, s, s', step);
      CountedStep(states[0].records, s, s', step);
      GuardedStep(s, s', step);
      AnsweredStep(s, s', step);
      AttributedStep(s, s', step);
    }
  }

  lemma InitInvariant(s: State)
    requires Init(s)
    ensures Invariant(s.records, s)
  {
  }

  // ----- main results ---------------------------------------------------------------------

  /** In every reachable state, each version of each subject after the one the store came with, up to the current
      one, belongs to exactly one write, and that write is in the log or applied and about to be. */
  lemma {:induction false} VersionsConserved(states: seq<State>, steps: seq<Step>, n: nat, subject: string, v: nat)
    requires IsRun(states, steps) && n <= |steps|
    ensures LoggedWrites(states[n].log, subject, v) + PendingWrites(states[n].threads, subject, v)
         == if Version(states[0].records, subject) < v <= Version(states[n].records, subject) then 1 else 0
  {
    InvariantHolds(states, steps, n);
    assert ConservedAt(states[0].records, states[n], subject, v);
  }

  /** With no write between store and log, every version since the start has exactly one leaf, and the log has
      grown by as many leaves as all versions together have grown. */
  lemma {:induction false} QuiescentLog(states: seq<State>, steps: seq<Step>, n: nat)
    requires IsRun(states, steps) && n <= |steps|
    requires forall t :: 0 <= t < |states[n].threads| ==> !states[n].threads[t].stage.Pending?
    ensures |states[n].log| + Total(states[0].records) == Total(states[n].records)
    ensures forall subject, v: nat ::
              LoggedWrites(states[n].log, subject, v) == if Version(states[0].records, subject) < v <= Version(states[n].records, subject) then 1 else 0
  {
    InvariantHolds(states, steps, n);
    var s := states[n];
    forall subject, v: nat
      ensures LoggedWrites(s.log, subject, v) == if Version(states[0].records, subject) < v <= Version(s.records, subject) then 1 else 0
    {
      NothingPending(s.threads, subject, v);
      VersionsConserved(states, steps, n, subject, v);
    }
    NothingPending(s.threads, "", 0);
  }

  lemma {:induction false} NothingPending(threads: seq<Thread>, subject: string, v: nat)
    requires forall t :: 0 <= t < |threads| ==> !threads[t].stage.Pending?
    ensures PendingCount(threads) == 0 && PendingWrites(threads, subject, v) == 0
  {
    if threads != [] {
      NothingPending(threads[..|threads| - 1], subject, v);
    }
  }

  /** Every leaf a router appended was authenticated and judged SATISFIED, and no two of them share a (store,
      nonce) pair, nor their bytes. */
  lemma {:induction false} LeavesAuthorized(states: seq<State>, steps: seq<Step>, n: nat, k: nat)
    requires IsRun(states, steps) && n <= |steps| && k < |states[n].log|
    ensures var (s, entry) := (states[n], states[n].log[k]);
            && (exists t :: 0 <= t < |s.threads| && entry == EntryOf(s.threads[t].req, entry.version)
                            && Authenticated(t) in s.answers && Judged(t, "SATISFIED") in s.answers)
            && (forall j :: 0 <= j < |s.log| && j != k ==>
                  && (s.log[j].storeDid, s.log[j].nonce) != (entry.storeDid, entry.nonce)
                  && CanonicalLogEntry(s.log[j]) != CanonicalLogEntry(entry))
  {
    hide CanonicalLogEntry, WellFormed;
    InvariantHolds(states, steps, n);
    var s := states[n];
    var t := s.writers[k];
    assert AttributedAt(s, k);
    forall j | 0 <= j < |s.log| && j != k
      ensures (s.log[j].storeDid, s.log[j].nonce) != (s.log[k].storeDid, s.log[k].nonce)
      ensures CanonicalLogEntry(s.log[j]) != CanonicalLogEntry(s.log[k])
    {
      var u := s.writers[j];
      assert AttributedAt(s, j);
      assert KeyOf(s.threads[t].req) != KeyOf(s.threads[u].req);
      LogEntryExact(s.log[j], s.log[k]);
    }
  }

  // ----- one request at a time ------------------------------------------------------------

  lemma {:induction false} TakeStep(states: seq<State>, steps: seq<Step>, step: Step, s': State)
    returns (states': seq<State>, steps': seq<Step>)
    requires IsPath(states, steps) && Next(states[|steps|], s', step)
    ensures IsPath(states', steps') && states'[0] == states[0] && states'[|steps'|] == s'
  {
    hide Next;
    states', steps' := states + [s'], steps + [step];
    forall i | 0 <= i < |steps'| ensures Next(states'[i], states'[i + 1], steps'[i]) {
      assert i < |steps| ==> Next(states[i], states[i + 1], steps[i]);
    }
  }

  lemma PathOfNone(s: State)
    ensures IsPath([s], [])
  {
  }

  /** Left alone, a request takes the steps to just the outcome `WriteRouter.WriteBinding` promises. */
  lemma {:induction false} RequestAlone(s: State, r: Request, authentic: bool, status: string)
    returns (states: seq<State>, steps: seq<Step>)
    ensures IsPath(states, steps) && states[0] == s
    ensures var (t, s') := (|s.threads|, states[|steps|]);
            && |s'.threads| == t + 1 && s'.threads[..t] == s.threads && s'.threads[t].req == r
            && s'.seen == (if authentic then s.seen + {KeyOf(r)} else s.seen)
            && match Refused(s.seen, r, authentic, status)
               case Some(refusal) =>
                 s'.threads[t].stage == Stopped(refusal) && s'.records == s.records && s'.log == s.log
               case None =>
                 var rec := Written(s.records, r);
                 && s'.threads[t].stage == Done(s.existing + |s.log|)
                 && s'.records == s.records[r.subject := rec] && s'.log == s.log + [EntryOf(r, rec.version)]
  {
    hide Written, EntryOf, KeyOf, IsPath, WellFormed;
    var t := |s.threads|;
    states, steps := [s], [];
    PathOfNone(s);
    var s1 := s.(threads := s.threads + [Thread(r, Received)]);
    states, steps := TakeStep(states, steps, Arrive(r), s1);
    var s2 := if authentic then Move(s1, t, Authentic).(answers := s1.answers + {Authenticated(t)})
              else Move(s1, t, Stopped(SignatureInvalid));
    states, steps := TakeStep(states, steps, Authenticate(t, authentic), s2);
    if !authentic { return; }
    var s3 := if KeyOf(r) in s2.seen then Move(s2, t, Stopped(NonceReplayed))
              else Move(s2, t, Reserved).(seen := s2.seen + {KeyOf(r)});
    states, steps := TakeStep(states, steps, NonceGate(t), s3);
    if KeyOf(r) in s.seen { return; }
    var s4 := Move(s3, t, AfterVerdict(status)).(answers := s3.answers + {Judged(t, status)});
    states, steps := TakeStep(states, steps, Authorize(t, status), s4);
    if status != "SATISFIED" { return; }
    states, steps := WriteAlone(states, steps, t);
  }

  /** The two steps of an approved request. */
  lemma {:induction false} WriteAlone(states: seq<State>, steps: seq<Step>, t: nat) returns (states': seq<State>, steps': seq<Step>)
    requires IsPath(states, steps) && t < |states[|steps|].threads| && states[|steps|].threads[t].stage == Approved
    ensures IsPath(states', steps') && states'[0] == states[0]
    ensures var (s, s') := (states[|steps|], states'[|steps'|]);
            var rec := Written(s.records, s.threads[t].req);
            s' == Move(s, t, Done(s.existing + |s.log|)).(
                    records := s.records[s.threads[t].req.subject := rec],
                    log := s.log + [EntryOf(s.threads[t].req, rec.version)], writers := s.writers + [t])
  {
    hide Written, EntryOf, WellFormed;
    var s := states[|steps|];
    var r := s.threads[t].req;
    var rec := Written(s.records, r);
    var applied := Move(s, t, Pending(rec.version)).(records := s.records[r.subject := rec]);
    states', steps' := TakeStep(states, steps, Apply(t), applied);
    var logged := Move(applied, t, Done(s.existing + |s.log|)).(
                    log := s.log + [EntryOf(r, rec.version)], writers := s.writers + [t]);
    assert logged.threads == s.threads[t := s.threads[t].(stage := Done(s.existing + |s.log|))];
    states', steps' := TakeStep(states', steps', Append(t), logged);
  }
}
