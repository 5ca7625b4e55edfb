/** Authenticated binding writes of sm_bridge/binding_write.py: the versioned store and one request, start to end. */
module BindingWrite {
  import opened ByteStrings
  import opened Wrappers
  import opened Tlog
  import opened MerkleLogs
  import opened CanonicalJson
  import opened BindingRequests

  datatype Record = Record(subject: string, version: nat, lifecycle: string, fields: map<string, Json>,
                           targetHost: Option<string>, agentRole: Option<string>)

  type Records = map<string, Record>

  type NonceKey = (string, string)

  function KeyOf(r: Request): NonceKey
  {
    (r.storeDid, r.nonce)
  }

  /** A dictionary as a map. */
  function Fields(ms: seq<Member>): map<string, Json>
  {
    if ms == [] then map[] else Fields(ms[..|ms| - 1])[ms[|ms| - 1].key := ms[|ms| - 1].val]
  }

  /** It has exactly the dictionary's keys, each with the value of its member. */
  lemma {:induction false} FieldsExact(ms: Dict)
    ensures forall m <- ms :: m.key in Fields(ms) && Fields(ms)[m.key] == m.val
    ensures forall key <- Fields(ms) :: exists m <- ms :: m.key == key
  {
    if ms != [] {
      var front, last := ms[..|ms| - 1], ms[|ms| - 1];
      FrontAndLast(ms);
      FieldsExact(front);
    }
  }

  lemma FrontAndLast(ms: Dict)
    requires ms != []
    ensures WellFormed(Obj(ms[..|ms| - 1]))
    ensures forall m :: m in ms <==> m in ms[..|ms| - 1] || m == ms[|ms| - 1]
    ensures forall m <- ms[..|ms| - 1] :: m.key != ms[|ms| - 1].key
  {
    assert ms == ms[..|ms| - 1] + [ms[|ms| - 1]];
  }

  function Version(records: Records, subject: string): nat
  {
    if subject in records then records[subject].version else 0
  }

  function LifecycleAfter(op: string): string
  {
    if op == "binding.suspend" then "suspended" else if op == "binding.revoke" then "revoked" else "active"
  }

  /** The record a write leaves behind. */
  function Written(records: Records, r: Request): (rec: Record)
    ensures rec.version == Version(records, r.subject) + 1
  {
    var prior := if r.subject in records then records[r.subject]
                 else Record(r.subject, 0, "active", map[], None, None);
    Record(prior.subject, prior.version + 1, LifecycleAfter(r.op), prior.fields + Fields(r.fields),
           if r.targetHost.Some? then r.targetHost else prior.targetHost,
           if r.agentRole.Some? then r.agentRole else prior.agentRole)
  }

  class BindingStore {
    var records: Records

    constructor ()
      ensures records == map[]
    {
      records := map[];
    }

    method Get(subject: string) returns (rec: Option<Record>)
      ensures rec == if subject in records then Some(records[subject]) else None
    {
      rec := if subject in records then Some(records[subject]) else None;
    }

    method Apply(r: Request) returns (rec: Record)
      modifies this
      ensures rec == Written(old(records), r) && records == old(records)[r.subject := rec]
      ensures rec.version == 1 + if r.subject in old(records) then old(records)[r.subject].version else 0
      ensures rec.lifecycle == if r.op == "binding.suspend" then "suspended"
                               else if r.op == "binding.revoke" then "revoked"
                               else "active"
      ensures forall m <- r.fields :: m.key in rec.fields && rec.fields[m.key] == m.val
      ensures forall key | !exists m <- r.fields :: m.key == key ::
                if r.subject in old(records) && key in old(records)[r.subject].fields then
                  key in rec.fields && rec.fields[key] == old(records)[r.subject].fields[key]
                else key !in rec.fields
      ensures rec.targetHost == if r.targetHost.Some? then r.targetHost
                                else if r.subject in old(records) then old(records)[r.subject].targetHost
                                else None
      ensures rec.agentRole == if r.agentRole.Some? then r.agentRole
                               else if r.subject in old(records) then old(records)[r.subject].agentRole
                               else None
    {
      hide Fields, WellFormed;
      FieldsExact(r.fields);
      rec := if r.subject in records then records[r.subject]
             else Record(r.subject, 0, "active", map[], None, None);
      rec := rec.(fields := rec.fields + Fields(r.fields), version := rec.version + 1);
      if r.targetHost.Some? {
        rec := rec.(targetHost := r.targetHost);
      }
      if r.agentRole.Some? {
        rec := rec.(agentRole := r.agentRole);
      }
      if r.op == "binding.suspend" {
        rec := rec.(lifecycle := "suspended");
      } else if r.op == "binding.revoke" {
        rec := rec.(lifecycle := "revoked");
      } else {
        rec := rec.(lifecycle := "active");
      }
      records := records[r.subject := rec];
    }
  }

  // ----- a record is the history of its subject -------------------------------------------

  /** The store after writes in the order they were applied. */
  function ApplyAll(writes: seq<Request>): Records
  {
    if writes == [] then map[]
    else
      var (before, last) := (ApplyAll(writes[..|writes| - 1]), writes[|writes| - 1]);
      before[last.subject := Written(before, last)]
  }

  /** The writes of one subject. */
  function OfSubject(writes: seq<Request>, subject: string): seq<Request>
  {
    if writes == [] then []
    else
      var last := writes[|writes| - 1];
      OfSubject(writes[..|writes| - 1], subject) + if last.subject == subject then [last] else []
  }

  datatype Part = HostPart | RolePart | FieldPart(name: string)

  function AsJson(s: Option<string>): Option<Json>
  {
    if s.Some? then Some(Str(s.value)) else None
  }

  function Given(r: Request, part: Part): Option<Json>
  {
    match part
    case HostPart => AsJson(r.targetHost)
    case RolePart => AsJson(r.agentRole)
    case FieldPart(name) => if name in Fields(r.fields) then Some(Fields(r.fields)[name]) else None
  }

  function Held(rec: Record, part: Part): Option<Json>
  {
    match part
    case HostPart => AsJson(rec.targetHost)
    case RolePart => AsJson(rec.agentRole)
    case FieldPart(name) => if name in rec.fields then Some(rec.fields[name]) else None
  }

  /** The last value any write gave for one part of the record. */
  function LastGiven(writes: seq<Request>, part: Part): Option<Json>
  {
    if writes == [] then None
    else if Given(writes[|writes| - 1], part).Some? then Given(writes[|writes| - 1], part)
    else LastGiven(writes[..|writes| - 1], part)
  }

  lemma HeldAfter(records: Records, r: Request, part: Part)
    ensures Held(Written(records, r), part) ==
            if Given(r, part).Some? then Given(r, part)
            else if r.subject in records then Held(records[r.subject], part)
            else None
  {
  }

  lemma LastGivenAfter(writes: seq<Request>, r: Request, part: Part)
    ensures LastGiven(writes + [r], part) == if Given(r, part).Some? then Given(r, part) else LastGiven(writes, part)
  {
    assert (writes + [r])[..|writes|] == writes;
  }

  /** A record holds its own subject's writes and no others: as many versions as writes, the lifecycle of
      the last operation, and for host, role and every field the last value given. */
  lemma {:induction false} RecordIsHistory(writes: seq<Request>, subject: string, part: Part)
    ensures var (records, own) := (ApplyAll(writes), OfSubject(writes, subject));
            && Version(records, subject) == |own|
            && (subject in records <==> own != [])
            && (own != [] ==>
                  && records[subject].subject == subject
                  && records[subject].lifecycle == LifecycleAfter(own[|own| - 1].op)
                  && Held(records[subject], part) == LastGiven(own, part))
  {
    hide LastGiven, Held, Given, Written, LifecycleAfter, WellFormed, Fields;
    NoneGiven(part);
    if writes != [] {
      var front, last := writes[..|writes| - 1], writes[|writes| - 1];
      assert writes == front + [last];
      RecordIsHistory(front, subject, part);
      OneMoreWrite(front, last, subject);
      if last.subject == subject {
        HeldAfter(ApplyAll(front), last, part);
        LastGivenAfter(OfSubject(front, subject), last, part);
        WrittenIs(ApplyAll(front), last);
      }
    }
  }

  lemma WrittenIs(records: Records, r: Request)
    ensures var rec := Written(records, r);
            && rec.version == Version(records, r.subject) + 1 && rec.lifecycle == LifecycleAfter(r.op)
            && rec.subject == if r.subject in records then records[r.subject].subject else r.subject
  {
  }

  lemma OneMoreWrite(front: seq<Request>, last: Request, subject: string)
    ensures ApplyAll(front + [last]) == ApplyAll(front)[last.subject := Written(ApplyAll(front), last)]
    ensures OfSubject(front + [last], subject)
         == if last.subject == subject then OfSubject(front, subject) + [last] else OfSubject(front, subject)
  {
    assert (front + [last])[..|front|] == front;
  }

  /** Write `i` gives the part this value, and no later one gives it any. */
  ghost predicate GivenLastAt(writes: seq<Request>, part: Part, v: Json, i: nat)
  {
    i < |writes| && Given(writes[i], part) == Some(v) && forall j :: i < j < |writes| ==> Given(writes[j], part) == None
  }

  lemma {:induction false} LastGivenIs(writes: seq<Request>, part: Part, v: Json)
    ensures LastGiven(writes, part) == Some(v) <==> exists i: nat :: GivenLastAt(writes, part, v, i)
  {
    hide Given, GivenLastAt;
    if writes == [] {
      NothingGivenLast(part, v);
    } else {
      var n := |writes| - 1;
      var front := writes[..n];
      LastGivenIs(front, part, v);
      if Given(writes[n], part) == None {
        if i: nat :| GivenLastAt(front, part, v, i) {
          SilentLast(writes, part, v, i);
        }
        if i: nat :| GivenLastAt(writes, part, v, i) {
          SilentLast(writes, part, v, i);
        }
      } else {
        GivingLast(writes, part, v);
      }
    }
  }

  lemma NothingGivenLast(part: Part, v: Json)
    ensures !exists i: nat :: GivenLastAt([], part, v, i)
  {
  }

  lemma SilentLast(writes: seq<Request>, part: Part, v: Json, i: nat)
    requires writes != [] && Given(writes[|writes| - 1], part) == None
    ensures GivenLastAt(writes, part, v, i) <==> GivenLastAt(writes[..|writes| - 1], part, v, i)
  {
    hide Given;
  }

  lemma GivingLast(writes: seq<Request>, part: Part, v: Json)
    requires writes != [] && Given(writes[|writes| - 1], part) != None
    ensures (exists i: nat :: GivenLastAt(writes, part, v, i)) <==> Given(writes[|writes| - 1], part) == Some(v)
  {
    hide Given;
    var n := |writes| - 1;
    assert forall i: nat :: GivenLastAt(writes, part, v, i) ==> i == n;
    assert GivenLastAt(writes, part, v, n) <==> Given(writes[n], part) == Some(v);
  }

  ghost predicate LastHost(writes: seq<Request>, host: string, i: nat)
  {
    i < |writes| && writes[i].targetHost == Some(host) && forall j :: i < j < |writes| ==> writes[j].targetHost == None
  }

  ghost predicate HostFrom(writes: seq<Request>, host: string)
  {
    exists i: nat :: LastHost(writes, host, i)
  }

  ghost predicate LastRole(writes: seq<Request>, role: string, i: nat)
  {
    i < |writes| && writes[i].agentRole == Some(role) && forall j :: i < j < |writes| ==> writes[j].agentRole == None
  }

  ghost predicate RoleFrom(writes: seq<Request>, role: string)
  {
    exists i: nat :: LastRole(writes, role, i)
  }

  ghost predicate LastField(writes: seq<Request>, name: string, v: Json, i: nat)
  {
    i < |writes| && Member(name, v) in writes[i].fields
    && forall j :: i < j < |writes| ==> !GivesField(writes[j], name)
  }

  ghost predicate FieldFrom(writes: seq<Request>, name: string, v: Json)
  {
    exists i: nat :: LastField(writes, name, v, i)
  }

  ghost predicate GivesField(r: Request, name: string)
  {
    exists m <- r.fields :: m.key == name
  }

  lemma FieldGiven(r: Request, name: string, v: Json)
    ensures Given(r, FieldPart(name)) == Some(v) <==> Member(name, v) in r.fields
    ensures Given(r, FieldPart(name)) == None <==> !GivesField(r, name)
  {
    hide Fields, WellFormed;
    FieldsExact(r.fields);
    if name in Fields(r.fields) {
      var m :| m in r.fields && m.key == name;
      assert m == Member(name, Fields(r.fields)[name]);
    }
  }

  lemma {:induction false} FieldHistory(writes: seq<Request>, name: string, v: Json)
    ensures LastGiven(writes, FieldPart(name)) == Some(v) <==> FieldFrom(writes, name, v)
  {
    hide Given, LastGiven, GivesField, WellFormed;
    LastGivenIs(writes, FieldPart(name), v);
    forall i: nat ensures GivenLastAt(writes, FieldPart(name), v, i) <==> LastField(writes, name, v, i) {
      forall j | 0 <= j < |writes| {
        FieldGiven(writes[j], name, v);
      }
    }
  }

  lemma {:induction false} HostHistory(writes: seq<Request>, host: string)
    ensures LastGiven(writes, HostPart) == Some(Str(host)) <==> HostFrom(writes, host)
  {
    hide LastGiven, WellFormed;
    LastGivenIs(writes, HostPart, Str(host));
    forall i: nat ensures GivenLastAt(writes, HostPart, Str(host), i) <==> LastHost(writes, host, i) {
    }
  }

  lemma {:induction false} RoleHistory(writes: seq<Request>, role: string)
    ensures LastGiven(writes, RolePart) == Some(Str(role)) <==> RoleFrom(writes, role)
  {
    hide LastGiven, WellFormed;
    LastGivenIs(writes, RolePart, Str(role));
    forall i: nat ensures GivenLastAt(writes, RolePart, Str(role), i) <==> LastRole(writes, role, i) {
    }
  }

  /** A record in terms of the requests: it exists exactly when its subject was written, has as many versions as
      writes and the lifecycle its last operation sets, and holds for host, role and every field exactly what
      the last request to give it gave. */
  lemma {:induction false} RecordIsWrites(writes: seq<Request>, subject: string)
    ensures var own := OfSubject(writes, subject);
            && (subject in ApplyAll(writes) <==> own != [])
            && (own != [] ==>
                  var (rec, op) := (ApplyAll(writes)[subject], own[|own| - 1].op);
                  && rec.subject == subject && rec.version == |own|
                  && rec.lifecycle == (if op == "binding.suspend" then "suspended"
                                       else if op == "binding.revoke" then "revoked"
                                       else "active")
                  && (forall host :: rec.targetHost == Some(host) <==> HostFrom(own, host))
                  && (forall role :: rec.agentRole == Some(role) <==> RoleFrom(own, role))
                  && (forall name, v :: name in rec.fields && rec.fields[name] == v
                                        <==> FieldFrom(own, name, v)))
  {
    hide WellFormed, ApplyAll, OfSubject, LastGiven, HostFrom, RoleFrom, FieldFrom;
    var own := OfSubject(writes, subject);
    RecordIsHistory(writes, subject, HostPart);
    RecordIsHistory(writes, subject, RolePart);
    if own != [] {
      var rec := ApplyAll(writes)[subject];
      forall host ensures rec.targetHost == Some(host) <==> HostFrom(own, host) {
        HostHistory(own, host);
      }
      forall role ensures rec.agentRole == Some(role) <==> RoleFrom(own, role) {
        RoleHistory(own, role);
      }
      forall name, v ensures name in rec.fields && rec.fields[name] == v <==> FieldFrom(own, name, v) {
        RecordIsHistory(writes, subject, FieldPart(name));
        FieldHistory(own, name, v);
      }
    }
  }

  lemma NoneGiven(part: Part)
    ensures LastGiven([], part) == None
  {
  }

  datatype Refusal = SignatureInvalid | NonceReplayed | Violated | Indeterminate | UnknownVerdict

  datatype Applied = Applied(record: Record, leafIndex: int, treeSize: nat, root: Digest)

  /** Where a request stops when nothing else runs, if it does. */
  function Refused(seen: set<NonceKey>, r: Request, authentic: bool, status: string): Option<Refusal>
  {
    if !authentic then Some(SignatureInvalid)
    else if KeyOf(r) in seen then Some(NonceReplayed)
    else if status == "VIOLATED" then Some(Violated)
    else if status == "INDETERMINATE" then Some(Indeterminate)
    else if status != "SATISFIED" then Some(UnknownVerdict)
    else None
  }

  /** Bytes, the DID that signed them, and the signature. */
  type Authenticator = (Bytes, string, string) -> bool

  /** Grant, request, instant and DID, to a status. */
  type Authorizer = (Dict, WriteRequest, string, string) -> string

  function IsAuthentic(authenticate: Authenticator, r: Request): bool
  {
    authenticate(CanonicalPayload(r), r.storeDid, r.storeSignature)
  }

  function Verdict(authorize: Authorizer, r: Request): string
  {
    authorize(r.grant, WriteRequestOf(r), r.issuedAt, r.storeDid)
  }

  class WriteRouter {
    const store: BindingStore
    const log: MerkleLog
    var seen: set<NonceKey>

    constructor (store: BindingStore, log: MerkleLog)
      ensures this.store == store && this.log == log && seen == {}
    {
      this.store, this.log, seen := store, log, {};
    }

    /** `write_binding` with no other request in flight. A refused request writes nothing, and from the nonce
        gate on it has used up its nonce; an applied one is the log's last leaf, under the returned root. */
    method WriteBinding(r: Request, authenticate: Authenticator, authorize: Authorizer)
      returns (result: Result<Applied, Refusal>)
      requires log.Valid()
      modifies this`seen, store, log
      ensures log.Valid()
      ensures seen == if IsAuthentic(authenticate, r) then old(seen) + {KeyOf(r)} else old(seen)
      ensures match Refused(old(seen), r, IsAuthentic(authenticate, r), Verdict(authorize, r))
              case Some(refusal) =>
                result == Failure(refusal) && store.records == old(store.records) && log.entries == old(log.entries)
              case None =>
                var record := Written(old(store.records), r);
                && store.records == old(store.records)[r.subject := record]
                && log.entries == old(log.entries) + [CanonicalLogEntry(EntryOf(r, record.version))]
                && result == Success(Applied(record, |old(log.entries)|, |log.entries|, MerkleRoot(log.h, log.leaves)))
      ensures var authentic := authenticate(CanonicalPayload(r), r.storeDid, r.storeSignature);
              var unused := (r.storeDid, r.nonce) !in old(seen);
              var status := authorize(r.grant, WriteRequest(r.op, r.subject, FieldNames(r.fields), r.targetHost, r.agentRole),
                                      r.issuedAt, r.storeDid);
              && (result == Failure(SignatureInvalid) <==> !authentic)
              && (result == Failure(NonceReplayed) <==> authentic && !unused)
              && (result == Failure(Violated) <==> authentic && unused && status == "VIOLATED")
              && (result == Failure(Indeterminate) <==> authentic && unused && status == "INDETERMINATE")
              && (result == Failure(UnknownVerdict) <==>
                    authentic && unused && status !in {"VIOLATED", "INDETERMINATE", "SATISFIED"})
              && (result.Success? <==> authentic && unused && status == "SATISFIED")
              && (forall did, nonce :: (did, nonce) in seen <==>
                    (did, nonce) in old(seen) || (authentic && did == r.storeDid && nonce == r.nonce))
    {
      hide WellFormed, MerkleRoot, CanonicalPayload, CanonicalLogEntry, EntryOf, Written, FieldNames;
      if !authenticate(CanonicalPayload(r), r.storeDid, r.storeSignature) {
        return Failure(SignatureInvalid);
      }
      var key := KeyOf(r);
      if key in seen {
        assert seen == seen + {key};
        return Failure(NonceReplayed);
      }
      seen := seen + {key};
      var status := authorize(r.grant, WriteRequestOf(r), r.issuedAt, r.storeDid);
      if status == "VIOLATED" { return Failure(Violated); }
      if status == "INDETERMINATE" { return Failure(Indeterminate); }
      if status != "SATISFIED" { return Failure(UnknownVerdict); }
      var record := store.Apply(r);
      var size := log.Append(CanonicalLogEntry(EntryOf(r, record.version)));
      var root := log.Root();
      return Success(Applied(record, size - 1, size, root));
    }
  }
}
