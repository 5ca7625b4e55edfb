/** What a binding write says, and the bytes it is signed and logged as (sm_bridge/binding_write.py). */
module BindingRequests {
  import opened ByteStrings
  import opened Wrappers
  import opened Unicode
  import opened CanonicalJson
  import opened JsonReader
  import opened JsonEquality

  /** A Python dictionary of JSON values, in insertion order. */
  type Dict = ms: seq<Member> | WellFormed(Obj(ms)) witness []

  type Value = v: Json | WellFormed(v) witness Null

  datatype Request = Request(
    grant: Dict, op: string, subject: string, fields: Dict, targetHost: Option<string>, agentRole: Option<string>,
    issuedAt: string, nonce: string, storeDid: string, storeSignature: string)

  /** The leaf of the transparency log for an applied write. */
  datatype Entry = Entry(op: string, subject: string, fieldNames: seq<string>, storeDid: string, grantId: Value,
                         issuedAt: string, nonce: string, version: nat)

  /** What the authorizer is asked about. */
  datatype WriteRequest = WriteRequest(category: string, subject: string, fieldNames: seq<string>,
                                       targetHost: Option<string>, agentRole: Option<string>)

  /** `d.get(key)`. */
  function Lookup(d: Dict, key: string): (v: Value)
  {
    if d == [] then Null
    else
      assert WellFormed(d[0].val);
      if d[0].key == key then d[0].val else Rest(d); Lookup(d[1..], key)
  }

  lemma Rest(d: Dict)
    requires d != []
    ensures WellFormed(Obj(d[1..]))
  {
  }

  predicate Falsy(v: Json)
  {
    v == Null || v == Bool(false) || v == Int(0) || v == Str("") || v == Arr([]) || v == Obj([])
  }

  /** `v or ""`. */
  function OrEmpty(v: Value): (w: Value)
  {
    if Falsy(v) then Str("") else v
  }

  function OrNull(s: Option<string>): Value
  {
    if s.Some? then Str(s.value) else Null
  }

  function GrantId(r: Request): Value
  {
    Lookup(r.grant, "grant_id")
  }

  /** `sorted(fields.keys())`. */
  function FieldNames(fields: Dict): seq<string>
  {
    var sorted := Sort(Dumps, fields);
    seq(|sorted|, i requires 0 <= i < |sorted| => sorted[i].key)
  }

  function EntryOf(r: Request, version: nat): Entry
  {
    Entry(r.op, r.subject, FieldNames(r.fields), r.storeDid, GrantId(r), r.issuedAt, r.nonce, version)
  }

  function WriteRequestOf(r: Request): WriteRequest
  {
    WriteRequest(r.op, r.subject, FieldNames(r.fields), r.targetHost, r.agentRole)
  }

  // ----- the signed bytes and the logged bytes --------------------------------------------

  function PayloadMembers(r: Request): (ms: seq<Member>)
    ensures |ms| == 8
  {
    [Member("grant_id", OrEmpty(GrantId(r))), Member("op", Str(r.op)), Member("subject", Str(r.subject)),
     Member("fields", Obj(r.fields)), Member("target_host", OrNull(r.targetHost)),
     Member("agent_role", OrNull(r.agentRole)), Member("issued_at", Str(r.issuedAt)), Member("nonce", Str(r.nonce))]
  }

  function CanonicalPayload(r: Request): Bytes
  {
    Canonical(Dumps, Obj(PayloadMembers(r)))
  }

  function Names(names: seq<string>): (v: Value)
  {
    var items := seq(|names|, i requires 0 <= i < |names| => Str(names[i]));
    assert forall i :: 0 <= i < |items| ==> WellFormed(items[i]);
    Arr(items)
  }

  function EntryMembers(e: Entry): (ms: seq<Member>)
    ensures |ms| == 8
  {
    [Member("op", Str(e.op)), Member("subject", Str(e.subject)), Member("fields", Names(e.fieldNames)),
     Member("store_did", Str(e.storeDid)), Member("grant_id", e.grantId), Member("issued_at", Str(e.issuedAt)),
     Member("nonce", Str(e.nonce)), Member("version", Int(e.version))]
  }

  function CanonicalLogEntry(e: Entry): Bytes
  {
    Canonical(Dumps, Obj(EntryMembers(e)))
  }

  lemma PayloadWellFormed(r: Request)
    ensures WellFormed(Obj(PayloadMembers(r)))
  {
    hide WellFormed, OrEmpty, GrantId;
    var ms := PayloadMembers(r);
    PlainText();
    assert Distinct(ms);
    WellFormedObject(ms);
  }

  lemma EntryWellFormed(e: Entry)
    ensures WellFormed(Obj(EntryMembers(e)))
  {
    hide WellFormed, Names;
    var ms := EntryMembers(e);
    PlainText();
    assert ms[0].key[0] != ms[1].key[0] && ms[1].key[0] != ms[7].key[0] && ms[3].key[0] != ms[5].key[0];
    assert Distinct(ms);
    WellFormedObject(ms);
  }

  lemma PlainText()
    ensures forall s: string :: WellFormed(Str(s))
    ensures forall n: int :: WellFormed(Int(n))
    ensures WellFormed(Null)
  {
  }

  lemma WellFormedObject(ms: seq<Member>)
    requires Distinct(ms) && forall i :: 0 <= i < |ms| ==> WellFormed(ms[i].val)
    ensures WellFormed(Obj(ms))
  {
  }

  /** Objects with the same keys in the same places are equal exactly when their values are. */
  lemma EqualByKeys(a: seq<Member>, b: seq<Member>)
    requires |a| == |b| && Distinct(b) && forall i :: 0 <= i < |a| ==> a[i].key == b[i].key
    ensures Equal(Obj(a), Obj(b)) <==> forall i :: 0 <= i < |a| ==> Equal(a[i].val, b[i].val)
  {
    hide Equal, MembersMatch;
    EqualObjects(a, b);
    if MembersMatch(a, b) {
      forall i | 0 <= i < |a| ensures Equal(a[i].val, b[i].val) {
        EqualAtKey(a, b, a[i], b[i]);
      }
    }
    if forall i :: 0 <= i < |a| ==> Equal(a[i].val, b[i].val) {
      MatchInPlace(a, b);
    }
  }

  lemma MatchInPlace(a: seq<Member>, b: seq<Member>)
    requires |a| == |b| && forall i :: 0 <= i < |a| ==> EqualMember(a[i], b[i])
    ensures MembersMatch(a, b)
  {
    hide EqualMember;
  }

  lemma EqualText(s: string, t: string)
    ensures Equal(Str(s), Str(t)) <==> s == t
  {
  }

  lemma EqualOptional(s: Option<string>, t: Option<string>)
    ensures Equal(OrNull(s), OrNull(t)) <==> s == t
  {
  }

  lemma EqualNames(a: seq<string>, b: seq<string>)
    ensures Equal(Names(a), Names(b)) <==> a == b
  {
    if Equal(Names(a), Names(b)) {
      forall i | 0 <= i < |a| ensures a[i] == b[i] {
        assert Equal(Names(a).items[i], Names(b).items[i]);
      }
    }
  }

  /** Two writes have the same bytes to sign exactly when they agree on operation, subject, fields (as a
      dictionary), host, role, instant and nonce, and on the grant's id with all falsy ids taken as "". */
  lemma {:induction false} PayloadExact(r: Request, q: Request)
    ensures CanonicalPayload(r) == CanonicalPayload(q) <==>
            && r.op == q.op && r.subject == q.subject && Equal(Obj(r.fields), Obj(q.fields))
            && r.targetHost == q.targetHost && r.agentRole == q.agentRole
            && r.issuedAt == q.issuedAt && r.nonce == q.nonce
            && Equal(OrEmpty(GrantId(r)), OrEmpty(GrantId(q)))
  {
    hide Canonical, WellFormed, Equal, OrEmpty, OrNull, GrantId;
    var a, b := PayloadMembers(r), PayloadMembers(q);
    PayloadWellFormed(r);
    PayloadWellFormed(q);
    CanonicalExact(Dumps, Obj(a), Obj(b));
    DistinctMembers(b);
    EqualByKeys(a, b);
    EightValues(a, b);
    EqualText(r.op, q.op);
    EqualText(r.subject, q.subject);
    EqualOptional(r.targetHost, q.targetHost);
    EqualOptional(r.agentRole, q.agentRole);
    EqualText(r.issuedAt, q.issuedAt);
    EqualText(r.nonce, q.nonce);
  }

  lemma DistinctMembers(ms: seq<Member>)
    requires WellFormed(Obj(ms))
    ensures Distinct(ms)
  {
  }

  lemma EightValues(a: seq<Member>, b: seq<Member>)
    requires |a| == |b| == 8
    ensures (forall i :: 0 <= i < |a| ==> Equal(a[i].val, b[i].val)) <==>
            && Equal(a[0].val, b[0].val) && Equal(a[1].val, b[1].val) && Equal(a[2].val, b[2].val)
            && Equal(a[3].val, b[3].val) && Equal(a[4].val, b[4].val) && Equal(a[5].val, b[5].val)
            && Equal(a[6].val, b[6].val) && Equal(a[7].val, b[7].val)
  {
    hide Equal;
  }

  /** Two log entries have the same leaf bytes exactly when they are the same entry. */
  lemma {:induction false} LogEntryExact(e: Entry, f: Entry)
    ensures CanonicalLogEntry(e) == CanonicalLogEntry(f) <==>
            e.(grantId := f.grantId) == f && Equal(e.grantId, f.grantId)
  {
    hide Canonical, WellFormed, Equal, Names;
    var a, b := EntryMembers(e), EntryMembers(f);
    EntryWellFormed(e);
    EntryWellFormed(f);
    CanonicalExact(Dumps, Obj(a), Obj(b));
    DistinctMembers(b);
    EqualByKeys(a, b);
    EightValues(a, b);
    EqualText(e.op, f.op);
    EqualText(e.subject, f.subject);
    EqualNames(e.fieldNames, f.fieldNames);
    EqualText(e.storeDid, f.storeDid);
    EqualText(e.issuedAt, f.issuedAt);
    EqualText(e.nonce, f.nonce);
    EqualNumbers(e.version, f.version);
  }

  lemma EqualNumbers(m: int, n: int)
    ensures Equal(Int(m), Int(n)) <==> m == n
  {
  }

  // ----- what the bytes hold --------------------------------------------------------------

  lemma {:induction false} LookupIs(d: Dict, key: string)
    ensures forall v :: Member(key, v) in d ==> Lookup(d, key) == v
    ensures (forall m <- d :: m.key != key) ==> Lookup(d, key) == Null
  {
    if d != [] {
      Rest(d);
      LookupIs(d[1..], key);
      FirstOrRest(d);
    }
  }

  lemma FirstOrRest(d: Dict)
    requires d != []
    ensures forall m :: m in d <==> m == d[0] || m in d[1..]
    ensures forall m <- d[1..] :: m.key != d[0].key
  {
    assert d == [d[0]] + d[1..];
  }

  /** The grant id of a write: what the grant has under "grant_id", or null; and "" for a falsy one in the bytes
      to sign. */
  lemma GrantIdIs(r: Request)
    ensures forall v :: Member("grant_id", v) in r.grant ==> GrantId(r) == v
    ensures (forall m <- r.grant :: m.key != "grant_id") ==> GrantId(r) == Null
    ensures OrEmpty(GrantId(r)) == if GrantId(r) in {Null, Bool(false), Int(0), Str(""), Arr([]), Obj([])} then Str("")
                                   else GrantId(r)
  {
    hide Lookup;
    LookupIs(r.grant, "grant_id");
  }

  /** The names are exactly the keys, in strictly ascending order of code points. */
  lemma {:induction false} FieldNamesExact(fields: Dict)
    ensures forall name :: name in FieldNames(fields) <==> exists m <- fields :: m.key == name
    ensures forall i, j :: 0 <= i < j < |FieldNames(fields)| ==>
              Precedes(CodePoints(FieldNames(fields)[i]), CodePoints(FieldNames(fields)[j]))
  {
    hide Sort, Less, Precedes;
    var sorted := Sort(Dumps, fields);
    SortSorted(Dumps, fields);
    forall i, j | 0 <= i < j < |sorted| ensures Precedes(CodePoints(sorted[i].key), CodePoints(sorted[j].key)) {
      KeyOrder(Dumps, sorted[i].key, sorted[j].key);
    }
    forall m | m in fields ensures m.key in FieldNames(fields) {
      assert m in sorted;
      var i :| 0 <= i < |sorted| && sorted[i] == m;
      assert FieldNames(fields)[i] == m.key;
    }
    forall name | name in FieldNames(fields) ensures exists m <- fields :: m.key == name {
      var i :| 0 <= i < |sorted| && FieldNames(fields)[i] == name;
      assert sorted[i] in sorted;
    }
  }

  /** The bytes a delegate signs are a JSON object of these eight members. */
  lemma {:induction false} PayloadIs(r: Request)
    ensures var text := DecodeUtf8(CanonicalPayload(r));
            && text.Some?
            && var read := ReadText(text.value);
               read.Some? && Equal(read.value, Obj(PayloadMembers(r))) && Ordered(Dumps, read.value)
    ensures var ms := PayloadMembers(r);
            && |ms| == 8
            && Member("grant_id", OrEmpty(GrantId(r))) in ms && Member("op", Str(r.op)) in ms
            && Member("subject", Str(r.subject)) in ms && Member("fields", Obj(r.fields)) in ms
            && Member("target_host", if r.targetHost.Some? then Str(r.targetHost.value) else Null) in ms
            && Member("agent_role", if r.agentRole.Some? then Str(r.agentRole.value) else Null) in ms
            && Member("issued_at", Str(r.issuedAt)) in ms && Member("nonce", Str(r.nonce)) in ms
  {
    hide Canonical, DecodeUtf8, ReadText, Equal, Ordered, WellFormed, OrEmpty, GrantId;
    PayloadWellFormed(r);
    CanonicalIsJson(Dumps, Obj(PayloadMembers(r)));
  }

  /** The leaf of an applied write is a JSON object of these eight members. */
  lemma {:induction false} LogEntryIs(r: Request, version: nat)
    ensures var text := DecodeUtf8(CanonicalLogEntry(EntryOf(r, version)));
            && text.Some?
            && var read := ReadText(text.value);
               read.Some? && Equal(read.value, Obj(EntryMembers(EntryOf(r, version)))) && Ordered(Dumps, read.value)
    ensures var ms := EntryMembers(EntryOf(r, version));
            && |ms| == 8
            && Member("op", Str(r.op)) in ms && Member("subject", Str(r.subject)) in ms
            && Member("fields", Names(FieldNames(r.fields))) in ms && Member("store_did", Str(r.storeDid)) in ms
            && Member("grant_id", GrantId(r)) in ms && Member("issued_at", Str(r.issuedAt)) in ms
            && Member("nonce", Str(r.nonce)) in ms && Member("version", Int(version)) in ms
    ensures Names(FieldNames(r.fields)) == Arr(seq(|FieldNames(r.fields)|,
              i requires 0 <= i < |FieldNames(r.fields)| => Str(FieldNames(r.fields)[i])))
  {
    hide Canonical, DecodeUtf8, ReadText, Equal, Ordered, WellFormed, FieldNames, GrantId;
    EntryWellFormed(EntryOf(r, version));
    CanonicalIsJson(Dumps, Obj(EntryMembers(EntryOf(r, version))));
  }
}
