/**
 The canonical JSON serializers: `_ser` of sm_bridge/trust/delegation.py (`Utf16`), `_canonical_str` of
 sm_bridge/trust/ed25519_agentcard.py (`CodePoint`), and the `json.dumps` of sm_bridge/binding_write.py
 (`Dumps`). Sections 3.2.2 and 3.2.3 of RFC 8785. An object is a list of members, so that their order is
 there to be forgotten.
 */
module CanonicalJson {
  import opened ByteStrings
  import opened Unicode
  import opened JsonText

  datatype Json =
    | Null
    | Bool(b: bool)
    | Int(n: int)
    | Str(s: string)
    | Arr(items: seq<Json>)
    | Obj(members: seq<Member>)

  datatype Member = Member(key: string, val: Json)

  /** Python dictionaries have distinct keys. */
  ghost predicate WellFormed(v: Json)
  {
    match v
    case Arr(items) => forall i :: 0 <= i < |items| ==> WellFormed(items[i])
    case Obj(ms) => Distinct(ms) && forall i :: 0 <= i < |ms| ==> WellFormed(ms[i].val)
    case _ => true
  }

  ghost predicate Distinct(ms: seq<Member>)
  {
    forall i, j :: 0 <= i < j < |ms| ==> ms[i].key != ms[j].key
  }

  // ----- sorting members ------------------------------------------------------------------

  ghost function Size(v: Json): nat
  {
    match v
    case Arr(items) => 1 + SizeOfItems(items)
    case Obj(ms) => 1 + SizeOfMembers(ms)
    case _ => 1
  }

  ghost function SizeOfItems(items: seq<Json>): nat
  {
    if items == [] then 0 else 1 + Size(items[0]) + SizeOfItems(items[1..])
  }

  ghost function SizeOfMembers(ms: seq<Member>): nat
  {
    if ms == [] then 0 else 1 + Size(ms[0].val) + SizeOfMembers(ms[1..])
  }

  function Insert(o: Serializer, m: Member, ms: seq<Member>): (r: seq<Member>)
    ensures |r| == |ms| + 1 && forall x :: x in r <==> x == m || x in ms
    ensures SizeOfMembers(r) == 1 + Size(m.val) + SizeOfMembers(ms)
  {
    if ms == [] || !Less(o, ms[0].key, m.key) then
      assert ([m] + ms)[1..] == ms;
      [m] + ms
    else
      assert ms == [ms[0]] + ms[1..];
      var rest := Insert(o, m, ms[1..]);
      assert ([ms[0]] + rest)[1..] == rest;
      [ms[0]] + rest
  }

  /** `sorted(items, key=...)`. */
  function Sort(o: Serializer, ms: seq<Member>): (r: seq<Member>)
    ensures |r| == |ms| && (forall x :: x in r <==> x in ms) && SizeOfMembers(r) == SizeOfMembers(ms)
  {
    if ms == [] then []
    else
      assert ms == [ms[0]] + ms[1..];
      Insert(o, ms[0], Sort(o, ms[1..]))
  }

  function QuotingOf(o: Serializer): Quoting
  {
    if o.Dumps? then Ascii else Raw
  }

  // ----- serializing ----------------------------------------------------------------------

  function Ser(o: Serializer, v: Json): string
    decreases Size(v), 1
  {
    match v
    case Null => "null"
    case Bool(b) => if b then "true" else "false"
    case Int(n) => IntText(n)
    case Str(s) => Quote(QuotingOf(o), s)
    case Arr(items) => "[" + JoinItems(o, items) + "]"
    case Obj(ms) => "{" + JoinMembers(o, Sort(o, ms)) + "}"
  }

  /** `",".join(_ser(x) for x in items)`. */
  function JoinItems(o: Serializer, items: seq<Json>): string
    decreases SizeOfItems(items), 0
  {
    if items == [] then ""
    else if |items| == 1 then Ser(o, items[0])
    else Ser(o, items[0]) + "," + JoinItems(o, items[1..])
  }

  function SerMember(o: Serializer, m: Member): string
    decreases Size(m.val), 2
  {
    Quote(QuotingOf(o), m.key) + ":" + Ser(o, m.val)
  }

  function JoinMembers(o: Serializer, ms: seq<Member>): string
    decreases SizeOfMembers(ms), 0
  {
    if ms == [] then ""
    else if |ms| == 1 then SerMember(o, ms[0])
    else SerMember(o, ms[0]) + "," + JoinMembers(o, ms[1..])
  }

  /** `jcs_canonical`, and `canonicalize`. */
  function Canonical(o: Serializer, v: Json): Bytes
  {
    Utf8(Ser(o, v))
  }

  // ----- what a text stands for -----------------------------------------------------------

  /** The value with the members of every object in printing order. */
  function Sorted(o: Serializer, v: Json): Json
    decreases Size(v), 1
  {
    match v
    case Arr(items) => Arr(SortedItems(o, items))
    case Obj(ms) => Obj(SortedMembers(o, Sort(o, ms)))
    case _ => v
  }

  function SortedItems(o: Serializer, items: seq<Json>): (r: seq<Json>)
    ensures |r| == |items|
    decreases SizeOfItems(items), 0
  {
    if items == [] then [] else [Sorted(o, items[0])] + SortedItems(o, items[1..])
  }

  function SortedMembers(o: Serializer, ms: seq<Member>): (r: seq<Member>)
    ensures |r| == |ms|
    decreases SizeOfMembers(ms), 0
  {
    if ms == [] then [] else [Member(ms[0].key, Sorted(o, ms[0].val))] + SortedMembers(o, ms[1..])
  }

  /** The same values in the same printed places. */
  ghost predicate SamePrint(o: Serializer, v: Json, p: Serializer, w: Json)
  {
    Sorted(o, v) == Sorted(p, w)
  }

  ghost predicate SameItems(o: Serializer, a: seq<Json>, p: Serializer, b: seq<Json>)
  {
    SortedItems(o, a) == SortedItems(p, b)
  }

  ghost predicate SameMembers(o: Serializer, a: seq<Member>, p: Serializer, b: seq<Member>)
  {
    SortedMembers(o, a) == SortedMembers(p, b)
  }
}
