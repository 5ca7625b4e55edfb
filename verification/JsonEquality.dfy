/** Which values share a canonical form, and on which values the two serializers agree. */
module JsonEquality {
  import opened Unicode
  import opened CanonicalJson
  import opened JsonReader
  import Base64

  /** Equality of values, objects taken as maps from keys to values. */
  ghost predicate Equal(v: Json, w: Json)
  {
    match v
    case Arr(items) =>
      w.Arr? && |items| == |w.items| && forall i :: 0 <= i < |items| ==> Equal(items[i], w.items[i])
    case Obj(ms) =>
      && w.Obj?
      && (forall m <- ms :: exists n <- w.members :: EqualMember(m, n))
      && (forall n <- w.members :: exists m <- ms :: EqualMember(m, n))
    case _ => v == w
  }

  ghost predicate EqualMember(m: Member, n: Member)
  {
    m.key == n.key && Equal(m.val, n.val)
  }

  /** Every member of either object has an equal one in the other. */
  ghost predicate MembersMatch(a: seq<Member>, b: seq<Member>)
  {
    (forall m <- a :: exists n <- b :: EqualMember(m, n)) && forall n <- b :: exists m <- a :: EqualMember(m, n)
  }

  lemma EqualObjects(a: seq<Member>, b: seq<Member>)
    ensures Equal(Obj(a), Obj(b)) <==> MembersMatch(a, b)
  {
  }

  // ----- sorted members -------------------------------------------------------------------

  ghost predicate SortedBy(o: Serializer, ms: seq<Member>)
  {
    forall i, j :: 0 <= i < j < |ms| ==> Less(o, ms[i].key, ms[j].key)
  }

  ghost predicate HasKey(ms: seq<Member>, key: string)
  {
    exists i :: 0 <= i < |ms| && ms[i].key == key
  }

  lemma LessTotal(o: Serializer, s: string, t: string)
    ensures s == t || Less(o, s, t) || Less(o, t, s)
    ensures !(Less(o, s, t) && Less(o, t, s)) && !Less(o, s, s)
  {
    LexTotal(Key(o, s), Key(o, t));
    LexTotal(Key(o, s), Key(o, s));
    if Key(o, s) == Key(o, t) {
      KeyInjective(o, s, t);
    }
  }

  lemma LessTransitive(o: Serializer, s: string, t: string, u: string)
    requires Less(o, s, t) && Less(o, t, u)
    ensures Less(o, s, u)
  {
    LexTransitive(Key(o, s), Key(o, t), Key(o, u));
  }

  lemma {:induction false} InsertSorted(o: Serializer, m: Member, ms: seq<Member>)
    requires SortedBy(o, ms) && forall i :: 0 <= i < |ms| ==> ms[i].key != m.key
    ensures SortedBy(o, Insert(o, m, ms))
  {
    hide Less;
    if ms != [] {
      LessTotal(o, m.key, ms[0].key);
      if Less(o, ms[0].key, m.key) {
        var rest := Insert(o, m, ms[1..]);
        InsertSorted(o, m, ms[1..]);
        forall j | 0 <= j < |rest| ensures Less(o, ms[0].key, rest[j].key) {
          assert rest[j] == m || rest[j] in ms[1..];
        }
      } else {
        forall j | 0 <= j < |ms| ensures Less(o, m.key, ms[j].key) {
          if j > 0 {
            LessTransitive(o, m.key, ms[0].key, ms[j].key);
          }
        }
      }
    }
  }

  lemma {:induction false} SortSorted(o: Serializer, ms: seq<Member>)
    requires Distinct(ms)
    ensures SortedBy(o, Sort(o, ms))
  {
    if ms != [] {
      SortSorted(o, ms[1..]);
      var rest := Sort(o, ms[1..]);
      forall i | 0 <= i < |rest| ensures rest[i].key != ms[0].key {
        assert rest[i] in ms[1..];
      }
      InsertSorted(o, ms[0], rest);
    }
  }

  /** A strictly sorted sequence is determined by its keys. */
  lemma {:induction false} SortedKeysUnique(o: Serializer, a: seq<Member>, b: seq<Member>)
    requires SortedBy(o, a) && SortedBy(o, b)
    requires forall key :: HasKey(a, key) <==> HasKey(b, key)
    ensures |a| == |b| && forall i :: 0 <= i < |a| ==> a[i].key == b[i].key
    decreases |a|
  {
    hide Less;
    HasFirstKey(a);
    HasFirstKey(b);
    if a != [] {
      var j :| 0 <= j < |b| && b[j].key == a[0].key;
      var i :| 0 <= i < |a| && a[i].key == b[0].key;
      LessTotal(o, a[0].key, b[0].key);
      assert a[0].key == b[0].key;
      forall key ensures HasKey(a[1..], key) <==> HasKey(b[1..], key) {
        TailKeys(o, a, key);
        TailKeys(o, b, key);
      }
      SortedKeysUnique(o, a[1..], b[1..]);
      forall n | 0 <= n < |a| ensures a[n].key == b[n].key {
        if n > 0 {
          assert a[n] == a[1..][n - 1] && b[n] == b[1..][n - 1];
        }
      }
    }
  }

  lemma HasFirstKey(a: seq<Member>)
    ensures a != [] ==> HasKey(a, a[0].key)
  {
  }

  lemma TailKeys(o: Serializer, a: seq<Member>, key: string)
    requires a != [] && SortedBy(o, a)
    ensures HasKey(a[1..], key) <==> HasKey(a, key) && key != a[0].key
  {
    hide Less;
    LessTotal(o, a[0].key, a[0].key);
    if HasKey(a[1..], key) {
      var i :| 0 <= i < |a[1..]| && a[1..][i].key == key;
      assert a[i + 1].key == key && Less(o, a[0].key, a[i + 1].key);
    }
    if HasKey(a, key) && key != a[0].key {
      var i :| 0 <= i < |a| && a[i].key == key;
      assert a[1..][i - 1].key == key;
    }
  }

  // ----- printed sameness, position by position -------------------------------------------

  lemma {:induction false} SortedItemsAt(o: Serializer, items: seq<Json>, i: nat)
    requires i < |items|
    ensures SortedItems(o, items)[i] == Sorted(o, items[i])
  {
    hide Sorted;
    if i > 0 {
      SortedItemsAt(o, items[1..], i - 1);
    }
  }

  lemma {:induction false} SortedMembersAt(o: Serializer, ms: seq<Member>, i: nat)
    requires i < |ms|
    ensures SortedMembers(o, ms)[i] == Member(ms[i].key, Sorted(o, ms[i].val))
  {
    hide Sorted;
    if i > 0 {
      SortedMembersAt(o, ms[1..], i - 1);
    }
  }

  lemma SameMembersAt(o: Serializer, a: seq<Member>, p: Serializer, b: seq<Member>)
    ensures SameMembers(o, a, p, b) <==>
            && |a| == |b|
            && forall i :: 0 <= i < |a| ==> a[i].key == b[i].key && SamePrint(o, a[i].val, p, b[i].val)
  {
    hide Sorted, SortedMembers;
    var (s, t) := (SortedMembers(o, a), SortedMembers(p, b));
    forall i | 0 <= i < |a| ensures s[i] == Member(a[i].key, Sorted(o, a[i].val)) {
      SortedMembersAt(o, a, i);
    }
    forall i | 0 <= i < |b| ensures t[i] == Member(b[i].key, Sorted(p, b[i].val)) {
      SortedMembersAt(p, b, i);
    }
    assert s == t <==> |s| == |t| && forall i :: 0 <= i < |s| ==> s[i] == t[i];
  }

  lemma SameItemsAt(o: Serializer, a: seq<Json>, p: Serializer, b: seq<Json>)
    ensures SameItems(o, a, p, b) <==> |a| == |b| && forall i :: 0 <= i < |a| ==> SamePrint(o, a[i], p, b[i])
  {
    hide Sorted, SortedItems;
    var (s, t) := (SortedItems(o, a), SortedItems(p, b));
    forall i | 0 <= i < |a| ensures s[i] == Sorted(o, a[i]) {
      SortedItemsAt(o, a, i);
    }
    forall i | 0 <= i < |b| ensures t[i] == Sorted(p, b[i]) {
      SortedItemsAt(p, b, i);
    }
    assert s == t <==> |s| == |t| && forall i :: 0 <= i < |s| ==> s[i] == t[i];
  }

  /** Values printed in the same places give the same text. */
  lemma {:induction false} SamePrintSameText(o: Serializer, v: Json, p: Serializer, w: Json)
    requires QuotingOf(o) == QuotingOf(p)
    requires SamePrint(o, v, p, w)
    ensures Ser(o, v) == Ser(p, w)
    decreases Size(v), 1
  {
    match v
    case Arr(items) => SameItemsSameText(o, items, p, w.items);
    case Obj(ms) => SameMembersSameText(o, Sort(o, ms), p, Sort(p, w.members));
    case _ =>
  }

  lemma {:induction false} SameItemsSameText(o: Serializer, a: seq<Json>, p: Serializer, b: seq<Json>)
    requires QuotingOf(o) == QuotingOf(p)
    requires SameItems(o, a, p, b)
    ensures JoinItems(o, a) == JoinItems(p, b)
    decreases SizeOfItems(a), 0
  {
    hide JoinItems, Ser, SameItems, SamePrint;
    SameItemsStep(o, a, p, b);
    if a != [] {
      SamePrintSameText(o, a[0], p, b[0]);
      SameItemsSameText(o, a[1..], p, b[1..]);
      JoinItemsStep(o, a);
      JoinItemsStep(p, b);
    } else {
      NothingJoined(o);
      NothingJoined(p);
    }
  }

  lemma NothingJoined(o: Serializer)
    ensures JoinItems(o, []) == "" && JoinMembers(o, []) == ""
  {
  }

  lemma SameItemsStep(o: Serializer, a: seq<Json>, p: Serializer, b: seq<Json>)
    requires SameItems(o, a, p, b)
    ensures |a| == |b| && (a != [] ==> SamePrint(o, a[0], p, b[0]) && SameItems(o, a[1..], p, b[1..]))
  {
    hide Sorted;
    var (s, t) := (SortedItems(o, a), SortedItems(p, b));
    if a != [] {
      assert s[0] == t[0] && s[1..] == t[1..];
    }
  }

  lemma {:induction false} SameMembersSameText(o: Serializer, a: seq<Member>, p: Serializer, b: seq<Member>)
    requires QuotingOf(o) == QuotingOf(p)
    requires SameMembers(o, a, p, b)
    ensures JoinMembers(o, a) == JoinMembers(p, b)
    decreases SizeOfMembers(a), 0
  {
    hide JoinMembers, Ser, SameMembers, SamePrint;
    SameMembersStep(o, a, p, b);
    if a != [] {
      SamePrintSameText(o, a[0].val, p, b[0].val);
      SameMembersSameText(o, a[1..], p, b[1..]);
      JoinMembersStep(o, a);
      JoinMembersStep(p, b);
    } else {
      NothingJoined(o);
      NothingJoined(p);
    }
  }

  lemma SameMembersStep(o: Serializer, a: seq<Member>, p: Serializer, b: seq<Member>)
    requires SameMembers(o, a, p, b)
    ensures |a| == |b|
    ensures a != [] ==> a[0].key == b[0].key && SamePrint(o, a[0].val, p, b[0].val) && SameMembers(o, a[1..], p, b[1..])
  {
    hide Sorted;
    var (s, t) := (SortedMembers(o, a), SortedMembers(p, b));
    if a != [] {
      assert s[0] == t[0] && s[1..] == t[1..];
    }
  }

  // ----- equal values ---------------------------------------------------------------------

  lemma {:induction false} SamePrintIsEqual(o: Serializer, v: Json, w: Json)
    requires WellFormed(v) && WellFormed(w)
    ensures SamePrint(o, v, o, w) <==> Equal(v, w)
    decreases v
  {
    match v
    case Arr(items) =>
      if w.Arr? {
        SameItemsAt(o, items, o, w.items);
        forall i | 0 <= i < |items| && i < |w.items|
          ensures SamePrint(o, items[i], o, w.items[i]) <==> Equal(items[i], w.items[i])
        {
          SamePrintIsEqual(o, items[i], w.items[i]);
        }
      }
    case Obj(ms) =>
      if w.Obj? {
        forall m, n | m in ms && n in w.members
          ensures SamePrint(o, m.val, o, n.val) <==> Equal(m.val, n.val)
        {
          SamePrintIsEqual(o, m.val, n.val);
        }
        SameObjectIsEqual(o, ms, w.members);
      }
    case _ =>
  }

  lemma {:induction false} SameObjectIsEqual(o: Serializer, a: seq<Member>, b: seq<Member>)
    requires Distinct(a) && Distinct(b)
    requires forall m, n :: m in a && n in b ==> (SamePrint(o, m.val, o, n.val) <==> Equal(m.val, n.val))
    ensures SameMembers(o, Sort(o, a), o, Sort(o, b)) <==> Equal(Obj(a), Obj(b))
  {
    hide SamePrint, SameMembers, Sort, SortedBy, Equal, MembersMatch;
    EqualObjects(a, b);
    var s, t := Sort(o, a), Sort(o, b);
    SortSorted(o, a);
    SortSorted(o, b);
    SameMembersAt(o, s, o, t);
    if SameMembers(o, s, o, t) {
      SameMembersEqual(o, a, b, s, t);
    }
    if Equal(Obj(a), Obj(b)) {
      EqualMembersSame(o, a, b, s, t);
    }
  }

  lemma SameMembersEqual(o: Serializer, a: seq<Member>, b: seq<Member>, s: seq<Member>, t: seq<Member>)
    requires forall m, n :: m in a && n in b ==> (SamePrint(o, m.val, o, n.val) <==> Equal(m.val, n.val))
    requires (forall m :: m in s <==> m in a) && forall m :: m in t <==> m in b
    requires |s| == |t| && forall i :: 0 <= i < |s| ==> s[i].key == t[i].key && SamePrint(o, s[i].val, o, t[i].val)
    ensures MembersMatch(a, b)
  {
    hide SamePrint, Equal, EqualMember;
    forall m | m in a ensures exists n <- b :: EqualMember(m, n) {
      assert m in s;
      var k :| 0 <= k < |s| && s[k] == m;
      assert t[k] in t;
      PairEqual(o, m, t[k]);
    }
    forall n | n in b ensures exists m <- a :: EqualMember(m, n) {
      assert n in t;
      var k :| 0 <= k < |t| && t[k] == n;
      assert s[k] in s;
      PairEqual(o, s[k], n);
    }
  }

  lemma PairEqual(o: Serializer, m: Member, n: Member)
    requires SamePrint(o, m.val, o, n.val) <==> Equal(m.val, n.val)
    requires m.key == n.key && SamePrint(o, m.val, o, n.val)
    ensures EqualMember(m, n)
  {
    hide SamePrint, Equal;
  }

  lemma {:induction false} EqualMembersSame(o: Serializer, a: seq<Member>, b: seq<Member>, s: seq<Member>, t: seq<Member>)
    requires Distinct(a) && Distinct(b) && MembersMatch(a, b)
    requires forall m, n :: m in a && n in b ==> (SamePrint(o, m.val, o, n.val) <==> Equal(m.val, n.val))
    requires (forall m :: m in s <==> m in a) && forall m :: m in t <==> m in b
    requires SortedBy(o, s) && SortedBy(o, t)
    ensures |s| == |t| && forall i :: 0 <= i < |s| ==> s[i].key == t[i].key && SamePrint(o, s[i].val, o, t[i].val)
  {
    hide SamePrint, SortedBy, Equal, MembersMatch, HasKey;
    forall key ensures HasKey(s, key) <==> HasKey(t, key) {
      EqualKeys(a, b, s, t, key);
    }
    SortedKeysUnique(o, s, t);
    forall k | 0 <= k < |s| ensures SamePrint(o, s[k].val, o, t[k].val) {
      EqualAtKey(a, b, s[k], t[k]);
    }
  }

  lemma EqualKeys(a: seq<Member>, b: seq<Member>, s: seq<Member>, t: seq<Member>, key: string)
    requires MembersMatch(a, b)
    requires (forall m :: m in s <==> m in a) && forall m :: m in t <==> m in b
    ensures HasKey(s, key) <==> HasKey(t, key)
  {
    hide MembersMatch, HasKey;
    KeyKept(s, a, key);
    KeyKept(a, s, key);
    KeyKept(t, b, key);
    KeyKept(b, t, key);
    KeyForward(a, b, key);
    KeyBack(a, b, key);
  }

  lemma KeyKept(s: seq<Member>, a: seq<Member>, key: string)
    requires forall m :: m in s ==> m in a
    ensures HasKey(s, key) ==> HasKey(a, key)
  {
    if HasKey(s, key) {
      var i :| 0 <= i < |s| && s[i].key == key;
      assert s[i] in a;
    }
  }

  lemma KeyForward(a: seq<Member>, b: seq<Member>, key: string)
    requires MembersMatch(a, b)
    ensures HasKey(a, key) ==> HasKey(b, key)
  {
    hide Equal;
    if HasKey(a, key) {
      var i :| 0 <= i < |a| && a[i].key == key;
      assert a[i] in a;
      var n :| n in b && EqualMember(a[i], n);
    }
  }

  lemma KeyBack(a: seq<Member>, b: seq<Member>, key: string)
    requires MembersMatch(a, b)
    ensures HasKey(b, key) ==> HasKey(a, key)
  {
    hide Equal;
    if HasKey(b, key) {
      var i :| 0 <= i < |b| && b[i].key == key;
      assert b[i] in b;
      var m :| m in a && EqualMember(m, b[i]);
    }
  }

  /** Equal objects have equal values under each key. */
  lemma {:induction false} EqualAtKey(a: seq<Member>, b: seq<Member>, m: Member, n: Member)
    requires Distinct(b) && m in a && n in b && m.key == n.key && MembersMatch(a, b)
    ensures Equal(m.val, n.val)
  {
    hide Equal;
    var n' :| n' in b && EqualMember(m, n');
    var i :| 0 <= i < |b| && b[i] == n;
    var j :| 0 <= j < |b| && b[j] == n';
    assert i == j;
  }

  /** One text of two values, in any two serializers, means the same values in the same printed places. */
  lemma {:induction false} Unambiguous(o: Serializer, v: Json, p: Serializer, w: Json)
    ensures Ser(o, v) == Ser(p, w) ==> SamePrint(o, v, p, w)
  {
    hide Ser, Sorted, ReadValue;
    ReadsBack(o, v, "");
    ReadsBack(p, w, "");
    assert Ser(o, v) + "" == Ser(o, v) && Ser(p, w) + "" == Ser(p, w);
  }

  /** Canonical JSON is injective and blind to member order: two values have one text exactly when they
      are equal with objects taken as maps. */
  lemma SerExact(o: Serializer, v: Json, w: Json)
    requires WellFormed(v) && WellFormed(w)
    ensures Ser(o, v) == Ser(o, w) <==> Equal(v, w)
  {
    hide Ser, SamePrint, Equal, WellFormed;
    Unambiguous(o, v, o, w);
    SamePrintIsEqual(o, v, w);
    if SamePrint(o, v, o, w) {
      SamePrintSameText(o, v, o, w);
    }
  }

  lemma {:induction false} CanonicalExact(o: Serializer, v: Json, w: Json)
    requires WellFormed(v) && WellFormed(w)
    ensures Canonical(o, v) == Canonical(o, w) <==> Equal(v, w)
  {
    hide Ser, Equal, WellFormed, Utf8;
    SerExact(o, v, w);
    if Canonical(o, v) == Canonical(o, w) {
      Utf8Injective(Ser(o, v), Ser(o, w));
    }
  }

  /** The members of every object strictly ascend, by code point or by UTF-16 code unit. */
  ghost predicate Ordered(o: Serializer, v: Json)
  {
    match v
    case Arr(items) => forall i :: 0 <= i < |items| ==> Ordered(o, items[i])
    case Obj(ms) =>
      && (forall i, j :: 0 <= i < j < |ms| ==> KeyPrecedes(o, ms[i].key, ms[j].key))
      && forall i :: 0 <= i < |ms| ==> Ordered(o, ms[i].val)
    case _ => true
  }

  ghost predicate KeyPrecedes(o: Serializer, s: string, t: string)
  {
    if o.Utf16? then Precedes(CodeUnits(s), CodeUnits(t)) else Precedes(CodePoints(s), CodePoints(t))
  }

  lemma {:induction false} SortedIs(o: Serializer, v: Json)
    requires WellFormed(v)
    ensures Equal(Sorted(o, v), v) && Ordered(o, Sorted(o, v))
    decreases v
  {
    match v
    case Arr(items) =>
      forall i | 0 <= i < |items|
        ensures SortedItems(o, items)[i] == Sorted(o, items[i])
        ensures Equal(Sorted(o, items[i]), items[i]) && Ordered(o, Sorted(o, items[i]))
      {
        SortedItemsAt(o, items, i);
        SortedIs(o, items[i]);
      }
    case Obj(ms) =>
      forall m | m in ms ensures Equal(Sorted(o, m.val), m.val) && Ordered(o, Sorted(o, m.val)) {
        SortedIs(o, m.val);
      }
      SortedObjectIs(o, ms);
    case _ =>
  }

  lemma {:induction false} SortedObjectIs(o: Serializer, ms: seq<Member>)
    requires Distinct(ms)
    requires forall m :: m in ms ==> Equal(Sorted(o, m.val), m.val) && Ordered(o, Sorted(o, m.val))
    ensures Equal(Obj(SortedMembers(o, Sort(o, ms))), Obj(ms)) && Ordered(o, Obj(SortedMembers(o, Sort(o, ms))))
  {
    hide Sorted, Sort, Equal, MembersMatch, SortedMembers, Less, KeyPrecedes;
    var s, r := Sort(o, ms), SortedMembers(o, Sort(o, ms));
    SortSorted(o, ms);
    forall i | 0 <= i < |s| ensures r[i] == Member(s[i].key, Sorted(o, s[i].val)) && s[i] in ms {
      SortedMembersAt(o, s, i);
      assert s[i] in s;
    }
    forall i, j | 0 <= i < j < |r| ensures KeyPrecedes(o, r[i].key, r[j].key) {
      LessIsPrecedes(o, s[i].key, s[j].key);
    }
    EqualObjects(r, ms);
    SortedMatch(o, r, s, ms);
  }

  lemma LessIsPrecedes(o: Serializer, s: string, t: string)
    ensures Less(o, s, t) <==> KeyPrecedes(o, s, t)
  {
    hide Less, Precedes;
    KeyOrder(o, s, t);
  }

  lemma SortedMatch(o: Serializer, r: seq<Member>, s: seq<Member>, ms: seq<Member>)
    requires |r| == |s| && forall i :: 0 <= i < |s| ==> r[i] == Member(s[i].key, Sorted(o, s[i].val))
    requires forall m :: m in s <==> m in ms
    requires forall m :: m in ms ==> Equal(Sorted(o, m.val), m.val)
    ensures MembersMatch(r, ms)
  {
    hide Sorted, Equal;
    forall m | m in r ensures exists n <- ms :: EqualMember(m, n) {
      var i :| 0 <= i < |r| && r[i] == m;
      assert s[i] in s;
      assert EqualMember(m, s[i]);
    }
    forall n | n in ms ensures exists m <- r :: EqualMember(m, n) {
      assert n in s;
      var i :| 0 <= i < |s| && s[i] == n;
      assert r[i] in r;
      assert EqualMember(r[i], n);
    }
  }

  /** The canonical bytes are UTF-8 of a JSON text, and the text, read by the grammar, is the value: members in
      strictly ascending order, and equal to it as maps. */
  lemma {:induction false} CanonicalIsJson(o: Serializer, v: Json)
    requires WellFormed(v)
    ensures var text := DecodeUtf8(Canonical(o, v));
            && text.Some?
            && var read := ReadText(text.value);
               read.Some? && Equal(read.value, v) && Ordered(o, read.value)
  {
    hide Canonical, DecodeUtf8, ReadText, Sorted, Equal, Ordered, WellFormed;
    CanonicalReads(o, v);
    SortedIs(o, v);
  }

  /** Tampering: with one protected header, the signing inputs of two credentials are the same bytes
      exactly when the credentials are equal. */
  lemma {:induction false} SigningInputExact(header: string, v: Json, w: Json)
    requires WellFormed(v) && WellFormed(w) && Base64.IsAscii(header)
    ensures Base64.SigningInput(header, Canonical(Utf16, v)) == Base64.SigningInput(header, Canonical(Utf16, w))
            <==> Equal(v, w)
  {
    hide Canonical, Equal, WellFormed;
    CanonicalExact(Utf16, v, w);
    if Base64.SigningInput(header, Canonical(Utf16, v)) == Base64.SigningInput(header, Canonical(Utf16, w)) {
      Base64.SigningInputInjective(header, Canonical(Utf16, v), header, Canonical(Utf16, w));
    }
  }

  // ----- the two serializers --------------------------------------------------------------

  /** No object in `v` has two keys that the two orders rank differently. */
  ghost predicate OrdersAgree(v: Json)
  {
    match v
    case Arr(items) => forall i :: 0 <= i < |items| ==> OrdersAgree(items[i])
    case Obj(ms) => KeysAgree(ms) && forall i :: 0 <= i < |ms| ==> OrdersAgree(ms[i].val)
    case _ => true
  }

  ghost predicate KeysAgree(ms: seq<Member>)
  {
    forall m, n :: m in ms && n in ms ==> Less(Utf16, m.key, n.key) == Less(CodePoint, m.key, n.key)
  }

  lemma {:induction false} SamePrintIsAgreement(v: Json)
    requires WellFormed(v)
    ensures SamePrint(Utf16, v, CodePoint, v) <==> OrdersAgree(v)
    decreases v
  {
    match v
    case Arr(items) =>
      SameItemsAt(Utf16, items, CodePoint, items);
      forall i | 0 <= i < |items| ensures SamePrint(Utf16, items[i], CodePoint, items[i]) <==> OrdersAgree(items[i]) {
        SamePrintIsAgreement(items[i]);
      }
    case Obj(ms) =>
      forall m | m in ms ensures SamePrint(Utf16, m.val, CodePoint, m.val) <==> OrdersAgree(m.val) {
        SamePrintIsAgreement(m.val);
      }
      ObjectAgreement(ms);
    case _ =>
  }

  lemma {:induction false} ObjectAgreement(ms: seq<Member>)
    requires Distinct(ms)
    requires forall m :: m in ms ==> (SamePrint(Utf16, m.val, CodePoint, m.val) <==> OrdersAgree(m.val))
    ensures SameMembers(Utf16, Sort(Utf16, ms), CodePoint, Sort(CodePoint, ms)) <==> OrdersAgree(Obj(ms))
  {
    hide SamePrint, SameMembers, Sort, Less;
    var s, t := Sort(Utf16, ms), Sort(CodePoint, ms);
    SortSorted(Utf16, ms);
    SortSorted(CodePoint, ms);
    SameMembersAt(Utf16, s, CodePoint, t);
    if SameMembers(Utf16, s, CodePoint, t) {
      SameKeysSameSeq(ms, s, t);
      SortedAgree(ms, s);
      ValuesAgree(ms, s, t);
    }
    if OrdersAgree(Obj(ms)) {
      AgreeingSorted(ms, t);
      forall key ensures HasKey(s, key) <==> HasKey(t, key) {
        if HasKey(s, key) { KeysOf(s, t, key); }
        if HasKey(t, key) { KeysOf(t, s, key); }
      }
      SortedKeysUnique(Utf16, s, t);
      SameKeysSameSeq(ms, s, t);
      forall i | 0 <= i < |s| ensures SamePrint(Utf16, s[i].val, CodePoint, t[i].val) {
        assert s[i] in ms;
        var j :| 0 <= j < |ms| && ms[j] == s[i];
        assert OrdersAgree(ms[j].val);
      }
    }
  }

  lemma ValuesAgree(ms: seq<Member>, s: seq<Member>, t: seq<Member>)
    requires s == t && forall m :: m in ms ==> m in s
    requires forall m :: m in ms ==> (SamePrint(Utf16, m.val, CodePoint, m.val) <==> OrdersAgree(m.val))
    requires forall i :: 0 <= i < |s| ==> SamePrint(Utf16, s[i].val, CodePoint, t[i].val)
    ensures forall i :: 0 <= i < |ms| ==> OrdersAgree(ms[i].val)
  {
    hide SamePrint;
    forall i | 0 <= i < |ms| ensures OrdersAgree(ms[i].val) {
      assert ms[i] in s;
      var k :| 0 <= k < |s| && s[k] == ms[i];
      assert SamePrint(Utf16, s[k].val, CodePoint, t[k].val);
    }
  }

  lemma KeysOf(s: seq<Member>, t: seq<Member>, key: string)
    requires HasKey(s, key) && forall m :: m in s ==> m in t
    ensures HasKey(t, key)
  {
    var i :| 0 <= i < |s| && s[i].key == key;
    assert s[i] in t;
  }

  lemma SameKeysSameSeq(ms: seq<Member>, s: seq<Member>, t: seq<Member>)
    requires Distinct(ms) && (forall m :: m in s ==> m in ms) && forall m :: m in t ==> m in ms
    requires |s| == |t| && forall i :: 0 <= i < |s| ==> s[i].key == t[i].key
    ensures s == t
  {
    forall i | 0 <= i < |s| ensures s[i] == t[i] {
      assert s[i] in ms && t[i] in ms;
    }
  }

  /** One sequence sorted both ways ranks its keys alike. */
  lemma {:induction false} SortedAgree(ms: seq<Member>, s: seq<Member>)
    requires SortedBy(Utf16, s) && SortedBy(CodePoint, s) && forall m :: m in ms ==> m in s
    ensures KeysAgree(ms)
  {
    hide Less;
    forall m, n | m in ms && n in ms
      ensures Less(Utf16, m.key, n.key) == Less(CodePoint, m.key, n.key)
    {
      var i :| 0 <= i < |s| && s[i] == m;
      var j :| 0 <= j < |s| && s[j] == n;
      LessTotal(Utf16, m.key, n.key);
      LessTotal(CodePoint, m.key, n.key);
    }
  }

  lemma AgreeingSorted(ms: seq<Member>, t: seq<Member>)
    requires KeysAgree(ms) && SortedBy(CodePoint, t) && forall m :: m in t ==> m in ms
    ensures SortedBy(Utf16, t)
  {
    hide Less;
    forall i, j | 0 <= i < j < |t| ensures Less(Utf16, t[i].key, t[j].key) {
      assert t[i] in ms && t[j] in ms;
    }
  }

  /** `_ser` and `_canonical_str` give one text exactly when no object has keys ranked differently. */
  lemma {:induction false} SerializersAgreeExact(v: Json)
    requires WellFormed(v)
    ensures Ser(Utf16, v) == Ser(CodePoint, v) <==> OrdersAgree(v)
  {
    hide Ser, SamePrint, OrdersAgree, WellFormed;
    Unambiguous(Utf16, v, CodePoint, v);
    SamePrintIsAgreement(v);
    if SamePrint(Utf16, v, CodePoint, v) {
      SamePrintSameText(Utf16, v, CodePoint, v);
    }
  }

  ghost predicate AllKeysInBmp(v: Json)
  {
    match v
    case Arr(items) => forall i :: 0 <= i < |items| ==> AllKeysInBmp(items[i])
    case Obj(ms) => forall i :: 0 <= i < |ms| ==> InBmp(ms[i].key) && AllKeysInBmp(ms[i].val)
    case _ => true
  }

  lemma {:induction false} BmpAgrees(v: Json)
    requires AllKeysInBmp(v)
    ensures OrdersAgree(v)
    decreases v
  {
    match v
    case Arr(items) =>
      forall i | 0 <= i < |items| ensures OrdersAgree(items[i]) {
        BmpAgrees(items[i]);
      }
    case Obj(ms) =>
      forall i | 0 <= i < |ms| ensures OrdersAgree(ms[i].val) {
        BmpAgrees(ms[i].val);
      }
      forall m, n | m in ms && n in ms
        ensures Less(Utf16, m.key, n.key) == Less(CodePoint, m.key, n.key)
      {
        BmpOrdersAgree(m.key, n.key);
      }
    case _ =>
  }

  /** With all keys in the Basic Multilingual Plane the two serializers agree. */
  lemma BmpSerializersAgree(v: Json)
    requires WellFormed(v) && AllKeysInBmp(v)
    ensures Ser(Utf16, v) == Ser(CodePoint, v)
  {
    BmpAgrees(v);
    SerializersAgreeExact(v);
  }

  /** Reordering the members of an object never changes its text. */
  lemma {:induction false} ReorderedMembers(o: Serializer, a: seq<Member>, b: seq<Member>)
    requires WellFormed(Obj(a)) && multiset(a) == multiset(b)
    ensures Ser(o, Obj(a)) == Ser(o, Obj(b))
  {
    hide Ser, Sort;
    SortSorted(o, a);
    PermutedDistinct(a, b);
    SortSorted(o, b);
    var s, t := Sort(o, a), Sort(o, b);
    assert forall m :: m in a <==> m in multiset(a);
    assert forall m :: m in b <==> m in multiset(b);
    forall key ensures HasKey(s, key) <==> HasKey(t, key) {
      if HasKey(s, key) { KeysOf(s, t, key); }
      if HasKey(t, key) { KeysOf(t, s, key); }
    }
    SortedKeysUnique(o, s, t);
    SameKeysSameSeq(a, s, t);
    ObjText(o, a);
    ObjText(o, b);
  }

  lemma ObjText(o: Serializer, ms: seq<Member>)
    ensures Ser(o, Obj(ms)) == "{" + JoinMembers(o, Sort(o, ms)) + "}"
  {
  }

  lemma {:induction false} PermutedDistinct(a: seq<Member>, b: seq<Member>)
    requires Distinct(a) && multiset(a) == multiset(b)
    ensures Distinct(b)
  {
    forall i, j | 0 <= i < j < |b| ensures b[i].key != b[j].key {
      DistinctOnce(a, b[i]);
      TwoPlaces(b, i, j);
      assert b[i] in multiset(a) && b[j] in multiset(a);
      KeysTellApart(a, b[i], b[j]);
    }
  }

  lemma TwoPlaces(b: seq<Member>, i: nat, j: nat)
    requires i < j < |b|
    ensures b[i] == b[j] ==> multiset(b)[b[i]] >= 2
  {
    assert b == b[..i] + [b[i]] + b[i + 1..j] + [b[j]] + b[j + 1..];
  }

  lemma KeysTellApart(a: seq<Member>, m: Member, n: Member)
    requires Distinct(a) && m in a && n in a && m != n
    ensures m.key != n.key
  {
  }

  lemma {:induction false} DistinctOnce(a: seq<Member>, m: Member)
    requires Distinct(a)
    ensures multiset(a)[m] <= 1
  {
    if a != [] {
      DistinctOnce(a[1..], m);
      assert a == [a[0]] + a[1..];
      assert m in multiset(a[1..]) <==> m in a[1..];
    }
  }
}
