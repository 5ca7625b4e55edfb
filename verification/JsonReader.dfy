/**
 A reader of JSON texts without whitespace, after the grammar of RFC 8259, and of UTF-8 (RFC 3629). It knows
 nothing of the printers; that it reads their texts back says that they print JSON, and the right JSON.
 */
module JsonReader {
  import opened ByteStrings
  import opened Wrappers
  import opened Unicode
  import opened JsonText
  import opened CanonicalJson

  // ----- the grammar ----------------------------------------------------------------------

  function DigitValue(c: char): Option<nat>
  {
    if '0' <= c <= '9' then Some(c as int - '0' as int) else None
  }

  function HexValue(c: char): (v: Option<nat>)
    ensures v.Some? ==> v.value < 16
  {
    if '0' <= c <= '9' then Some(c as int - '0' as int)
    else if 'a' <= c <= 'f' then Some(c as int - 'a' as int + 10)
    else if 'A' <= c <= 'F' then Some(c as int - 'A' as int + 10)
    else None
  }

  /** Four hexadecimal digits. */
  function ReadUnit(s: string): (r: Option<(nat, string)>)
    ensures r.Some? ==> r.value.0 < 0x10000 && |r.value.1| + 4 == |s|
  {
    if |s| < 4 || HexValue(s[0]).None? || HexValue(s[1]).None? || HexValue(s[2]).None? || HexValue(s[3]).None? then None
    else Some((HexValue(s[0]).value * 0x1000 + HexValue(s[1]).value * 0x100 + HexValue(s[2]).value * 16 + HexValue(s[3]).value,
               s[4..]))
  }

  /** What follows `\\u`: a code unit that is no surrogate, or a surrogate pair. */
  function ReadEscaped(s: string): (r: Option<(char, string)>)
    ensures r.Some? ==> |r.value.1| < |s|
  {
    match ReadUnit(s)
    case None => None
    case Some((unit, rest)) =>
      if unit < 0xD800 || unit >= 0xE000 then Some((unit as char, rest))
      else if unit >= 0xDC00 || |rest| < 2 || rest[0] != '\\' || rest[1] != 'u' then None
      else
        match ReadUnit(rest[2..])
        case None => None
        case Some((low, rest')) =>
          if 0xDC00 <= low < 0xE000 then Some(((0x10000 + (unit - 0xD800) * 0x400 + (low - 0xDC00)) as char, rest'))
          else None
  }

  /** One character of a string. */
  function ReadChar(s: string): (r: Option<(char, string)>)
    ensures r.Some? ==> |r.value.1| < |s|
  {
    if s == [] || s[0] == '"' || s[0] as int < 0x20 then None
    else if s[0] != '\\' then Some((s[0], s[1..]))
    else if |s| < 2 then None
    else if s[1] == '"' then Some(('"', s[2..]))
    else if s[1] == '\\' then Some(('\\', s[2..]))
    else if s[1] == '/' then Some(('/', s[2..]))
    else if s[1] == 'b' then Some((8 as char, s[2..]))
    else if s[1] == 'f' then Some((12 as char, s[2..]))
    else if s[1] == 'n' then Some((10 as char, s[2..]))
    else if s[1] == 'r' then Some((13 as char, s[2..]))
    else if s[1] == 't' then Some((9 as char, s[2..]))
    else if s[1] == 'u' then ReadEscaped(s[2..])
    else None
  }

  /** Characters up to the closing quote. */
  function ReadChars(s: string): (r: Option<(string, string)>)
    ensures r.Some? ==> |r.value.1| < |s|
    decreases |s|
  {
    if s != [] && s[0] == '"' then Some(("", s[1..]))
    else
      match ReadChar(s)
      case None => None
      case Some((c, rest)) =>
        match ReadChars(rest)
        case None => None
        case Some((cs, rest')) => Some(([c] + cs, rest'))
  }

  function ReadString(s: string): (r: Option<(string, string)>)
    ensures r.Some? ==> |r.value.1| < |s|
  {
    if s == [] || s[0] != '"' then None else ReadChars(s[1..])
  }

  /** The digits that follow a numeral of value `n`. */
  function ReadDigits(s: string, n: nat): (r: (nat, string))
    ensures |r.1| <= |s|
    decreases |s|
  {
    if s == [] || DigitValue(s[0]).None? then (n, s) else ReadDigits(s[1..], n * 10 + DigitValue(s[0]).value)
  }

  /** A decimal numeral without leading zeros. */
  function ReadNat(s: string): (r: Option<(nat, string)>)
    ensures r.Some? ==> |r.value.1| < |s|
  {
    if s == [] || DigitValue(s[0]).None? then None
    else if s[0] == '0' then Some((0, s[1..]))
    else Some(ReadDigits(s[1..], DigitValue(s[0]).value))
  }

  function ReadInt(s: string): (r: Option<(int, string)>)
    ensures r.Some? ==> |r.value.1| < |s|
  {
    if s != [] && s[0] == '-' then
      match ReadNat(s[1..])
      case None => None
      case Some((n, rest)) => Some((0 - n as int, rest))
    else
      match ReadNat(s)
      case None => None
      case Some((n, rest)) => Some((n, rest))
  }

  function ReadValue(s: string): (r: Option<(Json, string)>)
    ensures r.Some? ==> |r.value.1| < |s|
    decreases |s|, 1
  {
    if s == [] then None
    else if s[0] == 'n' then if "null" <= s then Some((Null, s[4..])) else None
    else if s[0] == 't' then if "true" <= s then Some((Bool(true), s[4..])) else None
    else if s[0] == 'f' then if "false" <= s then Some((Bool(false), s[5..])) else None
    else if s[0] == '"' then
      match ReadString(s)
      case None => None
      case Some((t, rest)) => Some((Str(t), rest))
    else if s[0] == '[' then
      if |s| > 1 && s[1] == ']' then Some((Arr([]), s[2..]))
      else
        match ReadItems(s[1..])
        case None => None
        case Some((items, rest)) => Some((Arr(items), rest))
    else if s[0] == '{' then
      if |s| > 1 && s[1] == '}' then Some((Obj([]), s[2..]))
      else
        match ReadMembers(s[1..])
        case None => None
        case Some((ms, rest)) => Some((Obj(ms), rest))
    else
      match ReadInt(s)
      case None => None
      case Some((n, rest)) => Some((Int(n), rest))
  }

  /** Values with commas between them, up to the closing bracket. */
  function ReadItems(s: string): (r: Option<(seq<Json>, string)>)
    ensures r.Some? ==> |r.value.1| < |s|
    decreases |s|, 2
  {
    match ReadValue(s)
    case None => None
    case Some((v, rest)) =>
      if rest == [] then None
      else if rest[0] == ']' then Some(([v], rest[1..]))
      else if rest[0] != ',' then None
      else
        match ReadItems(rest[1..])
        case None => None
        case Some((vs, rest')) => Some(([v] + vs, rest'))
  }

  /** Members with commas between them, up to the closing brace. */
  function ReadMembers(s: string): (r: Option<(seq<Member>, string)>)
    ensures r.Some? ==> |r.value.1| < |s|
    decreases |s|, 2
  {
    match ReadMember(s)
    case None => None
    case Some((m, rest)) =>
      if rest == [] then None
      else if rest[0] == '}' then Some(([m], rest[1..]))
      else if rest[0] != ',' then None
      else
        match ReadMembers(rest[1..])
        case None => None
        case Some((ms, rest')) => Some(([m] + ms, rest'))
  }

  function ReadMember(s: string): (r: Option<(Member, string)>)
    ensures r.Some? ==> |r.value.1| < |s|
    decreases |s|, 1
  {
    match ReadString(s)
    case None => None
    case Some((key, rest)) =>
      if rest == [] || rest[0] != ':' then None
      else
        match ReadValue(rest[1..])
        case None => None
        case Some((v, rest')) => Some((Member(key, v), rest'))
  }

  /** A whole text. */
  function ReadText(s: string): Option<Json>
  {
    match ReadValue(s)
    case Some((v, rest)) => if rest == [] then Some(v) else None
    case None => None
  }

  // ----- strings and numbers are read back ------------------------------------------------

  lemma HexReads(n: int)
    requires 0 <= n < 16
    ensures HexValue(Hex(n)) == Some(n)
  {
  }

  lemma FourDigits(n: int)
    ensures n == n / 0x1000 * 0x1000 + n / 0x100 % 16 * 0x100 + n / 16 % 16 * 16 + n % 16
  {
    assert n / 16 / 16 == n / 0x100 && n / 0x100 / 16 == n / 0x1000;
  }

  lemma {:induction false} UnitReads(unit: int, x: string)
    requires 0 <= unit < 0x10000
    ensures (Escape(unit) + x)[0] == '\\' && (Escape(unit) + x)[1] == 'u'
    ensures ReadUnit((Escape(unit) + x)[2..]) == Some((unit, x))
  {
    hide Hex, HexValue;
    HexReads(unit / 0x1000);
    HexReads(unit / 0x100 % 16);
    HexReads(unit / 16 % 16);
    HexReads(unit % 16);
    FourDigits(unit);
    var s := (Escape(unit) + x)[2..];
    assert s[0] == Hex(unit / 0x1000) && s[1] == Hex(unit / 0x100 % 16) && s[2] == Hex(unit / 16 % 16) && s[3] == Hex(unit % 16);
    assert s[4..] == x;
  }

  lemma {:induction false} EscapedReads(c: char, x: string)
    ensures (Escapes(c) + x)[0] == '\\' && (Escapes(c) + x)[1] == 'u'
    ensures ReadEscaped((Escapes(c) + x)[2..]) == Some((c, x))
  {
    hide Escape, ReadUnit;
    var n := c as int;
    if n < 0x10000 {
      UnitReads(n, x);
    } else {
      var (high, low) := (0xD800 + (n - 0x10000) / 0x400, 0xDC00 + (n - 0x10000) % 0x400);
      UnitReads(low, x);
      UnitReads(high, Escape(low) + x);
      assert Escape(high) + Escape(low) + x == Escape(high) + (Escape(low) + x);
      assert 0x10000 + (high - 0xD800) * 0x400 + (low - 0xDC00) == n;
    }
  }

  lemma {:induction false} CharReads(q: Quoting, c: char, x: string)
    ensures ReadChar(EscChar(q, c) + x) == Some((c, x)) && (EscChar(q, c) + x)[0] != '"'
  {
    hide Escapes, ReadEscaped;
    var s := EscChar(q, c) + x;
    assert s[0] == EscChar(q, c)[0];
    if Escaped(q, c) {
      EscapedReads(c, x);
    } else if |EscChar(q, c)| == 2 {
      assert s[1] == EscChar(q, c)[1] && s[2..] == x;
    } else {
      assert s[1..] == x;
    }
  }

  lemma {:induction false} CharsRead(q: Quoting, s: string, x: string)
    ensures ReadChars(Esc(q, s) + "\"" + x) == Some((s, x))
  {
    hide EscChar, ReadChar;
    if s == [] {
      assert (Esc(q, s) + "\"" + x)[1..] == x;
    } else {
      var rest := Esc(q, s[1..]) + "\"" + x;
      Regroup(EscChar(q, s[0]), Esc(q, s[1..]), "\"", x);
      CharReads(q, s[0], rest);
      CharsRead(q, s[1..], x);
      assert s == [s[0]] + s[1..];
    }
  }

  lemma Regroup(a: string, b: string, c: string, d: string)
    ensures a + b + c + d == a + (b + c + d)
  {
  }

  /** A quoted string is read back, whatever follows. */
  lemma {:induction false} QuoteReads(q: Quoting, s: string, x: string)
    ensures ReadString(Quote(q, s) + x) == Some((s, x)) && (Quote(q, s) + x)[0] == '"'
  {
    hide ReadChars, Esc;
    CharsRead(q, s, x);
    Regroup("\"", Esc(q, s), "\"", x);
    assert (Quote(q, s) + x)[1..] == Esc(q, s) + "\"" + x;
  }

  /** Text that no digit can begin. */
  predicate NoDigitFirst(s: string)
  {
    s == [] || DigitValue(s[0]).None?
  }

  lemma {:induction false} DigitsRead(n: nat, y: string)
    ensures NatText(n) + y != [] && ReadDigits(NatText(n) + y, 0) == ReadDigits(y, n)
  {
    if n < 10 {
      assert (NatText(n) + y)[1..] == y;
    } else {
      var last := [DigitChar(n % 10)];
      assert NatText(n) + y == NatText(n / 10) + (last + y);
      DigitsRead(n / 10, last + y);
      assert (last + y)[1..] == y;
    }
  }

  /** An integer is read back before any text that starts with no digit. */
  lemma IntReads(n: int, x: string)
    requires NoDigitFirst(x)
    ensures ReadInt(IntText(n) + x) == Some((n, x))
    ensures IntText(n)[0] == '-' || IsDigit(IntText(n)[0])
  {
    hide NatText, ReadNat;
    if n < 0 {
      NatReads(-n, x);
      assert (IntText(n) + x)[1..] == NatText(-n) + x && (IntText(n) + x)[0] == '-';
    } else {
      NatReads(n, x);
      assert (IntText(n) + x)[0] == NatText(n)[0];
    }
  }

  lemma NatReads(n: nat, x: string)
    requires NoDigitFirst(x)
    ensures ReadNat(NatText(n) + x) == Some((n, x)) && IsDigit(NatText(n)[0])
  {
    var s := NatText(n) + x;
    assert s[0] == NatText(n)[0];
    NatTextFirst(n);
    if n == 0 {
      assert s[1..] == x;
    } else {
      DigitsRead(n, x);
      assert 0 * 10 + DigitValue(s[0]).value == DigitValue(s[0]).value;
    }
  }

  // ----- values are read back -------------------------------------------------------------

  /** Text that can follow a value: nothing, or one of `,` `]` `}`. */
  predicate Follows(s: string)
  {
    s == [] || s[0] == ',' || s[0] == ']' || s[0] == '}'
  }

  /** The text of a value is read back as the value with its members in printing order, whatever follows. */
  lemma {:induction false} ReadsBack(o: Serializer, v: Json, x: string)
    requires Follows(x)
    ensures ReadValue(Ser(o, v) + x) == Some((Sorted(o, v), x))
    decreases Size(v), 1
  {
    hide Quote, IntText, Sort, JoinItems, JoinMembers, ReadString, ReadInt, ReadItems, ReadMembers;
    var s := Ser(o, v) + x;
    match v
    case Null =>
      assert s[4..] == x;
    case Bool(b) =>
      assert s[if b then 4 else 5..] == x;
    case Int(n) =>
      IntReads(n, x);
    case Str(t) =>
      QuoteReads(QuotingOf(o), t, x);
    case Arr(items) =>
      Enclosed("[", JoinItems(o, items), "]", x);
      ArrayReads(o, items, x);
    case Obj(ms) =>
      Enclosed("{", JoinMembers(o, Sort(o, ms)), "}", x);
      ObjectReads(o, Sort(o, ms), x);
  }

  lemma Enclosed(left: string, a: string, right: string, x: string)
    ensures left + a + right + x == left + (a + (right + x))
  {
  }

  lemma {:induction false} ArrayReads(o: Serializer, items: seq<Json>, x: string)
    ensures ReadValue("[" + (JoinItems(o, items) + ("]" + x))) == Some((Arr(SortedItems(o, items)), x))
    decreases SizeOfItems(items), 1
  {
    hide ReadItems, Ser, Sorted;
    var inner := JoinItems(o, items) + ("]" + x);
    assert ("[" + inner)[1..] == inner;
    if items == [] {
      assert inner == "]" + x && ("[" + inner)[2..] == x;
    } else {
      ItemsRead(o, items, x);
      ItemsStart(inner);
      assert ("[" + inner)[1] == inner[0];
    }
  }

  lemma ItemsStart(s: string)
    requires ReadItems(s).Some?
    ensures s != [] && s[0] != ']'
  {
    hide ReadValue;
    NoValue(s);
  }

  lemma NoValue(s: string)
    ensures s == [] || s[0] == ']' ==> ReadValue(s).None?
  {
  }

  /** What comes after the first of the items. */
  function RestOfItems(o: Serializer, items: seq<Json>, x: string): string
    requires items != []
  {
    if |items| == 1 then "]" + x else "," + (JoinItems(o, items[1..]) + ("]" + x))
  }

  lemma ItemsHead(o: Serializer, items: seq<Json>, x: string)
    requires items != []
    ensures JoinItems(o, items) + ("]" + x) == Ser(o, items[0]) + RestOfItems(o, items, x)
    ensures Follows(RestOfItems(o, items, x))
  {
    hide Ser, JoinItems;
    JoinItemsStep(o, items);
    if |items| > 1 {
      Separate(Ser(o, items[0]), JoinItems(o, items[1..]), "]" + x);
    }
  }

  lemma JoinItemsStep(o: Serializer, items: seq<Json>)
    requires items != []
    ensures JoinItems(o, items)
         == if |items| == 1 then Ser(o, items[0]) else Ser(o, items[0]) + "," + JoinItems(o, items[1..])
  {
    hide Ser;
  }

  lemma Separate(head: string, rest: string, end: string)
    ensures (head + "," + rest) + end == head + ("," + (rest + end))
  {
  }

  lemma {:induction false} ItemsRead(o: Serializer, items: seq<Json>, x: string)
    requires items != []
    ensures ReadItems(JoinItems(o, items) + ("]" + x)) == Some((SortedItems(o, items), x))
    decreases SizeOfItems(items), 0
  {
    hide Ser, JoinItems, ReadValue, Sorted;
    ItemsHead(o, items, x);
    var rest := RestOfItems(o, items, x);
    ReadsBack(o, items[0], rest);
    if |items| == 1 {
      assert rest[1..] == x;
      assert SortedItems(o, items) == [Sorted(o, items[0])];
    } else {
      assert rest[1..] == JoinItems(o, items[1..]) + ("]" + x);
      ItemsRead(o, items[1..], x);
    }
  }

  lemma {:induction false} ObjectReads(o: Serializer, ms: seq<Member>, x: string)
    ensures ReadValue("{" + (JoinMembers(o, ms) + ("}" + x))) == Some((Obj(SortedMembers(o, ms)), x))
    decreases SizeOfMembers(ms), 1
  {
    hide ReadMembers, Ser, SerMember, Sorted;
    var inner := JoinMembers(o, ms) + ("}" + x);
    assert ("{" + inner)[1..] == inner;
    if ms == [] {
      assert inner == "}" + x && ("{" + inner)[2..] == x;
    } else {
      MembersRead(o, ms, x);
      MembersStart(inner);
      assert ("{" + inner)[1] == inner[0];
    }
  }

  lemma MembersStart(s: string)
    requires ReadMembers(s).Some?
    ensures s != [] && s[0] != '}'
  {
    hide ReadMember;
    NoMember(s);
  }

  lemma NoMember(s: string)
    ensures s == [] || s[0] == '}' ==> ReadMember(s).None?
  {
  }

  function RestOfMembers(o: Serializer, ms: seq<Member>, x: string): string
    requires ms != []
  {
    if |ms| == 1 then "}" + x else "," + (JoinMembers(o, ms[1..]) + ("}" + x))
  }

  lemma MembersHead(o: Serializer, ms: seq<Member>, x: string)
    requires ms != []
    ensures JoinMembers(o, ms) + ("}" + x) == SerMember(o, ms[0]) + RestOfMembers(o, ms, x)
    ensures Follows(RestOfMembers(o, ms, x))
  {
    hide Ser, SerMember, JoinMembers;
    JoinMembersStep(o, ms);
    if |ms| > 1 {
      Separate(SerMember(o, ms[0]), JoinMembers(o, ms[1..]), "}" + x);
    }
  }

  lemma JoinMembersStep(o: Serializer, ms: seq<Member>)
    requires ms != []
    ensures JoinMembers(o, ms)
         == if |ms| == 1 then SerMember(o, ms[0]) else SerMember(o, ms[0]) + "," + JoinMembers(o, ms[1..])
  {
    hide SerMember;
  }

  lemma {:induction false} MemberReads(o: Serializer, m: Member, x: string)
    requires Follows(x)
    ensures ReadMember(SerMember(o, m) + x) == Some((Member(m.key, Sorted(o, m.val)), x))
    decreases Size(m.val), 2
  {
    hide Ser, Quote, ReadString, ReadValue, Sorted;
    var key, val := Quote(QuotingOf(o), m.key), Ser(o, m.val);
    assert SerMember(o, m) + x == key + (":" + (val + x));
    QuoteReads(QuotingOf(o), m.key, ":" + (val + x));
    assert (":" + (val + x))[1..] == val + x;
    ReadsBack(o, m.val, x);
  }

  lemma {:induction false} MembersRead(o: Serializer, ms: seq<Member>, x: string)
    requires ms != []
    ensures ReadMembers(JoinMembers(o, ms) + ("}" + x)) == Some((SortedMembers(o, ms), x))
    decreases SizeOfMembers(ms), 0
  {
    hide Ser, SerMember, JoinMembers, ReadMember, Sorted;
    MembersHead(o, ms, x);
    var rest := RestOfMembers(o, ms, x);
    MemberReads(o, ms[0], rest);
    if |ms| == 1 {
      assert rest[1..] == x;
      assert SortedMembers(o, ms) == [Member(ms[0].key, Sorted(o, ms[0].val))];
    } else {
      assert rest[1..] == JoinMembers(o, ms[1..]) + ("}" + x);
      MembersRead(o, ms[1..], x);
    }
  }

  /** The canonical bytes, decoded and read, are the value with its members in printing order. */
  lemma {:induction false} CanonicalReads(o: Serializer, v: Json)
    ensures var text := DecodeUtf8(Canonical(o, v));
            text.Some? && ReadText(text.value) == Some(Sorted(o, v))
  {
    hide Ser, Sorted, Utf8, DecodeUtf8, ReadValue;
    Utf8Decodes(Ser(o, v));
    ReadsBack(o, v, "");
    assert Ser(o, v) + "" == Ser(o, v);
  }
}
