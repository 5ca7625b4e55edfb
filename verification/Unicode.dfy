/** UTF-8 and UTF-16 (big-endian) encodings of strings of Unicode scalar values, and their orders. */
module Unicode {
  import opened ByteStrings
  import opened Wrappers

  function Utf8Char(c: char): (b: Bytes)
    ensures |b| > 0
  {
    var n := c as int;
    if n < 0x80 then [n]
    else if n < 0x800 then [0xC0 + n / 64, 0x80 + n % 64]
    else if n < 0x10000 then [0xE0 + n / 4096, 0x80 + n / 64 % 64, 0x80 + n % 64]
    else [0xF0 + n / 262144, 0x80 + n / 4096 % 64, 0x80 + n / 64 % 64, 0x80 + n % 64]
  }

  function Utf8(s: string): Bytes
  {
    if s == [] then [] else Utf8Char(s[0]) + Utf8(s[1..])
  }

  predicate Continues(b: byte)
  {
    0x80 <= b < 0xC0
  }

  /** One character of a UTF-8 sequence, in the shortest form and no surrogate (section 3 of RFC 3629). */
  function DecodeChar(b: Bytes): (r: Option<(char, Bytes)>)
    ensures r.Some? ==> |r.value.1| < |b|
  {
    if b == [] then None
    else if b[0] < 0x80 then Some((b[0] as char, b[1..]))
    else if 0xC2 <= b[0] < 0xE0 && |b| >= 2 && Continues(b[1]) then
      Some(((((b[0] as int - 0xC0) * 64 + (b[1] as int - 0x80)) as char), b[2..]))
    else if 0xE0 <= b[0] < 0xF0 && |b| >= 3 && Continues(b[1]) && Continues(b[2]) then
      var n := (b[0] as int - 0xE0) * 4096 + (b[1] as int - 0x80) * 64 + (b[2] as int - 0x80);
      if n < 0x800 || 0xD800 <= n < 0xE000 then None else Some((n as char, b[3..]))
    else if 0xF0 <= b[0] < 0xF5 && |b| >= 4 && Continues(b[1]) && Continues(b[2]) && Continues(b[3]) then
      var n := (b[0] as int - 0xF0) * 262144 + (b[1] as int - 0x80) * 4096 + (b[2] as int - 0x80) * 64 + (b[3] as int - 0x80);
      if n < 0x10000 || n >= 0x110000 then None else Some((n as char, b[4..]))
    else None
  }

  function DecodeUtf8(b: Bytes): Option<string>
    decreases |b|
  {
    if b == [] then Some("")
    else
      match DecodeChar(b)
      case None => None
      case Some((c, rest)) =>
        match DecodeUtf8(rest)
        case None => None
        case Some(s) => Some([c] + s)
  }

  /** The base-64 digits the encodings are made of. */
  lemma SixBitDigits(n: nat)
    ensures n == n / 64 * 64 + n % 64
    ensures n == n / 4096 * 4096 + n / 64 % 64 * 64 + n % 64
    ensures n == n / 262144 * 262144 + n / 4096 % 64 * 4096 + n / 64 % 64 * 64 + n % 64
  {
    assert n / 64 / 64 == n / 4096;
    assert n / 4096 / 64 == n / 262144;
  }

  lemma {:induction false} CharDecodes(c: char, x: Bytes)
    ensures DecodeChar(Utf8Char(c) + x) == Some((c, x))
  {
    var (n, u) := (c as int, Utf8Char(c));
    var b := u + x;
    SixBitDigits(n);
    assert b[0] == u[0] && (|u| > 1 ==> b[1] == u[1]) && (|u| > 2 ==> b[2] == u[2]) && (|u| > 3 ==> b[3] == u[3]);
    assert b[|u|..] == x;
  }

  lemma {:induction false} Utf8Decodes(s: string)
    ensures DecodeUtf8(Utf8(s)) == Some(s)
  {
    hide Utf8Char, DecodeChar;
    if s != [] {
      CharDecodes(s[0], Utf8(s[1..]));
      Utf8Decodes(s[1..]);
      assert s == [s[0]] + s[1..];
    }
  }

  lemma {:induction false} Utf8Injective(s: string, t: string)
    requires Utf8(s) == Utf8(t)
    ensures s == t
  {
    hide Utf8, DecodeUtf8;
    Utf8Decodes(s);
    Utf8Decodes(t);
  }

  /** Three serializers. `_ser` sorts keys by UTF-16 big-endian bytes, `_canonical_str` by code points, and so
      does `json.dumps(..., sort_keys=True)`, which also escapes what is not ASCII. */
  datatype Serializer = Utf16 | CodePoint | Dumps

  function Unit(n: int): seq<int>
  {
    [n / 256, n % 256]
  }

  function KeyChar(o: Serializer, c: char): (k: seq<int>)
    ensures |k| > 0
  {
    var n := c as int;
    match o
    case CodePoint | Dumps => [n]
    case Utf16 =>
      if n < 0x10000 then Unit(n)
      else Unit(0xD800 + (n - 0x10000) / 0x400) + Unit(0xDC00 + (n - 0x10000) % 0x400)
  }

  function Key(o: Serializer, s: string): seq<int>
  {
    if s == [] then [] else KeyChar(o, s[0]) + Key(o, s[1..])
  }

  lemma KeyCharPrefix(o: Serializer, c: char, d: char, x: seq<int>, y: seq<int>)
    requires KeyChar(o, c) + x == KeyChar(o, d) + y
    ensures c == d && x == y
  {
    var (u, v) := (KeyChar(o, c), KeyChar(o, d));
    assert (u + x)[0] == u[0] && (v + y)[0] == v[0];
    assert o.Utf16? ==> (u + x)[1] == u[1] && (v + y)[1] == v[1];
    assert |u| == |v|;
    assert (u + x)[..|u|] == u && (v + y)[..|v|] == v;
    assert (u + x)[|u|..] == x && (v + y)[|v|..] == y;
    assert |u| == 4 ==> u[2] == v[2] && u[3] == v[3];
    assert c as int == d as int;
  }

  lemma {:induction false} KeyInjective(o: Serializer, s: string, t: string)
    requires Key(o, s) == Key(o, t)
    ensures s == t
  {
    if s != [] && t != [] {
      KeyCharPrefix(o, s[0], t[0], Key(o, s[1..]), Key(o, t[1..]));
      KeyInjective(o, s[1..], t[1..]);
      assert s == [s[0]] + s[1..] && t == [t[0]] + t[1..];
    }
  }

  function LexLess(a: seq<int>, b: seq<int>): bool
  {
    b != [] && (a == [] || a[0] < b[0] || (a[0] == b[0] && LexLess(a[1..], b[1..])))
  }

  lemma {:induction false} LexTotal(a: seq<int>, b: seq<int>)
    ensures a == b || LexLess(a, b) || LexLess(b, a)
    ensures !(LexLess(a, b) && LexLess(b, a)) && !LexLess(a, a)
  {
    if a != [] {
      LexTotal(a[1..], a[1..]);
    }
    if a != [] && b != [] {
      LexTotal(a[1..], b[1..]);
      if a[0] == b[0] && a[1..] == b[1..] {
        assert a == [a[0]] + a[1..] && b == [b[0]] + b[1..];
      }
    }
  }

  lemma {:induction false} LexTransitive(a: seq<int>, b: seq<int>, c: seq<int>)
    requires LexLess(a, b) && LexLess(b, c)
    ensures LexLess(a, c)
  {
    if a != [] && a[0] == b[0] == c[0] {
      LexTransitive(a[1..], b[1..], c[1..]);
    }
  }

  function Less(o: Serializer, s: string, t: string): bool
  {
    LexLess(Key(o, s), Key(o, t))
  }

  predicate InBmp(s: string)
  {
    forall i :: 0 <= i < |s| ==> s[i] as int < 0x10000
  }

  /** On the Basic Multilingual Plane the two orders are one. */
  lemma {:induction false} BmpOrdersAgree(s: string, t: string)
    requires InBmp(s) && InBmp(t)
    ensures Less(Utf16, s, t) == Less(CodePoint, s, t)
  {
    if s != [] && t != [] {
      var (a, b) := (Key(Utf16, s), Key(Utf16, t));
      assert a[0] == s[0] as int / 256 && a[1..][0] == s[0] as int % 256;
      assert b[0] == t[0] as int / 256 && b[1..][0] == t[0] as int % 256;
      assert a[1..][1..] == Key(Utf16, s[1..]) && b[1..][1..] == Key(Utf16, t[1..]);
      assert LexLess(a[1..], b[1..]) ==
             (a[1..][0] < b[1..][0] || (a[1..][0] == b[1..][0] && LexLess(a[1..][1..], b[1..][1..])));
      BmpOrdersAgree(s[1..], t[1..]);
      assert Key(CodePoint, s)[1..] == Key(CodePoint, s[1..]) && Key(CodePoint, t)[1..] == Key(CodePoint, t[1..]);
    }
  }

  /** Above it they are not: U+FFFD comes before U+10000 as a code point and after it in UTF-16. */
  lemma OrdersDiffer()
    ensures Less(CodePoint, "\U{FFFD}", "\U{10000}") && Less(Utf16, "\U{10000}", "\U{FFFD}")
  {
    assert Key(CodePoint, "\U{FFFD}")[0] == 0xFFFD && Key(CodePoint, "\U{10000}")[0] == 0x10000;
    assert Key(Utf16, "\U{FFFD}")[0] == 0xFF && Key(Utf16, "\U{10000}")[0] == 0xD8;
  }

  // ----- the orders, by the first difference ----------------------------------------------

  /** `a` is a proper prefix of `b`, or smaller at the first place where they differ. */
  ghost predicate Precedes(a: seq<int>, b: seq<int>)
  {
    exists k :: 0 <= k <= |a| && k < |b| && a[..k] == b[..k] && (k == |a| || a[k] < b[k])
  }

  lemma PrecedesHead(a: seq<int>, b: seq<int>)
    requires Precedes(a, b) && a != []
    ensures a[0] <= b[0]
  {
    var k :| 0 <= k <= |a| && k < |b| && a[..k] == b[..k] && (k == |a| || a[k] < b[k]);
    if k > 0 {
      assert a[..k][0] == b[..k][0];
    }
  }

  lemma {:induction false} LexIsPrecedes(a: seq<int>, b: seq<int>)
    ensures LexLess(a, b) <==> Precedes(a, b)
  {
    if a != [] && b != [] {
      LexIsPrecedes(a[1..], b[1..]);
      if Precedes(a[1..], b[1..]) && a[0] == b[0] {
        var k :| 0 <= k <= |a[1..]| && k < |b[1..]| && a[1..][..k] == b[1..][..k] && (k == |a[1..]| || a[1..][k] < b[1..][k]);
        assert a[..k + 1] == [a[0]] + a[1..][..k] && b[..k + 1] == [b[0]] + b[1..][..k];
      }
      if Precedes(a, b) && a[0] == b[0] {
        var k :| 0 <= k <= |a| && k < |b| && a[..k] == b[..k] && (k == |a| || a[k] < b[k]);
        assert k > 0;
        assert a[1..][..k - 1] == a[..k][1..] && b[1..][..k - 1] == b[..k][1..];
      }
      if Precedes(a, b) {
        PrecedesHead(a, b);
      }
    }
    if a == [] && b != [] {
      assert a[..0] == b[..0];
    }
    if a != [] && b != [] && a[0] < b[0] {
      assert a[..0] == b[..0];
    }
  }

  function CodePoints(s: string): seq<int>
  {
    seq(|s|, i requires 0 <= i < |s| => s[i] as int)
  }

  /** The UTF-16 code units of a string. */
  function CodeUnits(s: string): seq<int>
  {
    if s == [] then []
    else
      var n := s[0] as int;
      (if n < 0x10000 then [n] else [0xD800 + (n - 0x10000) / 0x400, 0xDC00 + (n - 0x10000) % 0x400]) + CodeUnits(s[1..])
  }

  lemma {:induction false} KeyIsCodePoints(o: Serializer, s: string)
    requires !o.Utf16?
    ensures Key(o, s) == CodePoints(s)
  {
    if s != [] {
      KeyIsCodePoints(o, s[1..]);
    }
  }

  /** Big-endian bytes of code units. */
  function UnitBytes(units: seq<int>): seq<int>
  {
    if units == [] then [] else Unit(units[0]) + UnitBytes(units[1..])
  }

  lemma {:induction false} UnitBytesConcat(a: seq<int>, b: seq<int>)
    ensures UnitBytes(a + b) == UnitBytes(a) + UnitBytes(b)
  {
    if a == [] {
      assert a + b == b;
    } else {
      assert (a + b)[1..] == a[1..] + b;
      UnitBytesConcat(a[1..], b);
    }
  }

  lemma {:induction false} KeyIsUnits(s: string)
    ensures Key(Utf16, s) == UnitBytes(CodeUnits(s)) && forall i :: 0 <= i < |CodeUnits(s)| ==> 0 <= CodeUnits(s)[i] < 0x10000
  {
    if s != [] {
      KeyIsUnits(s[1..]);
      var n := s[0] as int;
      var units := if n < 0x10000 then [n] else [0xD800 + (n - 0x10000) / 0x400, 0xDC00 + (n - 0x10000) % 0x400];
      UnitBytesConcat(units, CodeUnits(s[1..]));
      assert KeyChar(Utf16, s[0]) == UnitBytes(units) by {
        assert units[1..] == [] || units[1..] == [units[1]];
        assert |units| == 2 ==> units[1..][1..] == [];
      }
    }
  }

  lemma {:induction false} UnitOrder(a: seq<int>, b: seq<int>)
    requires forall i :: 0 <= i < |a| ==> 0 <= a[i] < 0x10000
    requires forall i :: 0 <= i < |b| ==> 0 <= b[i] < 0x10000
    ensures LexLess(UnitBytes(a), UnitBytes(b)) <==> LexLess(a, b)
  {
    if a != [] && b != [] {
      UnitOrder(a[1..], b[1..]);
      var (u, v) := (UnitBytes(a), UnitBytes(b));
      assert u[0] == a[0] / 256 && u[1..][0] == a[0] % 256 && u[1..][1..] == UnitBytes(a[1..]);
      assert v[0] == b[0] / 256 && v[1..][0] == b[0] % 256 && v[1..][1..] == UnitBytes(b[1..]);
    }
  }

  /** `_canonical_str` and `json.dumps` order keys by code points, `_ser` by UTF-16 code units. */
  lemma KeyOrder(o: Serializer, s: string, t: string)
    ensures Less(o, s, t) <==>
            if o.Utf16? then Precedes(CodeUnits(s), CodeUnits(t)) else Precedes(CodePoints(s), CodePoints(t))
  {
    hide Key, Precedes, CodeUnits, CodePoints, LexLess;
    if o.Utf16? {
      KeyIsUnits(s);
      KeyIsUnits(t);
      UnitOrder(CodeUnits(s), CodeUnits(t));
      LexIsPrecedes(CodeUnits(s), CodeUnits(t));
    } else {
      KeyIsCodePoints(o, s);
      KeyIsCodePoints(o, t);
      LexIsPrecedes(CodePoints(s), CodePoints(t));
    }
  }
}
