/**
 Base64 (section 5 of RFC 4648) as sm_bridge/trust/_es256_jws.py and sm_bridge/conformance.py use it, with
 the lenient decoder of Python's `binascii`, and the detached signing input built from it.
 */
module Base64 {
  import opened ByteStrings
  import opened Wrappers

  datatype DecodeError = NotAscii | BadLength

  function Symbol(v: nat, url: bool): char
    requires v < 64
  {
    if v < 26 then ('A' as int + v) as char
    else if v < 52 then ('a' as int + (v - 26)) as char
    else if v < 62 then ('0' as int + (v - 52)) as char
    else if v == 62 then if url then '-' else '+'
    else if url then '_' else '/'
  }

  /** `urlsafe_b64decode` maps '-' and '_' to '+' and '/' first, so it reads both alphabets. */
  function SymbolValue(c: char): (v: Option<nat>)
    ensures v.Some? ==> v.value < 64
  {
    if 'A' <= c <= 'Z' then Some(c as int - 'A' as int)
    else if 'a' <= c <= 'z' then Some(c as int - 'a' as int + 26)
    else if '0' <= c <= '9' then Some(c as int - '0' as int + 52)
    else if c == '+' || c == '-' then Some(62)
    else if c == '/' || c == '_' then Some(63)
    else None
  }

  lemma SymbolRoundTrip(v: nat, url: bool)
    requires v < 64
    ensures SymbolValue(Symbol(v, url)) == Some(v)
    ensures Symbol(v, url) != '=' && Symbol(v, url) != '.' && Symbol(v, url) as int < 128
  {
  }

  function Quad(a: byte, b: byte, c: byte, url: bool): (s: string)
    ensures |s| == 4
  {
    [Symbol(a / 4, url), Symbol(a % 4 * 16 + b / 16, url), Symbol(b % 16 * 4 + c / 64, url), Symbol(c % 64, url)]
  }

  /** `base64.b64encode`, or `base64.urlsafe_b64encode`. */
  function Encode(b: Bytes, url: bool): string
  {
    if |b| == 0 then []
    else if |b| == 1 then Quad(b[0], 0, 0, url)[..2] + "=="
    else if |b| == 2 then Quad(b[0], b[1], 0, url)[..3] + "="
    else Quad(b[0], b[1], b[2], url) + Encode(b[3..], url)
  }

  function RStrip(s: string, c: char): string
  {
    if s != [] && s[|s| - 1] == c then RStrip(s[..|s| - 1], c) else s
  }

  function Repeat(c: char, n: nat): (s: string)
    ensures |s| == n
  {
    seq(n, _ => c)
  }

  /** `b64url`: no padding on the wire. */
  function B64Url(raw: Bytes): string
  {
    RStrip(Encode(raw, true), '=')
  }

  /** CPython's `binascii.a2b_base64`: `quad` symbols of the current group are read, `left` holds their
      unused bits; other characters are skipped, and a completing run of '=' ends the input. */
  function A2b(s: string, quad: nat, left: nat, pads: nat): Result<Bytes, DecodeError>
    requires quad < 4 && left < 64 && (quad >= 2 ==> left < 16) && (quad == 3 ==> left < 4)
  {
    if s == [] then if quad == 0 then Success([]) else Failure(BadLength)
    else if s[0] == '=' then
      if quad >= 2 && quad + pads + 1 >= 4 then Success([])
      else A2b(s[1..], quad, left, if quad >= 2 then pads + 1 else pads)
    else
      match SymbolValue(s[0])
      case None => A2b(s[1..], quad, left, pads)
      case Some(v) =>
        if quad == 0 then A2b(s[1..], 1, v, 0)
        else if quad == 1 then Prepend(left * 4 + v / 16, A2b(s[1..], 2, v % 16, 0))
        else if quad == 2 then Prepend(left * 16 + v / 4, A2b(s[1..], 3, v % 4, 0))
        else Prepend(left * 64 + v, A2b(s[1..], 0, 0, 0))
  }

  function Prepend(b: byte, rest: Result<Bytes, DecodeError>): Result<Bytes, DecodeError>
  {
    match rest
    case Success(bytes) => Success([b] + bytes)
    case Failure(_) => rest
  }

  predicate IsAscii(s: string)
  {
    forall i :: 0 <= i < |s| ==> s[i] as int < 128
  }

  /** `b64url_decode`, with the source's `-len(s) % 4` padding. */
  function B64UrlDecode(s: string): Result<Bytes, DecodeError>
  {
    var padded := s + Repeat('=', (-|s|) % 4);
    if !IsAscii(padded) then Failure(NotAscii) else A2b(padded, 0, 0, 0)
  }

  // ----- the encoding of RFC 4648, section 4 and 5 ---------------------------------------

  const UPPER := "ABCDEFGHIJKLMNOPQRSTUVWXYZ"
  const LOWER := "abcdefghijklmnopqrstuvwxyz"
  const DIGITS := "0123456789"

  function Alphabet(url: bool): (s: string)
    ensures |s| == 64
  {
    UPPER + LOWER + DIGITS + if url then "-_" else "+/"
  }

  lemma UpperIs(v: nat)
    requires v < 26
    ensures UPPER[v] == ('A' as int + v) as char
  {
  }

  lemma LowerIs(v: nat)
    requires v < 26
    ensures LOWER[v] == ('a' as int + v) as char
  {
  }

  lemma SymbolIs(v: nat, url: bool)
    requires v < 64
    ensures Symbol(v, url) == Alphabet(url)[v]
  {
    if v < 26 {
      UpperIs(v);
    } else if v < 52 {
      LowerIs(v - 26);
    }
  }

  /** Four symbols are the digits, in base 64, of the 24-bit number of three bytes. */
  ghost predicate IsGroup(s: string, a: byte, b: byte, c: byte, url: bool)
  {
    s == Symbols24(a as int * 65536 + b as int * 256 + c as int, url)
  }

  function Symbols24(n: int, url: bool): string
    requires 0 <= n < 0x1000000
  {
    [Alphabet(url)[n / 262144], Alphabet(url)[n / 4096 % 64], Alphabet(url)[n / 64 % 64], Alphabet(url)[n % 64]]
  }

  lemma Quotient(n: int, q: int, r: int, d: int)
    requires d in {64, 4096, 262144} && 0 <= r < d && n == q * d + r
    ensures n / d == q && n % d == r
  {
  }

  lemma {:induction false} QuadIsGroup(a: byte, b: byte, c: byte, url: bool)
    ensures IsGroup(Quad(a, b, c, url), a, b, c, url)
  {
    hide Alphabet, Symbol;
    var n := a as int * 65536 + b as int * 256 + c as int;
    Quotient(n, a / 4, a % 4 * 65536 + b as int * 256 + c as int, 262144);
    Quotient(n, a as int * 16 + b / 16, b % 16 * 256 + c as int, 4096);
    Quotient(a as int * 16 + b / 16, a / 4, a % 4 * 16 + b / 16, 64);
    Quotient(n, a as int * 1024 + b as int * 4 + c / 64, c % 64, 64);
    Quotient(a as int * 1024 + b as int * 4 + c / 64, a as int * 16 + b / 16, b % 16 * 4 + c / 64, 64);
    SymbolIs(n / 262144, url);
    SymbolIs(n / 4096 % 64, url);
    SymbolIs(n / 64 % 64, url);
    SymbolIs(n % 64, url);
  }

  /** Group `i` of the encoding; the last one may be short, and is then filled with zero bits and '='. */
  lemma {:induction false} EncodeIs(b: Bytes, url: bool, i: nat)
    requires 3 * i < |b|
    ensures |Encode(b, url)| == (|b| + 2) / 3 * 4 && 4 * i + 4 <= |Encode(b, url)|
    ensures var (group, left) := (Encode(b, url)[4 * i..4 * i + 4], |b| - 3 * i);
            if left >= 3 then IsGroup(group, b[3 * i], b[3 * i + 1], b[3 * i + 2], url)
            else if left == 2 then exists full :: IsGroup(full, b[3 * i], b[3 * i + 1], 0, url) && group == full[..3] + "="
            else exists full :: IsGroup(full, b[3 * i], 0, 0, url) && group == full[..2] + "=="
    decreases |b|
  {
    hide Quad, IsGroup, Encode, Alphabet;
    QuadIsGroup(b[0], if |b| > 1 then b[1] else 0, if |b| > 2 then b[2] else 0, url);
    EncodeStep(b, url);
    if |b| >= 3 {
      EncodeNothing(url);
      if |b| > 3 {
        EncodeIs(b[3..], url, if i == 0 then 0 else i - 1);
      }
      if i > 0 {
        GroupsShift(Quad(b[0], b[1], b[2], url), Encode(b[3..], url), i);
      }
    }
  }

  lemma GroupsShift(head: string, rest: string, i: nat)
    requires |head| == 4 && i > 0 && 4 * i <= |rest|
    ensures (head + rest)[4 * i..4 * i + 4] == rest[4 * (i - 1)..4 * (i - 1) + 4]
  {
  }

  lemma EncodeStep(b: Bytes, url: bool)
    requires b != []
    ensures Encode(b, url) == if |b| == 1 then Quad(b[0], 0, 0, url)[..2] + "=="
                              else if |b| == 2 then Quad(b[0], b[1], 0, url)[..3] + "="
                              else Quad(b[0], b[1], b[2], url) + Encode(b[3..], url)
    ensures |Encode(b, url)| >= 4
    ensures Encode(b, url)[0..4] == if |b| == 1 then Quad(b[0], 0, 0, url)[..2] + "=="
                                    else if |b| == 2 then Quad(b[0], b[1], 0, url)[..3] + "="
                                    else Quad(b[0], b[1], b[2], url)
  {
    hide Quad;
  }

  lemma EncodeNothing(url: bool)
    ensures Encode([], url) == ""
  {
  }

  // ----- round trip -----------------------------------------------------------------------

  /** One symbol read by the decoder. */
  lemma A2bSymbol(v: nat, url: bool, quad: nat, left: nat, pads: nat, rest: string)
    requires v < 64 && quad < 4 && left < 64 && (quad >= 2 ==> left < 16) && (quad == 3 ==> left < 4)
    ensures A2b([Symbol(v, url)] + rest, quad, left, pads) ==
            if quad == 0 then A2b(rest, 1, v, 0)
            else if quad == 1 then Prepend(left * 4 + v / 16, A2b(rest, 2, v % 16, 0))
            else if quad == 2 then Prepend(left * 16 + v / 4, A2b(rest, 3, v % 4, 0))
            else Prepend(left * 64 + v, A2b(rest, 0, 0, 0))
  {
    SymbolRoundTrip(v, url);
    assert ([Symbol(v, url)] + rest)[1..] == rest;
  }

  lemma FirstTwo(a: byte, b: byte, url: bool, rest: string)
    ensures A2b([Symbol(a / 4, url)] + ([Symbol(a % 4 * 16 + b / 16, url)] + rest), 0, 0, 0)
         == Prepend(a, A2b(rest, 2, b / 16, 0))
  {
    hide A2b, Symbol;
    A2bSymbol(a / 4, url, 0, 0, 0, [Symbol(a % 4 * 16 + b / 16, url)] + rest);
    A2bSymbol(a % 4 * 16 + b / 16, url, 1, a / 4, 0, rest);
  }

  lemma Third(b: byte, c: byte, url: bool, rest: string)
    ensures A2b([Symbol(b % 16 * 4 + c / 64, url)] + rest, 2, b / 16, 0) == Prepend(b, A2b(rest, 3, c / 64, 0))
  {
    hide A2b, Symbol;
    A2bSymbol(b % 16 * 4 + c / 64, url, 2, b / 16, 0, rest);
  }

  lemma Fourth(c: byte, url: bool, rest: string)
    ensures A2b([Symbol(c % 64, url)] + rest, 3, c / 64, 0) == Prepend(c, A2b(rest, 0, 0, 0))
  {
    hide A2b, Symbol;
    A2bSymbol(c % 64, url, 3, c / 64, 0, rest);
  }

  /** Two, three or four symbols of one group. */
  lemma {:induction false} GroupDecodes(a: byte, b: byte, c: byte, url: bool, rest: string)
    ensures A2b(Quad(a, b, c, url)[..2] + rest, 0, 0, 0) == Prepend(a, A2b(rest, 2, b / 16, 0))
    ensures A2b(Quad(a, b, c, url)[..3] + rest, 0, 0, 0) == Prepend(a, Prepend(b, A2b(rest, 3, c / 64, 0)))
    ensures A2b(Quad(a, b, c, url) + rest, 0, 0, 0) == Prepend(a, Prepend(b, Prepend(c, A2b(rest, 0, 0, 0))))
  {
    hide A2b, Symbol, Prepend;
    var q := Quad(a, b, c, url);
    FirstTwo(a, b, url, rest);
    FirstTwo(a, b, url, [q[2]] + rest);
    FirstTwo(a, b, url, [q[2]] + ([q[3]] + rest));
    Third(b, c, url, rest);
    Third(b, c, url, [q[3]] + rest);
    Fourth(c, url, rest);
    assert q[..2] + rest == [q[0]] + ([q[1]] + rest);
    assert q[..3] + rest == [q[0]] + ([q[1]] + ([q[2]] + rest));
    assert q + rest == [q[0]] + ([q[1]] + ([q[2]] + ([q[3]] + rest)));
  }

  lemma EndDecodes()
    ensures A2b("", 0, 0, 0) == A2b("==", 2, 0, 0) == A2b("=", 3, 0, 0) == Success([])
  {
    assert "=="[1..] == "=";
    assert A2b("=", 2, 0, 1) == Success([]);
  }

  lemma {:induction false} EncodeDecodes(b: Bytes, url: bool)
    ensures A2b(Encode(b, url), 0, 0, 0) == Success(b)
  {
    hide Quad, A2b;
    if b == [] {
      EndDecodes();
    } else if |b| == 1 {
      EndDecodes();
      GroupDecodes(b[0], 0, 0, url, "==");
      assert b == [b[0]] + [];
    } else if |b| == 2 {
      EndDecodes();
      GroupDecodes(b[0], b[1], 0, url, "=");
      assert b == [b[0]] + ([b[1]] + []);
    } else {
      EncodeDecodes(b[3..], url);
      GroupDecodes(b[0], b[1], b[2], url, Encode(b[3..], url));
      assert b == [b[0]] + ([b[1]] + ([b[2]] + b[3..]));
    }
  }

  /** Only the padding is stripped, and its length is the one the decoder computes. */
  lemma {:induction false} PaddingRestored(b: Bytes)
    ensures B64Url(b) + Repeat('=', (-|B64Url(b)|) % 4) == Encode(b, true)
    ensures forall i :: 0 <= i < |B64Url(b)| ==> B64Url(b)[i] != '.' && B64Url(b)[i] as int < 128
  {
    hide Body;
    BodyAndPadding(b, true);
    StripPadding(Body(b, true), (-|Body(b, true)|) % 4);
  }

  /** The encoding without its padding. */
  function Body(b: Bytes, url: bool): string
  {
    if |b| == 0 then []
    else if |b| == 1 then Quad(b[0], 0, 0, url)[..2]
    else if |b| == 2 then Quad(b[0], b[1], 0, url)[..3]
    else Quad(b[0], b[1], b[2], url) + Body(b[3..], url)
  }

  lemma QuadIsPlain(a: byte, b: byte, c: byte, url: bool)
    ensures forall i :: 0 <= i < 4 ==>
              var s := Quad(a, b, c, url)[i]; s != '=' && s != '.' && s as int < 128
  {
  }

  lemma {:induction false} BodyAndPadding(b: Bytes, url: bool)
    ensures Encode(b, url) == Body(b, url) + Repeat('=', (-|Body(b, url)|) % 4)
    ensures forall i :: 0 <= i < |Body(b, url)| ==>
              Body(b, url)[i] != '=' && Body(b, url)[i] != '.' && Body(b, url)[i] as int < 128
  {
    hide Symbol;
    if b != [] {
      QuadIsPlain(b[0], if |b| > 1 then b[1] else 0, if |b| > 2 then b[2] else 0, url);
    }
    if |b| == 1 {
      assert Repeat('=', 2) == "==";
    } else if |b| == 2 {
      assert Repeat('=', 1) == "=";
    } else if |b| >= 3 {
      BodyAndPadding(b[3..], url);
    }
  }

  lemma {:induction false} StripPadding(body: string, pad: nat)
    requires body == [] || body[|body| - 1] != '='
    ensures RStrip(body + Repeat('=', pad), '=') == body
  {
    if pad > 0 {
      var s := body + Repeat('=', pad);
      assert s[..|s| - 1] == body + Repeat('=', pad - 1);
      StripPadding(body, pad - 1);
    } else {
      assert body + Repeat('=', 0) == body;
    }
  }

  lemma B64UrlRoundTrip(raw: Bytes)
    ensures B64UrlDecode(B64Url(raw)) == Success(raw)
  {
    PaddingRestored(raw);
    EncodeDecodes(raw, true);
    var padded := B64Url(raw) + Repeat('=', (-|B64Url(raw)|) % 4);
    assert IsAscii(padded);
  }

  lemma {:induction false} EncodeInjective(a: Bytes, b: Bytes, url: bool)
    requires Encode(a, url) == Encode(b, url)
    ensures a == b
  {
    EncodeDecodes(a, url);
    EncodeDecodes(b, url);
  }

  // ----- detached signing input (RFC 7515) ------------------------------------------------

  function AsciiBytes(s: string): (b: Bytes)
    requires IsAscii(s)
    ensures |b| == |s| && forall i :: 0 <= i < |s| ==> b[i] == s[i] as int
  {
    seq(|s|, i requires 0 <= i < |s| => s[i] as int)
  }

  const DOT: byte := 46

  /** `signing_input`: a header that is not ASCII raises; `b64url` output always is ASCII. */
  function SigningInput(headerB64: string, payload: Bytes): Result<Bytes, DecodeError>
  {
    PaddingRestored(payload);
    if !IsAscii(headerB64) then Failure(NotAscii)
    else Success(AsciiBytes(headerB64) + [DOT] + AsciiBytes(B64Url(payload)))
  }

  /** The last dot separates header from payload, so no two (header, payload) pairs share an input,
      even when a header contains dots. */
  lemma {:induction false} SigningInputInjective(h1: string, p1: Bytes, h2: string, p2: Bytes)
    requires SigningInput(h1, p1).Success? && SigningInput(h1, p1) == SigningInput(h2, p2)
    ensures h1 == h2 && p1 == p2
  {
    PaddingRestored(p1);
    PaddingRestored(p2);
    LastDotUnique(h1, B64Url(p1), h2, B64Url(p2));
    B64UrlRoundTrip(p1);
    B64UrlRoundTrip(p2);
  }

  lemma LastDotUnique(h1: string, t1: string, h2: string, t2: string)
    requires IsAscii(h1) && IsAscii(t1) && IsAscii(h2) && IsAscii(t2)
    requires forall i :: 0 <= i < |t1| ==> t1[i] != '.'
    requires forall i :: 0 <= i < |t2| ==> t2[i] != '.'
    requires AsciiBytes(h1) + [DOT] + AsciiBytes(t1) == AsciiBytes(h2) + [DOT] + AsciiBytes(t2)
    ensures h1 == h2 && t1 == t2
  {
    var b1, b2 := AsciiBytes(h1) + [DOT] + AsciiBytes(t1), AsciiBytes(h2) + [DOT] + AsciiBytes(t2);
    assert b1[|h1|] == DOT && b2[|h2|] == DOT;
    assert forall i :: |h1| < i < |b1| ==> b1[i] == t1[i - |h1| - 1] as int != DOT;
    assert forall i :: |h2| < i < |b2| ==> b2[i] == t2[i - |h2| - 1] as int != DOT;
    assert |h1| == |h2|;
    assert forall i :: 0 <= i < |h1| ==> b1[i] == h1[i] as int && b2[i] == h2[i] as int;
    forall i | 0 <= i < |t1| ensures t1[i] == t2[i] {
      assert b1[|h1| + 1 + i] == t1[i] as int && b2[|h1| + 1 + i] == t2[i] as int;
    }
  }

  /** Header, dot, and text that decodes to the payload. */
  lemma {:induction false} SigningInputReads(header: string, payload: Bytes)
    ensures SigningInput(header, payload).Success? <==> IsAscii(header)
    ensures IsAscii(header) ==>
              var (bytes, n) := (SigningInput(header, payload).value, |header|);
              && |bytes| > n && (forall i :: 0 <= i < n ==> bytes[i] == header[i] as int) && bytes[n] == '.' as int
              && (forall i :: n < i < |bytes| ==> bytes[i] < 128 && bytes[i] != '.' as int)
              && B64UrlDecode(seq(|bytes| - n - 1, i requires 0 <= i < |bytes| - n - 1 => bytes[n + 1 + i] as char))
                 == Success(payload)
  {
    hide B64Url, B64UrlDecode, Encode, Repeat;
    PaddingRestored(payload);
    B64UrlRoundTrip(payload);
    if IsAscii(header) {
      var bytes, n := SigningInput(header, payload).value, |header|;
      assert seq(|bytes| - n - 1, i requires 0 <= i < |bytes| - n - 1 => bytes[n + 1 + i] as char) == B64Url(payload);
    }
  }
}
