/** Strings and integers as `json.dumps`, with either setting of `ensure_ascii`, and `str` print them. */
module JsonText {
  function Hex(n: int): char
    requires 0 <= n < 16
  {
    if n < 10 then ('0' as int + n) as char else ('a' as int + (n - 10)) as char
  }

  /** A UTF-16 code unit as four hexadecimal digits. */
  function Escape(unit: int): (s: string)
    requires 0 <= unit < 0x10000
    ensures |s| == 6 && s[0] == '\\' && s[1] == 'u'
  {
    ['\\', 'u', Hex(unit / 0x1000), Hex(unit / 0x100 % 16), Hex(unit / 16 % 16), Hex(unit % 16)]
  }

  /** One escape, or a surrogate pair of two. */
  function Escapes(c: char): (s: string)
    ensures |s| >= 6 && s[0] == '\\' && s[1] == 'u'
  {
    var n := c as int;
    if n < 0x10000 then Escape(n)
    else Escape(0xD800 + (n - 0x10000) / 0x400) + Escape(0xDC00 + (n - 0x10000) % 0x400)
  }

  /** `ensure_ascii=False` leaves characters outside ASCII as they are; the default escapes them. */
  datatype Quoting = Raw | Ascii

  predicate Escaped(q: Quoting, c: char)
  {
    (c as int < 32 && c !in "\n\r\t" && c as int != 8 && c as int != 12) || (q.Ascii? && c as int > 126)
  }

  function EscChar(q: Quoting, c: char): (s: string)
    ensures |s| > 0 && s[0] != '"'
  {
    if c == '"' then "\\\""
    else if c == '\\' then "\\\\"
    else if c == '\n' then "\\n"
    else if c == '\r' then "\\r"
    else if c == '\t' then "\\t"
    else if c as int == 8 then "\\b"
    else if c as int == 12 then "\\f"
    else if Escaped(q, c) then Escapes(c)
    else [c]
  }

  function Esc(q: Quoting, s: string): string
  {
    if s == [] then [] else EscChar(q, s[0]) + Esc(q, s[1..])
  }

  function Quote(q: Quoting, s: string): string
  {
    "\"" + Esc(q, s) + "\""
  }

  /** Which characters stand for themselves, which take a two-character escape, and how the others are written:
      the shortest form, with lower-case digits. */
  lemma {:induction false} EscapeForms(q: Quoting, c: char)
    ensures EscChar(q, c) == [c] <==> c as int >= 32 && c != '"' && c != '\\' && (q.Ascii? ==> c as int <= 126)
    ensures |EscChar(q, c)| == 2 <==> c == '"' || c == '\\' || c as int in {8, 9, 10, 12, 13}
    ensures |EscChar(q, c)| > 2 ==> forall i :: 0 <= i < |EscChar(q, c)| ==> EscChar(q, c)[i] in "\\u0123456789abcdef"
  {
    hide Escapes;
    EscapeDigits(c);
  }

  lemma {:induction false} EscapeDigits(c: char)
    ensures |Escapes(c)| >= 6
    ensures forall i :: 0 <= i < |Escapes(c)| ==> Escapes(c)[i] in "\\u0123456789abcdef"
  {
    hide Escape;
    if c as int < 0x10000 {
      UnitDigits(c as int);
    } else {
      UnitDigits(0xD800 + (c as int - 0x10000) / 0x400);
      UnitDigits(0xDC00 + (c as int - 0x10000) % 0x400);
    }
  }

  lemma UnitDigits(unit: int)
    requires 0 <= unit < 0x10000
    ensures forall i :: 0 <= i < 6 ==> Escape(unit)[i] in "\\u0123456789abcdef"
  {
    hide Hex;
    LowerCase(unit / 0x1000);
    LowerCase(unit / 0x100 % 16);
    LowerCase(unit / 16 % 16);
    LowerCase(unit % 16);
  }

  lemma LowerCase(n: int)
    requires 0 <= n < 16
    ensures Hex(n) == "0123456789abcdef"[n]
  {
  }

  // ----- integers -------------------------------------------------------------------------

  predicate IsDigit(c: char)
  {
    '0' <= c <= '9'
  }

  function DigitChar(n: int): char
    requires 0 <= n < 10
  {
    ('0' as int + n) as char
  }

  function NatText(n: nat): (s: string)
    ensures |s| > 0 && forall i :: 0 <= i < |s| ==> IsDigit(s[i])
  {
    if n < 10 then [DigitChar(n)] else NatText(n / 10) + [DigitChar(n % 10)]
  }

  function IntText(n: int): string
  {
    if n < 0 then "-" + NatText(-n) else NatText(n)
  }

  /** No leading zero. */
  lemma {:induction false} NatTextFirst(n: nat)
    ensures NatText(n)[0] == '0' <==> n == 0
  {
    if n >= 10 {
      NatTextFirst(n / 10);
    }
  }
}
