/** `_b58decode` of sm_bridge/trust/_es256_jws.py, and the encoder that inverts it. */
module Base58 {
  import opened ByteStrings
  import opened Wrappers
  import opened Bits

  // ----- positional numerals, most significant digit first --------------------------------

  /** The two bases at hand; a constant base keeps the arithmetic linear. */
  predicate IsBase(B: nat)
  {
    B == 58 || B == 256
  }

  ghost predicate AreDigits(B: nat, d: seq<nat>)
  {
    forall i :: 0 <= i < |d| ==> d[i] < B
  }

  function Value(B: nat, d: seq<nat>): nat
  {
    if d == [] then 0 else Value(B, d[..|d| - 1]) * B + d[|d| - 1]
  }

  /** The shortest numeral: no leading zero, and none at all for 0. */
  function Digits(B: nat, n: nat): seq<nat>
    requires IsBase(B)
  {
    if n == 0 then [] else Digits(B, n / B) + [n % B]
  }

  function Zeros(k: nat): (d: seq<nat>)
    ensures |d| == k
  {
    seq(k, _ => 0)
  }

  function LeadingZeros(d: seq<nat>): (k: nat)
    ensures k <= |d|
    ensures d[..k] == Zeros(k)
    ensures k < |d| ==> d[k] != 0
  {
    if d != [] && d[0] == 0 then
      var k := 1 + LeadingZeros(d[1..]);
      assert d[..k] == [0] + d[1..][..k - 1];
      k
    else 0
  }

  lemma {:induction false} DigitsProper(B: nat, n: nat)
    requires IsBase(B)
    ensures AreDigits(B, Digits(B, n)) && Value(B, Digits(B, n)) == n
    ensures n > 0 ==> Digits(B, n) != [] && Digits(B, n)[0] != 0
  {
    hide Digits;
    if n == 0 {
      DigitsOfZero(B);
    } else {
      DigitsStep(B, n);
      DivMod(B, n);
      DigitsProper(B, n / B);
      if n / B == 0 {
        DigitsOfZero(B);
      }
      var d := Digits(B, n);
      assert d[..|d| - 1] == Digits(B, n / B);
    }
  }

  lemma DivMod(B: nat, n: nat)
    requires IsBase(B)
    ensures n / B * B + n % B == n && n % B < B
  {
  }

  lemma DivModUnique(B: nat, q: nat, r: nat)
    requires IsBase(B) && r < B
    ensures (q * B + r) / B == q && (q * B + r) % B == r
    ensures q * B + r >= q && (q > 0 || r > 0 ==> q * B + r > 0)
  {
    if B == 58 {
      assert (q * 58 + r) / 58 == q;
    } else {
      assert (q * 256 + r) / 256 == q;
    }
  }

  lemma {:induction false} DigitsOfValue(B: nat, d: seq<nat>)
    requires IsBase(B) && AreDigits(B, d) && (d != [] ==> d[0] != 0)
    ensures Digits(B, Value(B, d)) == d
    ensures d != [] ==> Value(B, d) > 0
  {
    hide Digits;
    if d == [] {
      DigitsOfZero(B);
    } else {
      var (front, last) := (d[..|d| - 1], d[|d| - 1]);
      DigitsOfValue(B, front);
      DivModUnique(B, Value(B, front), last);
      assert front == [] ==> d == [last];
      DigitsStep(B, Value(B, d));
      assert d == front + [last];
    }
  }

  lemma DigitsStep(B: nat, n: nat)
    requires IsBase(B) && n > 0
    ensures Digits(B, n) == Digits(B, n / B) + [n % B]
  {
  }

  lemma {:induction false} ValueOfZeros(B: nat, k: nat, d: seq<nat>)
    ensures Value(B, Zeros(k) + d) == Value(B, d)
  {
    var z := Zeros(k) + d;
    if d != [] {
      ValueOfZeros(B, k, d[..|d| - 1]);
      assert z[..|z| - 1] == Zeros(k) + d[..|d| - 1];
    } else if k > 0 {
      ValueOfZeros(B, k - 1, d);
      assert z[..|z| - 1] == Zeros(k - 1) + d;
    }
  }

  /** A digit string is its count of leading zeros and its value. */
  lemma {:induction false} SplitJoin(B: nat, k: nat, n: nat)
    requires IsBase(B)
    ensures var d := Zeros(k) + Digits(B, n);
            AreDigits(B, d) && LeadingZeros(d) == k && Value(B, d) == n
  {
    hide Digits, LeadingZeros;
    DigitsProper(B, n);
    DigitsOfZero(B);
    ValueOfZeros(B, k, Digits(B, n));
    var d := Zeros(k) + Digits(B, n);
    assert n > 0 ==> d[k] == Digits(B, n)[0];
    LeadingZerosAre(d, k);
  }

  lemma {:induction false} LeadingZerosAre(d: seq<nat>, k: nat)
    requires k <= |d| && (forall i :: 0 <= i < k ==> d[i] == 0) && (k < |d| ==> d[k] != 0)
    ensures LeadingZeros(d) == k
  {
    if k > 0 {
      LeadingZerosAre(d[1..], k - 1);
    }
  }

  lemma DigitsOfZero(B: nat)
    requires IsBase(B)
    ensures Digits(B, 0) == []
  {
  }

  lemma {:induction false} JoinSplit(B: nat, d: seq<nat>)
    requires IsBase(B) && AreDigits(B, d)
    ensures d == Zeros(LeadingZeros(d)) + Digits(B, Value(B, d))
  {
    hide Digits, LeadingZeros;
    var k := LeadingZeros(d);
    var rest := d[k..];
    assert d == Zeros(k) + rest;
    ValueOfZeros(B, k, rest);
    DigitsOfValue(B, rest);
  }

  // ----- `int.to_bytes((n.bit_length() + 7) // 8, "big")` ---------------------------------

  function ToBytes(n: nat, len: nat): (b: seq<nat>)
    ensures |b| == len && AreDigits(256, b)
  {
    if len == 0 then [] else ToBytes(n / 256, len - 1) + [n % 256]
  }

  lemma {:induction false} BitLengthBelow(n: nat, k: nat, p: nat)
    requires p == Pow2(k) && n < p
    ensures BitLength(n) <= k
  {
    if n > 0 {
      BitLengthBelow(n / 2, k - 1, p / 2);
    }
  }

  lemma BitLengthOfByte(n: nat)
    ensures n < 256 ==> BitLength(n) <= 8
    ensures n >= 256 ==> BitLength(n) == 8 + BitLength(n / 256)
  {
    if n < 256 {
      assert Pow2(3) == 8;
      assert Pow2(6) == 64;
      assert Pow2(8) == 256;
      BitLengthBelow(n, 8, 256);
    } else {
      var a := n / 2 / 2 / 2 / 2;
      assert BitLength(n) == 2 + BitLength(n / 2 / 2);
      assert BitLength(n / 2 / 2) == 2 + BitLength(a);
      assert BitLength(a) == 2 + BitLength(a / 2 / 2);
      assert BitLength(a / 2 / 2) == 2 + BitLength(a / 2 / 2 / 2 / 2);
      assert a / 2 / 2 / 2 / 2 == n / 256;
    }
  }

  /** The computed length is exactly that of the shortest base-256 numeral. */
  lemma {:induction false} ToBytesIsDigits(n: nat)
    ensures ToBytes(n, (BitLength(n) + 7) / 8) == Digits(256, n)
  {
    BitLengthOfByte(n);
    if n > 0 {
      ToBytesIsDigits(n / 256);
      assert BitLength(n) > 0;
      assert (BitLength(n) + 7) / 8 - 1 == (BitLength(n / 256) + 7) / 8;
    }
  }

  // ----- the alphabet ---------------------------------------------------------------------

  function Letter(v: nat): char
    requires v < 58
  {
    if v < 9 then ('1' as int + v) as char
    else if v < 17 then ('A' as int + (v - 9)) as char
    else if v < 22 then ('J' as int + (v - 17)) as char
    else if v < 33 then ('P' as int + (v - 22)) as char
    else if v < 44 then ('a' as int + (v - 33)) as char
    else ('m' as int + (v - 44)) as char
  }

  /** `_B58.index(ch)`, which raises on a character outside the alphabet. */
  function Index(c: char): (v: Option<nat>)
    ensures v.Some? ==> v.value < 58 && Letter(v.value) == c
  {
    if '1' <= c <= '9' then Some(c as int - '1' as int)
    else if 'A' <= c <= 'H' then Some(c as int - 'A' as int + 9)
    else if 'J' <= c <= 'N' then Some(c as int - 'J' as int + 17)
    else if 'P' <= c <= 'Z' then Some(c as int - 'P' as int + 22)
    else if 'a' <= c <= 'k' then Some(c as int - 'a' as int + 33)
    else if 'm' <= c <= 'z' then Some(c as int - 'm' as int + 44)
    else None
  }

  lemma IndexOfLetter(v: nat)
    requires v < 58
    ensures Index(Letter(v)) == Some(v)
  {
  }

  predicate InAlphabet(s: string)
  {
    forall i :: 0 <= i < |s| ==> Index(s[i]).Some?
  }

  function Indices(s: string): (d: seq<nat>)
    requires InAlphabet(s)
    ensures |d| == |s| && AreDigits(58, d)
    ensures forall i :: 0 <= i < |s| ==> d[i] == Index(s[i]).value
  {
    seq(|s|, i requires 0 <= i < |s| => Index(s[i]).value)
  }

  function Letters(d: seq<nat>): (s: string)
    requires AreDigits(58, d)
    ensures |s| == |d|
    ensures forall i :: 0 <= i < |d| ==> s[i] == Letter(d[i])
  {
    seq(|d|, i requires 0 <= i < |d| => Letter(d[i]))
  }

  // ----- decoder and encoder --------------------------------------------------------------

  /** `len(s) - len(s.lstrip("1"))`. */
  function LeadingOnes(s: string): (k: nat)
    ensures k <= |s|
  {
    if s != [] && s[0] == '1' then 1 + LeadingOnes(s[1..]) else 0
  }

  function Decode(s: string): Result<seq<nat>, char>
  {
    if !InAlphabet(s) then Failure(FirstOutside(s))
    else
      var num := Value(58, Indices(s));
      Success(Zeros(LeadingOnes(s)) + ToBytes(num, (BitLength(num) + 7) / 8))
  }

  function FirstOutside(s: string): char
    requires !InAlphabet(s)
  {
    if Index(s[0]).None? then s[0] else FirstOutside(s[1..])
  }

  method B58Decode(s: string) returns (result: Result<seq<nat>, char>)
    ensures result == Decode(s)
  {
    var num := 0;
    for i := 0 to |s|
      invariant InAlphabet(s[..i])
      invariant num == Value(58, Indices(s[..i]))
    {
      if Index(s[i]).None? {
        FirstOutsideAt(s, i);
        return Failure(s[i]);
      }
      assert Indices(s[..i + 1])[..i] == Indices(s[..i]);
      num := num * 58 + Index(s[i]).value;
    }
    assert s[..|s|] == s;
    var raw := ToBytes(num, (BitLength(num) + 7) / 8);
    var pad := LeadingOnes(s);
    return Success(Zeros(pad) + raw);
  }

  lemma {:induction false} FirstOutsideAt(s: string, i: nat)
    requires i < |s| && InAlphabet(s[..i]) && Index(s[i]).None?
    ensures !InAlphabet(s) && FirstOutside(s) == s[i]
  {
    if i > 0 {
      assert Index(s[..i][0]).Some?;
      assert s[1..][..i - 1] == s[..i][1..];
      FirstOutsideAt(s[1..], i - 1);
    }
  }

  function Encode(b: Bytes): string
  {
    EncodeIsDigits(b);
    Letters(Zeros(LeadingZeros(b)) + Digits(58, Value(256, b)))
  }

  lemma EncodeIsDigits(b: Bytes)
    ensures AreDigits(58, Zeros(LeadingZeros(b)) + Digits(58, Value(256, b)))
  {
    SplitJoin(58, LeadingZeros(b), Value(256, b));
  }

  lemma {:induction false} LeadingOnesAreZeros(s: string)
    requires InAlphabet(s)
    ensures LeadingOnes(s) == LeadingZeros(Indices(s))
  {
    if s != [] {
      assert Indices(s)[1..] == Indices(s[1..]);
      LeadingOnesAreZeros(s[1..]);
    }
  }

  /** Strings over the alphabet and byte strings correspond one to one. */
  lemma DecodeEncode(b: Bytes)
    ensures Decode(Encode(b)) == Success(b)
  {
    hide Digits, LeadingZeros, Value, LeadingOnes;
    EncodeIsDigits(b);
    var k, num := LeadingZeros(b), Value(256, b);
    var d := Zeros(k) + Digits(58, num);
    var s := Letters(d);
    forall i | 0 <= i < |s| ensures Index(s[i]) == Some(d[i]) {
      IndexOfLetter(d[i]);
    }
    assert Indices(s) == d;
    SplitJoin(58, k, num);
    LeadingOnesAreZeros(s);
    ToBytesIsDigits(num);
    JoinSplit(256, b);
  }

  lemma {:induction false} EncodeDecode(s: string)
    requires InAlphabet(s)
    ensures Decode(s).Success? && AreDigits(256, Decode(s).value) && Encode(Decode(s).value) == s
  {
    hide Digits, LeadingZeros, Value, LeadingOnes;
    var d := Indices(s);
    var num := Value(58, d);
    LeadingOnesAreZeros(s);
    ToBytesIsDigits(num);
    SplitJoin(256, LeadingZeros(d), num);
    JoinSplit(58, d);
  }

  // ----- what the text stands for ---------------------------------------------------------

  /** The base-58 alphabet has no '0', 'O', 'I' and 'l'. */
  const ALPHABET := "123456789" + "ABCDEFGHJKLMNPQRSTUVWXYZ" + "abcdefghijkmnopqrstuvwxyz"

  lemma UpperIs(v: nat)
    requires v < 24
    ensures "ABCDEFGHJKLMNPQRSTUVWXYZ"[v] == Letter(9 + v)
  {
  }

  lemma LowerIs(v: nat)
    requires v < 25
    ensures "abcdefghijkmnopqrstuvwxyz"[v] == Letter(33 + v)
  {
  }

  /** A character's value is its place in the alphabet. */
  lemma LetterIs(v: nat)
    requires v < 58
    ensures |ALPHABET| == 58 && Letter(v) == ALPHABET[v] && Index(ALPHABET[v]) == Some(v)
  {
    IndexOfLetter(v);
    if 9 <= v < 33 {
      UpperIs(v - 9);
    } else if v >= 33 {
      LowerIs(v - 33);
    }
  }

  lemma {:induction false} IndexIs(c: char)
    ensures Index(c).Some? <==> c in ALPHABET
    ensures Index(c).Some? ==> Index(c).value < |ALPHABET| && ALPHABET[Index(c).value] == c
  {
    hide Letter;
    if Index(c).Some? {
      LetterIs(Index(c).value);
    }
    if c in ALPHABET {
      var i :| 0 <= i < |ALPHABET| && ALPHABET[i] == c;
      LetterIs(i);
    }
  }

  function Pow(B: nat, k: nat): nat
  {
    if k == 0 then 1 else B * Pow(B, k - 1)
  }

  /** The sum of the digits, each times the power of the base for its place, most significant first. */
  function Weighted(B: nat, d: seq<nat>): nat
  {
    if d == [] then 0 else d[0] * Pow(B, |d| - 1) + Weighted(B, d[1..])
  }

  lemma {:induction false} ValueSplit(B: nat, x: nat, d: seq<nat>)
    requires IsBase(B)
    ensures Value(B, [x] + d) == x * Pow(B, |d|) + Value(B, d)
  {
    if d == [] {
      assert ([x] + d)[..0] == [];
    } else {
      var n := |d| - 1;
      ValueSplit(B, x, d[..n]);
      assert ([x] + d)[..n + 1] == [x] + d[..n];
      Carry(B, x, Pow(B, n), Value(B, d[..n]), d[n]);
    }
  }

  lemma Carry(B: nat, x: nat, p: nat, v: nat, last: nat)
    requires IsBase(B)
    ensures (x * p + v) * B + last == x * (B * p) + (v * B + last)
  {
  }

  lemma {:induction false} ValueIsWeighted(B: nat, d: seq<nat>)
    requires IsBase(B)
    ensures Value(B, d) == Weighted(B, d)
  {
    if d != [] {
      assert d == [d[0]] + d[1..];
      ValueSplit(B, d[0], d[1..]);
      ValueIsWeighted(B, d[1..]);
    }
  }

  /** Decoding succeeds exactly on strings over the alphabet, with a zero byte for each leading '1' and no other
      leading zero, and with the number that the characters stand for; else it reports the first foreign one. */
  lemma {:induction false} DecodeIs(s: string)
    ensures match Decode(s)
            case Failure(c) =>
              exists i :: 0 <= i < |s| && s[i] == c && c !in ALPHABET && forall j :: 0 <= j < i ==> s[j] in ALPHABET
            case Success(b) =>
              && (forall c <- s :: c in ALPHABET)
              && AreDigits(256, b) && LeadingZeros(b) == LeadingOnes(s)
              && (InAlphabet(s) ==> Weighted(256, b) == Weighted(58, Indices(s)))
    ensures (forall j :: 0 <= j < LeadingOnes(s) ==> s[j] == '1') && (LeadingOnes(s) < |s| ==> s[LeadingOnes(s)] != '1')
  {
    hide Digits, LeadingZeros, Value, Weighted, Index, ALPHABET, InAlphabet, LeadingOnes, ToBytes, BitLength;
    OnesLead(s);
    if InAlphabet(s) {
      DecodedBytes(s);
      forall i | 0 <= i < |s| ensures s[i] in ALPHABET {
        LettersOnly(s, i);
      }
    } else {
      var i := FirstOutsideIs(s);
      forall j | 0 <= j <= i ensures s[j] in ALPHABET <==> Index(s[j]).Some? {
        IndexIs(s[j]);
      }
    }
  }

  lemma LettersOnly(s: string, i: nat)
    requires InAlphabet(s) && i < |s|
    ensures s[i] in ALPHABET
  {
    hide Index, ALPHABET;
    IndexIs(s[i]);
  }

  lemma {:induction false} DecodedBytes(s: string)
    requires InAlphabet(s)
    ensures var b := Decode(s).value;
            Decode(s).Success? && AreDigits(256, b) && LeadingZeros(b) == LeadingOnes(s)
            && Weighted(256, b) == Weighted(58, Indices(s))
  {
    hide Digits, LeadingZeros, Value, Weighted, Index, LeadingOnes, ToBytes, BitLength;
    var num := Value(58, Indices(s));
    ToBytesIsDigits(num);
    SplitJoin(256, LeadingOnes(s), num);
    ValueIsWeighted(58, Indices(s));
    ValueIsWeighted(256, Zeros(LeadingOnes(s)) + Digits(256, num));
  }

  lemma {:induction false} OnesLead(s: string)
    ensures (forall j :: 0 <= j < LeadingOnes(s) ==> s[j] == '1') && (LeadingOnes(s) < |s| ==> s[LeadingOnes(s)] != '1')
  {
    if s != [] && s[0] == '1' {
      OnesLead(s[1..]);
    }
  }

  lemma {:induction false} FirstOutsideIs(s: string) returns (i: nat)
    requires !InAlphabet(s)
    ensures i < |s| && s[i] == FirstOutside(s) && Index(s[i]).None? && forall j :: 0 <= j < i ==> Index(s[j]).Some?
  {
    if Index(s[0]).None? {
      i := 0;
    } else {
      i := FirstOutsideIs(s[1..]);
      i := i + 1;
    }
  }
}
