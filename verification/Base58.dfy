/** The base58btc codecs of backend/did/did_peer.js and backend/did/did.service.js. */
module Base58 {
  import opened Numerals
  import Hex
  import opened Wrappers

  const FIGURES: string := "123456789"
  const UPPER_A_H: string := "ABCDEFGH"
  const UPPER_J_N: string := "JKLMN"
  const UPPER_P_Z: string := "PQRSTUVWXYZ"
  const LOWER_A_K: string := "abcdefghijk"
  const LOWER_M_Z: string := "mnopqrstuvwxyz"

  /** The figures and letters in order, without 0, I, O and l. */
  const ALPHABET: string := FIGURES + (UPPER_A_H + (UPPER_J_N + (UPPER_P_Z + (LOWER_A_K + LOWER_M_Z))))

  ghost predicate Bytes(bs: seq<nat>) { DigitsOf(bs, 256) }

  // ---- the alphabet -------------------------------------------------------

  function IndexFrom(s: string, c: char, i: nat): (r: Option<nat>)
    requires i <= |s|
    ensures r.Some? ==> r.value < |s| && s[r.value] == c
    ensures r.None? ==> forall j :: i <= j < |s| ==> s[j] != c
    decreases |s| - i
  {
    if i == |s| then None else if s[i] == c then Some(i) else IndexFrom(s, c, i + 1)
  }

  function IndexOf(c: char): Option<nat> { IndexFrom(ALPHABET, c, 0) }

  function Letter(d: nat): char
    requires d < 58
  {
    ALPHABET[d]
  }

  ghost predicate Rising(s: string) { forall i :: 0 <= i < |s| - 1 ==> s[i] < s[i + 1] }

  lemma {:induction false} RisingApart(s: string, i: nat, j: nat)
    requires Rising(s) && i < j < |s|
    ensures s[i] < s[j]
    decreases j
  {
    if i + 1 < j {
      RisingApart(s, i, j - 1);
    }
  }

  lemma RisingConcat(a: string, b: string)
    requires Rising(a) && Rising(b) && a != "" && b != "" && a[|a| - 1] < b[0]
    ensures Rising(a + b) && (a + b)[0] == a[0]
  {
  }

  lemma AlphabetRises()
    ensures |ALPHABET| == 58 && Rising(ALPHABET) && ALPHABET[0] == '1'
  {
    var e := LOWER_A_K + LOWER_M_Z;
    var d := UPPER_P_Z + e;
    var c := UPPER_J_N + d;
    var b := UPPER_A_H + c;
    RisingConcat(LOWER_A_K, LOWER_M_Z);
    RisingConcat(UPPER_P_Z, e);
    RisingConcat(UPPER_J_N, d);
    RisingConcat(UPPER_A_H, c);
    RisingConcat(FIGURES, b);
  }

  /** The alphabet has no letter twice. */
  lemma IndexOfLetter(d: nat)
    requires d < 58
    ensures IndexOf(Letter(d)) == Some(d)
  {
    hide IndexFrom;
    AlphabetRises();
    var r := IndexOf(Letter(d));
    if r.Some? && r.value < d {
      RisingApart(ALPHABET, r.value, d);
    } else if r.Some? && d < r.value {
      RisingApart(ALPHABET, d, r.value);
    }
  }

  /** A run of consecutive characters. */
  ghost predicate Run(s: string, first: char) { forall i :: 0 <= i < |s| ==> s[i] as int == first as int + i }

  lemma InRun(s: string, first: char, c: char)
    requires Run(s, first)
    ensures c in s <==> first as int <= c as int < first as int + |s|
  {
    if first as int <= c as int < first as int + |s| {
      assert s[c as int - first as int] == c;
    }
  }

  lemma FigureRuns()
    ensures |FIGURES| == 9 && Run(FIGURES, '1') && |UPPER_A_H| == 8 && Run(UPPER_A_H, 'A')
    ensures |UPPER_J_N| == 5 && Run(UPPER_J_N, 'J')
  {
  }

  lemma LetterRuns()
    ensures |UPPER_P_Z| == 11 && Run(UPPER_P_Z, 'P')
    ensures |LOWER_A_K| == 11 && Run(LOWER_A_K, 'a') && |LOWER_M_Z| == 14 && Run(LOWER_M_Z, 'm')
  {
  }

  /** The characters with an index are the figures and letters other than 0, I, O and l. */
  lemma AlphabetIs(c: char)
    ensures IndexOf(c).Some? <==>
      ('0' <= c <= '9' || 'A' <= c <= 'Z' || 'a' <= c <= 'z') && c != '0' && c != 'I' && c != 'O' && c != 'l'
  {
    hide Run;
    FigureRuns();
    LetterRuns();
    InRun(FIGURES, '1', c);
    InRun(UPPER_A_H, 'A', c);
    InRun(UPPER_J_N, 'J', c);
    InRun(UPPER_P_Z, 'P', c);
    InRun(LOWER_A_K, 'a', c);
    InRun(LOWER_M_Z, 'm', c);
    assert IndexOf(c).Some? <==> c in ALPHABET;
  }

  function Text(ds: seq<nat>): string
    requires forall i :: 0 <= i < |ds| ==> ds[i] < 58
  {
    if ds == [] then "" else Text(ds[..|ds| - 1]) + [Letter(ds[|ds| - 1])]
  }

  predicate Valid(s: string) { forall i :: 0 <= i < |s| ==> IndexOf(s[i]).Some? }

  function DigitsIn(s: string): (ds: seq<nat>)
    requires Valid(s)
    ensures |ds| == |s| && forall i :: 0 <= i < |s| ==> ds[i] < 58 && ds[i] == IndexOf(s[i]).value
  {
    AlphabetRises();
    seq(|s|, i requires 0 <= i < |s| => IndexOf(s[i]).value)
  }

  lemma {:induction false} TextAt(ds: seq<nat>)
    requires forall i :: 0 <= i < |ds| ==> ds[i] < 58
    ensures |Text(ds)| == |ds| && forall i :: 0 <= i < |ds| ==> Text(ds)[i] == Letter(ds[i])
  {
    hide Letter;
    if ds != [] {
      TextAt(ds[..|ds| - 1]);
    }
  }

  lemma TextOfDigits(ds: seq<nat>)
    requires forall i :: 0 <= i < |ds| ==> ds[i] < 58
    ensures Valid(Text(ds)) && DigitsIn(Text(ds)) == ds
  {
    hide IndexOf, Letter, Text;
    TextAt(ds);
    forall i | 0 <= i < |ds| ensures IndexOf(Text(ds)[i]) == Some(ds[i]) {
      IndexOfLetter(ds[i]);
    }
  }

  lemma DigitsOfText(s: string)
    requires Valid(s)
    ensures Text(DigitsIn(s)) == s
  {
    hide IndexOf, Text;
    AlphabetRises();
    var ds := DigitsIn(s);
    TextAt(ds);
    forall i | 0 <= i < |s| ensures Text(ds)[i] == s[i] {
      LetterOfIndex(s[i]);
    }
  }

  lemma LetterOfIndex(c: char)
    requires IndexOf(c).Some?
    ensures IndexOf(c).value < 58 && Letter(IndexOf(c).value) == c
  {
    hide IndexFrom;
    AlphabetRises();
  }

  // ---- hexadecimal buffers ------------------------------------------------

  /** The two hexadecimal digits of a byte. */
  function Pair(b: nat): (s: string)
    requires b < 256
    ensures |s| == 2
  {
    [Hex.Digit(b / 16), Hex.Digit(b % 16)]
  }

  /** Buffer.toString('hex'). */
  function BytesToHex(bs: seq<nat>): string
    requires forall i :: 0 <= i < |bs| ==> bs[i] < 256
  {
    if bs == [] then ""
    else BytesToHex(bs[..|bs| - 1]) + Pair(bs[|bs| - 1])
  }

  function HexValue(c: char): (d: nat)
    ensures d < 16
  {
    if Hex.DigitValue(c).Some? then Hex.DigitValue(c).value else 0
  }

  /** Buffer.from(h, 'hex') for an even number of digits. */
  function HexToBytes(h: string): (bs: seq<nat>)
    ensures forall i :: 0 <= i < |bs| ==> bs[i] < 256
  {
    if |h| < 2 then [] else HexToBytes(h[..|h| - 2]) + [HexValue(h[|h| - 2]) * 16 + HexValue(h[|h| - 1])]
  }

  /** A number as hexadecimal text of even length: at least two digits, a zero before an odd number. */
  function EvenHex(x: nat): string {
    var hex := Hex.PadStart(Hex.ToHex(x), 2);
    if |hex| % 2 == 1 then "0" + hex else hex
  }

  lemma ParseOne(s: string, c: char, d: nat)
    requires Hex.DigitValue(c) == Some(d) && (s == "" || Hex.ParseHex(s).Some?)
    ensures Hex.ParseHex(s + [c]) == Some((if s == "" then 0 else Hex.ParseHex(s).value) * 16 + d)
  {
    hide Hex.DigitValue;
    var one := s + [c];
    assert one[..|one| - 1] == s;
  }

  lemma SixteenTwice(v: nat, b: nat)
    ensures (v * 16 + b / 16) * 16 + b % 16 == v * 256 + b
  {
  }

  lemma ParseTwo(s: string, b: nat)
    requires b < 256 && (s == "" || Hex.ParseHex(s).Some?)
    ensures Hex.ParseHex(s + Pair(b))
         == Some((if s == "" then 0 else Hex.ParseHex(s).value) * 256 + b)
  {
    hide Hex.ParseHex, Hex.DigitValue, Hex.Digit;
    var a, d := b / 16, b % 16;
    var high, low := Hex.Digit(a), Hex.Digit(d);
    assert s + [high] + [low] == s + Pair(b);
    Hex.DigitRoundTrip(a);
    Hex.DigitRoundTrip(d);
    SixteenTwice(if s == "" then 0 else Hex.ParseHex(s).value, b);
    hide Pair;
    ParseOne(s, high, a);
    ParseOne(s + [high], low, d);
  }

  /** BigInt of the hexadecimal text of a buffer is its value in base 256; of an empty one, an error. */
  lemma {:induction false} HexIsValue(bs: seq<nat>)
    requires Bytes(bs)
    ensures Hex.ParseHex(BytesToHex(bs)) == if bs == [] then None else Some(Value(bs, 256))
  {
    hide Hex.ParseHex, Pair, Value, BytesToHex;
    if bs == [] {
      NoHex();
    } else {
      var front := bs[..|bs| - 1];
      HexIsValue(front);
      HexEmpty(front);
      HexStep(bs);
      ParseTwo(BytesToHex(front), bs[|bs| - 1]);
    }
  }

  lemma NoHex()
    ensures BytesToHex([]) == "" && Hex.ParseHex("") == None
  {
  }

  lemma HexStep(bs: seq<nat>)
    requires Bytes(bs) && bs != []
    ensures BytesToHex(bs) == BytesToHex(bs[..|bs| - 1]) + Pair(bs[|bs| - 1])
    ensures Value(bs, 256) == (if bs[..|bs| - 1] == [] then 0 else Value(bs[..|bs| - 1], 256)) * 256 + bs[|bs| - 1]
  {
    hide Pair;
  }

  lemma HexEmpty(bs: seq<nat>)
    requires Bytes(bs)
    ensures BytesToHex(bs) == "" <==> bs == []
  {
  }

  lemma HexPair(b: nat)
    requires b < 256
    ensures HexValue(Pair(b)[0]) * 16 + HexValue(Pair(b)[1]) == b
  {
    hide Hex.Digit, Hex.DigitValue;
    Hex.DigitRoundTrip(b / 16);
    Hex.DigitRoundTrip(b % 16);
  }

  lemma HexToBytesAppend(h: string, b: nat)
    requires b < 256
    ensures HexToBytes(h + Pair(b)) == HexToBytes(h) + [b]
  {
    var all := h + Pair(b);
    assert all[..|all| - 2] == h && all[|all| - 2] == Pair(b)[0] && all[|all| - 1] == Pair(b)[1];
    HexPair(b);
    hide Pair, HexValue;
  }

  lemma ToHexTwo(x: nat)
    requires x >= 256
    ensures Hex.ToHex(x) == Hex.ToHex(x / 256) + Pair(x % 256)
  {
    assert x / 16 >= 16 && x / 16 / 16 == x / 256 && x / 16 % 16 == x % 256 / 16 && x % 16 == x % 256 % 16;
    assert Hex.ToHex(x) == Hex.ToHex(x / 16) + [Hex.Digit(x % 16)];
    assert Hex.ToHex(x / 16) == Hex.ToHex(x / 16 / 16) + [Hex.Digit(x / 16 % 16)];
  }

  lemma EvenHexTwo(x: nat)
    requires x >= 256
    ensures EvenHex(x) == EvenHex(x / 256) + Pair(x % 256)
  {
    hide Hex.ToHex;
    ToHexTwo(x);
    var h := Hex.ToHex(x / 256);
    assert Hex.Zeros(1) == "0" && Hex.Zeros(0) == "";
  }

  /** The buffer of a positive number's hexadecimal text is its digits in base 256. */
  lemma {:induction false} EvenHexDigits(x: nat)
    requires x > 0
    ensures HexToBytes(EvenHex(x)) == Digits(x, 256)
  {
    if x < 256 {
      SmallEvenHex(x);
    } else {
      hide EvenHex, HexToBytes;
      EvenHexTwo(x);
      EvenHexDigits(x / 256);
      HexToBytesAppend(EvenHex(x / 256), x % 256);
    }
  }

  lemma SmallEvenHex(x: nat)
    requires 0 < x < 256
    ensures HexToBytes(EvenHex(x)) == Digits(x, 256) == [x]
  {
    hide Hex.Digit, Hex.DigitValue;
    Hex.DigitZero();
    assert Quotient(x, 256) == 0 && Digits(0, 256) == [];
    assert Hex.Zeros(1) == "0";
    assert EvenHex(x) == [] + Pair(x) by {
      if x >= 16 {
        assert Hex.ToHex(x) == Hex.ToHex(x / 16) + [Hex.Digit(x % 16)];
        assert Hex.ToHex(x / 16) == [Hex.Digit(x / 16)];
      }
    }
    HexToBytesAppend([], x);
    assert HexToBytes([]) == [];
  }

  // ---- base58btcEncode and base58btcDecode --------------------------------

  function Ones(n: nat): string { seq(n, _ => '1') }

  /** Leading zero bytes as '1', then the digits of the value. */
  function Encoded(bs: seq<nat>): string {
    ValueOfDigits(Value(bs, 256), 58);
    Ones(LeadingZeros(bs)) + Text(Digits(Value(bs, 256), 58))
  }

  function Decoded(s: string): seq<nat>
    requires Valid(s)
  {
    Zeros(LeadingZeros(DigitsIn(s))) + Digits(Value(DigitsIn(s), 58), 256)
  }

  /** base58btcEncode. The empty buffer makes BigInt throw. */
  method Base58btcEncode(bytes: seq<nat>) returns (r: Option<string>)
    requires Bytes(bytes)
    ensures r == if bytes == [] then None else Some(Encoded(bytes))
    ensures r.Some? ==> Valid(r.value) && Decoded(r.value) == bytes
  {
    hide Value, Digits, Letter, Hex.ParseHex, BytesToHex;
    HexIsValue(bytes);
    var parsed := Hex.ParseHex(BytesToHex(bytes));
    if parsed.None? {
      return None;
    }
    var value := parsed.value;
    var encoded := "";
    ValueOfDigits(value, 58);
    ghost var all := Text(Digits(value, 58));
    while value > 0
      invariant value >= 0 && DigitsOf(Digits(value, 58), 58)
      invariant all == Text(Digits(value, 58)) + encoded
    {
      var remainder := Remainder(value, 58);
      NextDigit(value);
      encoded := [Letter(remainder)] + encoded;
      value := Quotient(value, 58);
      ValueOfDigits(value, 58);
    }
    NoDigits();
    assert all == encoded;
    var leadingZeroes := CountZeroes(bytes);
    r := Some(Ones(leadingZeroes) + encoded);
    SomeText(bytes);
    DecodeEncode(bytes);
  }

  lemma NextDigit(value: nat)
    requires value > 0 && DigitsOf(Digits(value, 58), 58)
    ensures DigitsOf(Digits(Quotient(value, 58), 58), 58)
    ensures Text(Digits(value, 58)) == Text(Digits(Quotient(value, 58), 58)) + [Letter(Remainder(value, 58))]
  {
    hide Letter;
    ValueOfDigits(Quotient(value, 58), 58);
    var ds := Digits(value, 58);
    assert ds[..|ds| - 1] == Digits(Quotient(value, 58), 58);
  }

  lemma NoDigits()
    ensures Digits(0, 58) == [] && Text([]) == ""
  {
  }

  /** The result is never empty, so the code's fallback to "1" is not taken. */
  lemma SomeText(bytes: seq<nat>)
    requires Bytes(bytes) && bytes != []
    ensures Encoded(bytes) != ""
  {
    var x := Value(bytes, 256);
    NumeralSplit(bytes, 256);
    ValueOfDigits(x, 58);
    TextAt(Digits(x, 58));
  }

  method CountZeroes(ds: seq<nat>) returns (n: nat)
    ensures n == LeadingZeros(ds)
  {
    n := 0;
    while n < |ds| && ds[n] == 0
      invariant n <= |ds| && forall i :: 0 <= i < n ==> ds[i] == 0
      decreases |ds| - n
    {
      n := n + 1;
    }
  }

  /** base58btcDecode. */
  method Base58btcDecode(s: string) returns (r: Option<seq<nat>>)
    ensures r == if s == "" || !Valid(s) then None else Some(Decoded(s))
    ensures r.Some? ==> Bytes(r.value) && Encoded(r.value) == s
  {
    hide Digits, IndexOf, EvenHex, HexToBytes, Decoded, Encoded;
    if |s| == 0 {
      return None;
    }
    var numericValue: nat := 0;
    for i := 0 to |s|
      invariant Valid(s[..i]) && numericValue == Value(DigitsIn(s[..i]), 58)
    {
      var digit := IndexOf(s[i]);
      if digit.None? {
        return None;
      }
      NextLetter(s, i);
      numericValue := numericValue * 58 + digit.value;
    }
    assert s[..|s|] == s;
    var decoded := if numericValue == 0 then [] else HexToBytes(EvenHex(numericValue));
    if numericValue > 0 {
      EvenHexDigits(numericValue);
    }
    var leadingOnes := 0;
    while leadingOnes < |s| && s[leadingOnes] == '1'
      invariant leadingOnes <= |s| && forall i :: 0 <= i < leadingOnes ==> s[i] == '1'
      decreases |s| - leadingOnes
    {
      leadingOnes := leadingOnes + 1;
    }
    OnesAreZeros(s, leadingOnes);
    r := Some(Zeros(leadingOnes) + decoded);
    DecodedIs(s);
    EncodeDecode(s);
  }

  lemma DecodedIs(s: string)
    requires Valid(s)
    ensures
      var x := Value(DigitsIn(s), 58);
      Decoded(s) == Zeros(LeadingZeros(DigitsIn(s))) + (if x == 0 then [] else Digits(x, 256))
  {
  }

  lemma NextLetter(s: string, i: nat)
    requires i < |s| && Valid(s[..i]) && IndexOf(s[i]).Some?
    ensures Valid(s[..i + 1]) && Value(DigitsIn(s[..i + 1]), 58) == Value(DigitsIn(s[..i]), 58) * 58 + IndexOf(s[i]).value
  {
    hide IndexOf;
    var ds := DigitsIn(s[..i + 1]);
    assert ds[..i] == DigitsIn(s[..i]);
  }

  lemma OnesAreZeros(s: string, n: nat)
    requires Valid(s) && n <= |s| && (forall i :: 0 <= i < n ==> s[i] == '1') && (n < |s| ==> s[n] != '1')
    ensures LeadingZeros(DigitsIn(s)) == n
  {
    hide IndexOf, LeadingZeros, Letter;
    var m := LeadingZeros(DigitsIn(s));
    OneIsZero();
    if n < |s| {
      LetterOfIndex(s[n]);
    }
    assert n < |s| ==> DigitsIn(s)[n] == IndexOf(s[n]).value;
    assert m < |s| ==> DigitsIn(s)[m] == IndexOf(s[m]).value;
  }

  lemma OneIsZero()
    ensures IndexOf('1') == Some(0) && Letter(0) == '1'
  {
    AlphabetRises();
    IndexOfLetter(0);
  }

  // ---- both round trips ---------------------------------------------------

  lemma EncodedDigits(bs: seq<nat>)
    requires Bytes(bs)
    ensures Valid(Encoded(bs)) && DigitsIn(Encoded(bs)) == Zeros(LeadingZeros(bs)) + Digits(Value(bs, 256), 58)
  {
    hide IndexOf, Letter;
    var n, ds := LeadingZeros(bs), Digits(Value(bs, 256), 58);
    ValueOfDigits(Value(bs, 256), 58);
    var all := Zeros(n) + ds;
    OneIsZero();
    TextAt(ds);
    TextAt(all);
    assert Text(all) == Encoded(bs) by {
      forall i | 0 <= i < |all| ensures Text(all)[i] == Encoded(bs)[i] {
      }
    }
    TextOfDigits(all);
  }

  /** Decoding what was encoded gives the bytes back, leading zeros included. */
  lemma DecodeEncode(bs: seq<nat>)
    requires Bytes(bs) && bs != []
    ensures Valid(Encoded(bs)) && Encoded(bs) != "" && Decoded(Encoded(bs)) == bs
  {
    hide Encoded, IndexOf, Letter, Digits, Value, LeadingZeros;
    EncodedDigits(bs);
    SomeText(bs);
    RebaseBack(bs, 256, 58);
  }

  /** Encoding what was decoded gives the text back. */
  lemma EncodeDecode(s: string)
    requires Valid(s) && s != ""
    ensures Bytes(Decoded(s)) && Decoded(s) != [] && Encoded(Decoded(s)) == s
  {
    hide IndexOf, Letter, Digits, Value, LeadingZeros, Valid;
    var ds, out := DigitsIn(s), Decoded(s);
    assert DigitsOf(ds, 58);
    RebaseBack(ds, 58, 256);
    EncodedDigits(out);
    DigitsOfText(s);
    DigitsOfText(Encoded(out));
    EmptyNumeral(ds, out);
  }

  lemma EmptyNumeral(ds: seq<nat>, out: seq<nat>)
    requires ds != [] && DigitsOf(out, 256) && Zeros(LeadingZeros(out)) + Digits(Value(out, 256), 58) == ds
    ensures out != []
  {
    NothingToRebase();
  }

  lemma NothingToRebase()
    ensures Zeros(LeadingZeros([])) + Digits(Value([], 256), 58) == []
  {
  }
}
