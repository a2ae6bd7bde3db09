/** Hexadecimal text as JavaScript reads and writes it: toString(16), padStart and BigInt("0x..."). */
module Hex {
  import opened NumberTheory
  import opened Wrappers

  const DIGITS: string := "0123456789abcdef"

  function Digit(d: nat): char
    requires d < 16
  {
    DIGITS[d]
  }

  function DigitValue(c: char): Option<nat> {
    if '0' <= c <= '9' then Some(c as int - '0' as int)
    else if 'a' <= c <= 'f' then Some(c as int - 'a' as int + 10)
    else if 'A' <= c <= 'F' then Some(c as int - 'A' as int + 10)
    else None
  }

  /** x.toString(16). */
  function ToHex(x: nat): (s: string)
    ensures s != ""
  {
    if x < 16 then [Digit(x)] else ToHex(x / 16) + [Digit(x % 16)]
  }

  function Zeros(n: nat): string { seq(n, _ => '0') }

  /** s.padStart(width, '0'). */
  function PadStart(s: string, width: nat): string {
    if |s| < width then Zeros(width - |s|) + s else s
  }

  /** The number that hexadecimal digits write: none without digits, or with a character that is no digit. */
  function ParseHex(s: string): Option<nat> {
    if s == "" then None
    else
      var low := DigitValue(s[|s| - 1]);
      if low.None? then None
      else if |s| == 1 then low
      else
        var high := ParseHex(s[..|s| - 1]);
        if high.None? then None else Some(high.value * 16 + low.value)
  }

  /** White space and line terminators of ECMAScript. */
  predicate White(c: char) {
    var n := c as int;
    9 <= n <= 13 || n == 0x20 || n == 0xa0 || n == 0x1680 || 0x2000 <= n <= 0x200a || n == 0x2028 || n == 0x2029
    || n == 0x202f || n == 0x205f || n == 0x3000 || n == 0xfeff
  }

  function TrimEnd(s: string): (t: string)
    ensures |t| <= |s|
  {
    if s != "" && White(s[|s| - 1]) then TrimEnd(s[..|s| - 1]) else s
  }

  /** BigInt(`0x${s}`), which skips white space at the end; otherwise a SyntaxError. */
  function BigIntHex(s: string): Option<nat> { ParseHex(TrimEnd(s)) }

  /** Digits alone are read as they stand. */
  lemma BigIntOfDigits(s: string)
    requires ParseHex(s).Some?
    ensures BigIntHex(s) == ParseHex(s)
  {
  }

  /** The digits, letters in either case, and nothing else. */
  lemma DigitsAre(c: char)
    ensures DigitValue(c).Some? <==> '0' <= c <= '9' || 'a' <= c <= 'f' || 'A' <= c <= 'F'
    ensures '0' <= c <= '9' ==> DigitValue(c) == Some(c as int - 48)
    ensures 'a' <= c <= 'f' ==> DigitValue(c) == Some(c as int - 87)
    ensures 'A' <= c <= 'F' ==> DigitValue(c) == Some(c as int - 55)
  {
  }

  /** The code points of the white spaces. */
  const SPACES: seq<int> :=
    [0x9, 0xa, 0xb, 0xc, 0xd, 0x20, 0xa0, 0x1680, 0x2000, 0x2001, 0x2002, 0x2003, 0x2004, 0x2005, 0x2006, 0x2007, 0x2008, 0x2009,
     0x200a, 0x2028, 0x2029, 0x202f, 0x205f, 0x3000, 0xfeff]

  /** A last character changes nothing if it is a white space, and otherwise is read as a digit or makes the text
      unreadable. */
  lemma LastCharacter(s: string, c: char)
    ensures BigIntHex(s + [c]) == if c as int in SPACES then BigIntHex(s) else ParseHex(s + [c])
    ensures DigitValue(c).None? ==> ParseHex(s + [c]) == None
  {
    hide DigitValue;
    assert (s + [c])[..|s|] == s;
  }

  lemma DigitRoundTrip(d: nat)
    requires d < 16
    ensures DigitValue(Digit(d)) == Some(d)
  {
  }

  lemma DigitZero()
    ensures Digit(0) == '0'
  {
  }

  lemma {:induction false} ParseToHex(x: nat)
    ensures ParseHex(ToHex(x)) == Some(x)
  {
    hide Digit, DigitValue;
    if x < 16 {
      DigitRoundTrip(x);
    } else {
      ParseToHex(x / 16);
      DigitRoundTrip(x % 16);
      var s := ToHex(x);
      assert s[..|s| - 1] == ToHex(x / 16);
    }
  }

  lemma {:induction false} ParseLeadingZero(s: string)
    requires s != ""
    ensures ParseHex("0" + s) == ParseHex(s)
  {
    var t := "0" + s;
    assert t[|t| - 1] == s[|s| - 1];
    if |s| == 1 {
      assert t[..1] == "0";
      assert ParseHex("0") == Some(0);
    } else {
      assert t[..|t| - 1] == "0" + s[..|s| - 1];
      ParseLeadingZero(s[..|s| - 1]);
    }
  }

  lemma {:induction false} ParseZeros(n: nat, s: string)
    requires s != ""
    ensures ParseHex(Zeros(n) + s) == ParseHex(s)
  {
    if n == 0 {
      assert Zeros(0) + s == s;
    } else {
      ParseZeros(n - 1, s);
      ParseLeadingZero(Zeros(n - 1) + s);
      assert "0" + (Zeros(n - 1) + s) == Zeros(n) + s;
    }
  }

  /** Reading back a padded number gives the number. */
  lemma PadRoundTrip(x: nat, width: nat)
    ensures ParseHex(PadStart(ToHex(x), width)) == Some(x)
  {
    ParseToHex(x);
    var s := ToHex(x);
    if |s| < width {
      ParseZeros(width - |s|, s);
    }
  }

  lemma {:induction false} HexLength(x: nat, k: nat)
    requires k >= 1 && x < Pow(16, k)
    ensures |ToHex(x)| <= k
  {
    if x >= 16 {
      assert k > 1 by { assert Pow(16, 1) == 16 * Pow(16, 0); }
      assert x < 16 * Pow(16, k - 1);
      HexLength(x / 16, k - 1);
    }
  }

  /** A number is written without leading zeros. */
  lemma {:induction false} ToHexShortest(x: nat)
    ensures x > 0 ==> ToHex(x)[0] != '0'
    ensures x == 0 ==> ToHex(x) == "0"
  {
    if x >= 16 {
      ToHexShortest(x / 16);
      assert ToHex(x)[0] == ToHex(x / 16)[0];
    }
  }

  lemma PadLength(x: nat, width: nat)
    requires width >= 1 && x < Pow(16, width)
    ensures |PadStart(ToHex(x), width)| == width
  {
    HexLength(x, width);
  }
}
