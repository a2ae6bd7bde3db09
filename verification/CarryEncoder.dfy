/** The second base58btc encoder, base58btc of backend/did/did.service.js: long multiplication with a
    carry over a list of digits, least significant first. */
module CarryEncoder {
  import opened Numerals
  import opened Base58

  function ValueLE(ds: seq<nat>): nat {
    if ds == [] then 0 else ds[0] + 58 * ValueLE(ds[1..])
  }

  /** The digits of a carry pushed at the end. */
  function CarryDigits(carry: nat): seq<nat> {
    if carry == 0 then [] else [Remainder(carry, 58)] + CarryDigits(Quotient(carry, 58))
  }

  /** One byte multiplied in: every digit times 256 plus what is carried. */
  function MulAdd(ds: seq<nat>, carry: nat): seq<nat> {
    if ds == [] then CarryDigits(carry)
    else
      var c := carry + ds[0] * 256;
      [Remainder(c, 58)] + MulAdd(ds[1..], Quotient(c, 58))
  }

  lemma CarryIsRest(carry: nat)
    ensures MulAdd([], carry) == CarryDigits(carry)
  {
  }

  lemma CarryHead(out: seq<nat>, carry: nat)
    requires carry > 0
    ensures out + CarryDigits(carry) == out + [Remainder(carry, 58)] + CarryDigits(Quotient(carry, 58))
  {
  }

  lemma MulAddHead(ds: seq<nat>, i: nat, carry: nat)
    requires i < |ds|
    ensures var c := carry + ds[i] * 256;
      MulAdd(ds[i..], carry) == [Remainder(c, 58)] + MulAdd(ds[i + 1..], Quotient(c, 58))
  {
    assert ds[i..][1..] == ds[i + 1..];
  }

  lemma {:induction false} CarryValue(carry: nat)
    ensures ValueLE(CarryDigits(carry)) == carry && DigitsOf(CarryDigits(carry), 58)
    ensures carry > 0 ==> CarryDigits(carry) != [] && CarryDigits(carry)[|CarryDigits(carry)| - 1] != 0
  {
    if carry > 0 {
      var rest := CarryDigits(Quotient(carry, 58));
      CarryValue(Quotient(carry, 58));
      assert CarryDigits(carry)[1..] == rest;
      if rest == [] {
        assert Quotient(carry, 58) == 0;
      }
    }
  }

  lemma {:induction false} MulAddValue(ds: seq<nat>, carry: nat)
    ensures ValueLE(MulAdd(ds, carry)) == 256 * ValueLE(ds) + carry && DigitsOf(MulAdd(ds, carry), 58)
  {
    if ds == [] {
      CarryValue(carry);
    } else {
      var c := carry + ds[0] * 256;
      var rest := MulAdd(ds[1..], Quotient(c, 58));
      MulAddValue(ds[1..], Quotient(c, 58));
      assert MulAdd(ds, carry)[1..] == rest;
    }
  }

  /** Either just the digit 0, or no zero at the most significant end. */
  ghost predicate Trimmed(ds: seq<nat>) {
    ds == [0] || (ds != [] && ds[|ds| - 1] != 0)
  }

  lemma {:induction false} MulAddTrimmed(ds: seq<nat>, carry: nat)
    requires ds != [] && ds[|ds| - 1] != 0
    ensures MulAdd(ds, carry) != [] && MulAdd(ds, carry)[|MulAdd(ds, carry)| - 1] != 0
  {
    var c := carry + ds[0] * 256;
    var rest := MulAdd(ds[1..], Quotient(c, 58));
    if |ds| == 1 {
      assert c >= 256 && Quotient(c, 58) > 0;
      CarryValue(Quotient(c, 58));
    } else {
      MulAddTrimmed(ds[1..], Quotient(c, 58));
    }
  }

  lemma ZeroTrimmed(carry: nat)
    ensures Trimmed(MulAdd([0], carry))
  {
    CarryValue(Quotient(carry, 58));
    assert [0][1..] == [];
    assert MulAdd([0], carry) == [Remainder(carry, 58)] + CarryDigits(Quotient(carry, 58));
    if Quotient(carry, 58) == 0 {
      assert CarryDigits(0) == [];
    }
  }

  function Reverse(ds: seq<nat>): (r: seq<nat>)
    ensures |r| == |ds| && forall i :: 0 <= i < |ds| ==> r[i] == ds[|ds| - 1 - i]
  {
    seq(|ds|, i requires 0 <= i < |ds| => ds[|ds| - 1 - i])
  }

  lemma {:induction false} ReverseValue(ds: seq<nat>)
    ensures Value(Reverse(ds), 58) == ValueLE(ds)
  {
    if ds != [] {
      ReverseValue(ds[1..]);
      var r := Reverse(ds);
      assert r[..|r| - 1] == Reverse(ds[1..]);
    }
  }

  /** What the carry loop computes for a byte string. */
  function CarryEncoded(bs: seq<nat>): string
    requires forall i :: 0 <= i < |bs| ==> bs[i] < 256
  {
    if bs == [] then ""
    else if Value(bs, 256) == 0 then Encoded(bs) + "1"
    else Encoded(bs)
  }

  /** One byte more keeps the list a trimmed numeral of the bytes so far. */
  lemma ByteIn(digits: seq<nat>, bytes: seq<nat>, k: nat)
    requires k < |bytes| && DigitsOf(digits, 58) && Trimmed(digits) && ValueLE(digits) == Value(bytes[..k], 256)
    ensures
      var out := MulAdd(digits, bytes[k]);
      DigitsOf(out, 58) && Trimmed(out) && ValueLE(out) == Value(bytes[..k + 1], 256)
  {
    hide MulAdd;
    assert bytes[..k + 1][..k] == bytes[..k];
    MulAddValue(digits, bytes[k]);
    if digits == [0] {
      ZeroTrimmed(bytes[k]);
    } else {
      MulAddTrimmed(digits, bytes[k]);
    }
  }

  /** base58btc. It agrees with base58btcEncode on every byte string with a byte that is not zero; of
      zeros alone it makes one '1' more, and of nothing it makes the empty text. */
  method Base58btc(bytes: seq<nat>) returns (output: string)
    requires Bytes(bytes)
    ensures output == CarryEncoded(bytes)
    ensures bytes != [] ==> (output == Encoded(bytes) <==> exists i :: 0 <= i < |bytes| && bytes[i] != 0)
  {
    hide MulAdd, Letter, IndexFrom, Encoded, Text, ValueLE, Value;
    if |bytes| == 0 {
      return "";
    }
    var zeros := CountZeroes(bytes);
    var digits: seq<nat> := [0];
    StartValue();
    assert bytes[..0] == [];
    for k := 0 to |bytes|
      invariant DigitsOf(digits, 58) && Trimmed(digits) && ValueLE(digits) == Value(bytes[..k], 256)
    {
      ByteIn(digits, bytes, k);
      digits := MultiplyAdd(digits, bytes[k]);
    }
    assert bytes[..|bytes|] == bytes;
    output := Ones(zeros);
    var i := |digits|;
    ghost var shown: seq<nat> := [];
    NoText();
    while i > 0
      invariant 0 <= i <= |digits| && DigitsOf(shown, 58) && shown == Reverse(digits)[..|digits| - i]
      invariant output == Ones(zeros) + Text(shown)
    {
      i := i - 1;
      TextNext(shown, digits[i]);
      assert Reverse(digits)[..|digits| - i] == shown + [digits[i]];
      shown := shown + [digits[i]];
      output := output + [Letter(digits[i])];
    }
    assert shown == Reverse(digits);
    CarryAgrees(bytes, digits);
    EncodersAgree(bytes);
  }

  /** The two inner loops of base58btc: the carry through the digits, then the rest of it pushed. */
  method MultiplyAdd(digits: seq<nat>, byte: nat) returns (out: seq<nat>)
    ensures out == MulAdd(digits, byte)
  {
    hide MulAdd, Remainder, Quotient;
    var carry := byte;
    out := digits;
    assert digits[0..] == digits;
    for i := 0 to |digits|
      invariant |out| == |digits| && out[i..] == digits[i..]
      invariant MulAdd(digits, byte) == out[..i] + MulAdd(digits[i..], carry)
    {
      assert out[i] == out[i..][0] == digits[i..][0] == digits[i];
      carry := carry + out[i] * 256;
      ghost var before := out;
      ghost var c := carry;
      out := out[i := Remainder(carry, 58)];
      carry := Quotient(carry, 58);
      MulAddHead(digits, i, c - digits[i] * 256);
      assert before[..i] + [Remainder(c, 58)] == out[..i + 1];
    }
    assert out[..|digits|] == out && digits[|digits|..] == [];
    assert MulAdd([], carry) == CarryDigits(carry) by { CarryIsRest(carry); }
    ghost var total := MulAdd(digits, byte);
    while carry > 0
      invariant carry >= 0 && total == out + CarryDigits(carry)
    {
      CarryHead(out, carry);
      out := out + [Remainder(carry, 58)];
      carry := Quotient(carry, 58);
    }
    assert out + [] == out;
  }

  lemma StartValue()
    ensures ValueLE([0]) == 0 && Value([], 256) == 0
  {
    assert [0][1..] == [];
    assert ValueLE([]) == 0;
  }

  lemma NoText()
    ensures Text([]) == ""
  {
  }

  lemma TextNext(ds: seq<nat>, d: nat)
    requires DigitsOf(ds, 58) && d < 58
    ensures Text(ds + [d]) == Text(ds) + [Letter(d)]
  {
    hide Letter;
    assert (ds + [d])[..|ds|] == ds;
  }

  lemma CarryAgrees(bs: seq<nat>, digits: seq<nat>)
    requires Bytes(bs) && bs != [] && DigitsOf(digits, 58) && Trimmed(digits) && ValueLE(digits) == Value(bs, 256)
    ensures DigitsOf(Reverse(digits), 58)
    ensures Ones(LeadingZeros(bs)) + Text(Reverse(digits)) == CarryEncoded(bs)
  {
    hide Letter, Value, LeadingZeros, Digits;
    ReverseValue(digits);
    if digits == [0] {
      assert Reverse([0]) == [0];
      StartValue();
      OneText();
      ZeroEncoded(bs);
    } else {
      DigitsOfValue(Reverse(digits), 58);
    }
  }

  lemma OneText()
    ensures Text([0]) == "1"
  {
    hide IndexOf;
    OneIsZero();
    NoText();
    TextNext([], 0);
    assert [] + [0] == [0];
  }

  lemma ZeroEncoded(bs: seq<nat>)
    requires Bytes(bs) && Value(bs, 256) == 0
    ensures Encoded(bs) == Ones(LeadingZeros(bs))
  {
    NoDigits();
  }

  /** Where the two encoders agree, exactly: on inputs with a byte that is not zero. */
  lemma EncodersAgree(bs: seq<nat>)
    requires Bytes(bs) && bs != []
    ensures CarryEncoded(bs) == Encoded(bs) <==> exists i :: 0 <= i < |bs| && bs[i] != 0
  {
    hide Encoded;
    NumeralSplit(bs, 256);
    var n := LeadingZeros(bs);
    assert n < |bs| ==> bs[n] != 0;
    assert |Encoded(bs) + "1"| == |Encoded(bs)| + 1;
  }
}
