/** Positional notation in any base, most significant digit first. */
module Numerals {
  import opened NumberTheory

  ghost predicate DigitsOf(ds: seq<nat>, base: nat) { forall i :: 0 <= i < |ds| ==> ds[i] < base }

  function Value(ds: seq<nat>, base: nat): nat {
    if ds == [] then 0 else Value(ds[..|ds| - 1], base) * base + ds[|ds| - 1]
  }

  /** The digits of x without leading zeros; none for 0. */
  function Digits(x: nat, base: nat): seq<nat>
    requires base >= 2
  {
    if x == 0 then [] else Digits(Quotient(x, base), base) + [Remainder(x, base)]
  }

  function Quotient(x: nat, base: nat): (q: nat)
    requires base >= 2
    ensures x > 0 ==> q < x
    ensures q == x / base
  {
    x / base
  }

  function Remainder(x: nat, base: nat): (r: nat)
    requires base >= 2
    ensures r < base && x == Quotient(x, base) * base + r && r == x % base
  {
    x % base
  }

  function Zeros(n: nat): (z: seq<nat>)
    ensures |z| == n && forall i :: 0 <= i < n ==> z[i] == 0
  {
    seq(n, _ => 0)
  }

  function LeadingZeros(ds: seq<nat>): (n: nat)
    ensures n <= |ds| && (forall i :: 0 <= i < n ==> ds[i] == 0) && (n < |ds| ==> ds[n] != 0)
  {
    if ds == [] || ds[0] != 0 then 0 else 1 + LeadingZeros(ds[1..])
  }

  lemma DigitsEnd(x: nat, base: nat)
    requires base >= 2 && x > 0
    ensures Digits(x, base) == Digits(Quotient(x, base), base) + [Remainder(x, base)]
  {
  }

  lemma ValueEnd(ds: seq<nat>, d: nat, base: nat)
    ensures Value(ds + [d], base) == Value(ds, base) * base + d
  {
    assert (ds + [d])[..|ds|] == ds;
  }

  lemma {:induction false} ValueOfDigits(x: nat, base: nat)
    requires base >= 2
    ensures Value(Digits(x, base), base) == x && DigitsOf(Digits(x, base), base)
    ensures x > 0 ==> Digits(x, base) != [] && Digits(x, base)[0] != 0
  {
    if x > 0 {
      hide Digits, Quotient, Remainder, Value;
      var q := Quotient(x, base);
      ValueOfDigits(q, base);
      DigitsEnd(x, base);
      ValueEnd(Digits(q, base), Remainder(x, base), base);
      assert q == 0 ==> Digits(q, base) == [];
    }
  }

  lemma SplitValue(q: nat, r: nat, base: nat)
    requires base >= 2 && r < base
    ensures Quotient(q * base + r, base) == q && Remainder(q * base + r, base) == r
  {
    RemainderUnique(q * base + r, q, r, base);
  }

  lemma PositiveProduct(q: nat, base: nat)
    requires q > 0 && base >= 2
    ensures q * base > 0
  {
  }

  /** Digits are the only numeral of their value without a leading zero. */
  lemma {:induction false} DigitsOfValue(ds: seq<nat>, base: nat)
    requires base >= 2 && DigitsOf(ds, base) && (ds == [] || ds[0] != 0)
    ensures Digits(Value(ds, base), base) == ds && (ds != [] ==> Value(ds, base) > 0)
  {
    if ds != [] {
      var front, r := ds[..|ds| - 1], ds[|ds| - 1];
      DigitsOfValue(front, base);
      var q := Value(front, base);
      if front != [] {
        PositiveProduct(q, base);
      } else {
        assert r == ds[0] && q == 0 && q * base == 0;
      }
      SplitValue(q, r, base);
      assert front + [r] == ds;
    }
  }

  lemma {:induction false} ValueLeadingZeros(n: nat, ds: seq<nat>, base: nat)
    ensures Value(Zeros(n) + ds, base) == Value(ds, base)
  {
    var all := Zeros(n) + ds;
    if ds != [] {
      ValueLeadingZeros(n, ds[..|ds| - 1], base);
      assert all[..|all| - 1] == Zeros(n) + ds[..|ds| - 1];
    } else if n > 0 {
      ValueLeadingZeros(n - 1, [], base);
      assert all[..|all| - 1] == Zeros(n - 1) + [];
      assert 0 * base == 0;
    }
  }

  /** A numeral is its leading zeros and the digits of its value. */
  lemma NumeralSplit(ds: seq<nat>, base: nat)
    requires base >= 2 && DigitsOf(ds, base)
    ensures ds == Zeros(LeadingZeros(ds)) + Digits(Value(ds, base), base)
    ensures Value(ds, base) == 0 <==> LeadingZeros(ds) == |ds|
  {
    var n := LeadingZeros(ds);
    assert ds == Zeros(n) + ds[n..];
    ValueLeadingZeros(n, ds[n..], base);
    DigitsOfValue(ds[n..], base);
  }

  lemma {:induction false} LeadingOfSplit(n: nat, ds: seq<nat>)
    requires ds == [] || ds[0] != 0
    ensures LeadingZeros(Zeros(n) + ds) == n
  {
    var all := Zeros(n) + ds;
    if n > 0 {
      LeadingOfSplit(n - 1, ds);
      assert all[1..] == Zeros(n - 1) + ds;
    }
  }

  /** Changing the base and back keeps the leading zeros and the value. */
  lemma RebaseBack(ds: seq<nat>, base: nat, other: nat)
    requires base >= 2 && other >= 2 && DigitsOf(ds, base)
    ensures
      var out := Zeros(LeadingZeros(ds)) + Digits(Value(ds, base), other);
      DigitsOf(out, other) && LeadingZeros(out) == LeadingZeros(ds) && Value(out, other) == Value(ds, base)
      && Zeros(LeadingZeros(out)) + Digits(Value(out, other), base) == ds
  {
    var x, n := Value(ds, base), LeadingZeros(ds);
    ValueOfDigits(x, other);
    LeadingOfSplit(n, Digits(x, other));
    ValueLeadingZeros(n, Digits(x, other), other);
    NumeralSplit(ds, base);
  }
}
