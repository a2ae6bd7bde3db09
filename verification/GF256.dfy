/** The field GF(256) = GF(2)[x]/(x^8 + x^4 + x^3 + x^2 + 1) and the log/exp tables of
    backend/storage/reed_solomon.js. */
module GF256 {
  import opened NumberTheory

  /** A byte by its bits, the most significant first: the coefficients of x^7, ..., x, 1. */
  type Byte = s: seq<bool> | |s| == 8 witness [false, false, false, false, false, false, false, false]

  const Zero: Byte := [false, false, false, false, false, false, false, false]
  const One: Byte := [false, false, false, false, false, false, false, true]

  /** x^4 + x^3 + x^2 + 1, what x^8 reduces to. */
  const Reduction: Byte := [false, false, false, true, true, true, false, true]

  /** The number that the bits write. */
  function Number(s: seq<bool>): (n: nat) {
    if s == [] then 0 else 2 * Number(s[..|s| - 1]) + (if s[|s| - 1] then 1 else 0)
  }

  function ToInt(a: Byte): (n: int)
    ensures 0 <= n < 256
  {
    NumberBound(a);
    assert TwoTo(8) == 256;
    Number(a)
  }

  function TwoTo(n: nat): nat { if n == 0 then 1 else 2 * TwoTo(n - 1) }

  lemma {:induction false} NumberBound(s: seq<bool>)
    ensures Number(s) < TwoTo(|s|)
  {
    if s != [] {
      NumberBound(s[..|s| - 1]);
    }
  }

  lemma {:induction false} NumberInjective(s: seq<bool>, t: seq<bool>)
    requires |s| == |t| && Number(s) == Number(t)
    ensures s == t
  {
    if s != [] {
      var n := |s| - 1;
      NumberInjective(s[..n], t[..n]);
      assert s == s[..n] + [s[n]] && t == t[..n] + [t[n]];
    }
  }

  lemma ToIntInjective(a: Byte, b: Byte)
    requires ToInt(a) == ToInt(b)
    ensures a == b
  {
    NumberInjective(a, b);
  }

  lemma ToIntInjectiveIf(a: Byte, b: Byte)
    ensures a == b <==> ToInt(a) == ToInt(b)
  {
    if ToInt(a) == ToInt(b) { ToIntInjective(a, b); }
  }

  /** Exclusive or, the addition of the field. */
  function Add(a: Byte, b: Byte): Byte {
    seq(8, i requires 0 <= i < 8 => a[i] != b[i])
  }

  /** Multiplication by x: shift left, and subtract 0x11d when degree 8 appears. */
  function Double(a: Byte): Byte {
    if a[0] then Add(a[1..] + [false], Reduction) else a[1..] + [false]
  }

  function Pick(bit: bool, a: Byte): Byte {
    if bit then a else Zero
  }

  /** The product of a with a polynomial given by its coefficients, by Horner's rule from the highest. */
  function Times(a: Byte, bits: seq<bool>): Byte {
    if bits == [] then Zero else Add(Double(Times(a, bits[..|bits| - 1])), Pick(bits[|bits| - 1], a))
  }

  /** The product of two polynomials reduced modulo 0x11d. */
  function Mul(a: Byte, b: Byte): Byte {
    Times(a, b)
  }

  // ---- additive laws ------------------------------------------------------

  lemma AddComm(a: Byte, b: Byte)
    ensures Add(a, b) == Add(b, a)
  {
  }

  lemma AddAssoc(a: Byte, b: Byte, c: Byte)
    ensures Add(Add(a, b), c) == Add(a, Add(b, c))
  {
  }

  lemma AddZero(a: Byte)
    ensures Add(a, Zero) == a && Add(Zero, a) == a && Add(a, a) == Zero
  {
  }

  lemma AddCancels(a: Byte, b: Byte)
    requires Add(a, b) == Zero
    ensures a == b
  {
    forall i | 0 <= i < 8 ensures a[i] == b[i] {
      assert Add(a, b)[i] == Zero[i];
    }
  }

  /** (a + b) + (c + d) = (a + c) + (b + d) */
  lemma AddExchange(a: Byte, b: Byte, c: Byte, d: Byte)
    ensures Add(Add(a, b), Add(c, d)) == Add(Add(a, c), Add(b, d))
  {
  }

  // ---- multiplicative laws ------------------------------------------------

  lemma DoubleAdd(a: Byte, b: Byte)
    ensures Double(Add(a, b)) == Add(Double(a), Double(b))
  {
    var s, t := a[1..] + [false], b[1..] + [false];
    assert Add(a, b)[1..] + [false] == Add(s, t);
    hide Add;
    AddExchange(s, Reduction, t, Reduction);
    AddZero(Reduction);
    AddZero(Add(s, t));
    AddAssoc(s, t, Reduction);
    AddAssoc(s, Reduction, t);
    AddComm(t, Reduction);
  }

  lemma DoubleInjective(a: Byte, b: Byte)
    requires Double(a) == Double(b)
    ensures a == b
  {
    assert Double(a)[7] == a[0] && Double(b)[7] == b[0];
    forall i | 0 < i < 8 ensures a[i] == b[i] {
      assert Double(a)[i - 1] == (a[i] != (a[0] && Reduction[i - 1]));
      assert Double(b)[i - 1] == (b[i] != (b[0] && Reduction[i - 1]));
    }
  }

  lemma {:induction false} TimesAdd(a: Byte, a': Byte, bits: seq<bool>)
    ensures Times(Add(a, a'), bits) == Add(Times(a, bits), Times(a', bits))
  {
    hide Add, Double;
    AddZero(Zero);
    if bits != [] {
      var front, bit := bits[..|bits| - 1], bits[|bits| - 1];
      TimesAdd(a, a', front);
      DoubleAdd(Times(a, front), Times(a', front));
      AddExchange(Double(Times(a, front)), Double(Times(a', front)), Pick(bit, a), Pick(bit, a'));
    }
  }

  lemma MulAddLeft(a: Byte, a': Byte, b: Byte)
    ensures Mul(Add(a, a'), b) == Add(Mul(a, b), Mul(a', b))
  {
    TimesAdd(a, a', b);
  }

  lemma DoubleZero()
    ensures Double(Zero) == Zero
  {
  }

  lemma {:induction false} TimesDouble(a: Byte, bits: seq<bool>)
    ensures Times(Double(a), bits) == Double(Times(a, bits))
  {
    hide Add, Double;
    DoubleZero();
    if bits != [] {
      var front, bit := bits[..|bits| - 1], bits[|bits| - 1];
      TimesDouble(a, front);
      DoubleAdd(Double(Times(a, front)), Pick(bit, a));
    }
  }

  lemma MulDouble(a: Byte, b: Byte)
    ensures Mul(Double(a), b) == Double(Mul(a, b))
  {
    TimesDouble(a, b);
  }

  lemma {:induction false} TimesZero(a: Byte, bits: seq<bool>)
    requires a == Zero || forall i :: 0 <= i < |bits| ==> !bits[i]
    ensures Times(a, bits) == Zero
  {
    hide Add, Double;
    DoubleZero();
    AddZero(Zero);
    if bits != [] {
      TimesZero(a, bits[..|bits| - 1]);
    }
  }

  lemma MulZero(b: Byte)
    ensures Mul(Zero, b) == Zero && Mul(b, Zero) == Zero
  {
    TimesZero(Zero, b);
    TimesZero(b, Zero);
  }

  /** At most eight bits, filled up with zeros in front. */
  function Padded(bits: seq<bool>): Byte
    requires |bits| <= 8
  {
    seq(8, i requires 0 <= i < 8 => i >= 8 - |bits| && bits[i - (8 - |bits|)])
  }

  /** Multiplying 1 by at most eight bits shifts them in one after the other. */
  lemma {:induction false} TimesOne(bits: seq<bool>)
    requires |bits| <= 8
    ensures Times(One, bits) == Padded(bits)
  {
    hide Add, Double;
    if bits != [] {
      var front, bit := bits[..|bits| - 1], bits[|bits| - 1];
      TimesOne(front);
      ShiftIn(Padded(front), bit);
      assert Padded(front)[1..] + [bit] == Padded(bits);
    }
  }

  lemma ShiftIn(p: Byte, bit: bool)
    requires !p[0]
    ensures Add(Double(p), Pick(bit, One)) == p[1..] + [bit]
  {
  }

  lemma MulOneLeft(b: Byte)
    ensures Mul(One, b) == b
  {
    TimesOne(b);
    assert Padded(b) == b;
  }

  // ---- powers of alpha = x ------------------------------------------------

  function Exp(i: nat): Byte {
    if i == 0 then One else Double(Exp(i - 1))
  }

  lemma ExpStart()
    ensures Exp(0) == One && Exp(1) == Double(One)
  {
  }

  lemma {:induction false} ExpAdd(i: nat, j: nat)
    ensures Mul(Exp(i), Exp(j)) == Exp(i + j)
  {
    hide Mul, Double;
    if i == 0 {
      MulOneLeft(Exp(j));
    } else {
      ExpAdd(i - 1, j);
      MulDouble(Exp(i - 1), Exp(j));
    }
  }

  lemma {:induction false} ExpNonzero(i: nat)
    ensures Exp(i) != Zero
  {
    if i > 0 {
      ExpNonzero(i - 1);
      DoubleZero();
      if Exp(i) == Zero {
        DoubleInjective(Exp(i - 1), Zero);
      }
    } else {
      assert One[7] && !Zero[7];
    }
  }

  lemma ExpNext(i: nat)
    ensures Double(Exp(i)) == Exp(i + 1)
  {
  }

  // ---- bytes as numbers ---------------------------------------------------

  predicate Bit(n: nat, weight: nat)
    requires weight > 0
  {
    n / weight % 2 == 1
  }

  /** The byte with this number. */
  function Of(n: nat): Byte {
    [Bit(n, 128), Bit(n, 64), Bit(n, 32), Bit(n, 16), Bit(n, 8), Bit(n, 4), Bit(n, 2), Bit(n, 1)]
  }

  predicate DifferAt(a: nat, b: nat, c: nat, weight: nat)
    requires weight > 0
  {
    Bit(c, weight) == (Bit(a, weight) != Bit(b, weight))
  }

  predicate IsXor(a: nat, b: nat, c: nat) {
    && DifferAt(a, b, c, 128) && DifferAt(a, b, c, 64) && DifferAt(a, b, c, 32) && DifferAt(a, b, c, 16)
    && DifferAt(a, b, c, 8) && DifferAt(a, b, c, 4) && DifferAt(a, b, c, 2) && DifferAt(a, b, c, 1)
  }

  lemma SameSum(x: Byte, y: Byte, z: Byte)
    requires z[0] == (x[0] != y[0]) && z[1] == (x[1] != y[1]) && z[2] == (x[2] != y[2]) && z[3] == (x[3] != y[3])
    requires z[4] == (x[4] != y[4]) && z[5] == (x[5] != y[5]) && z[6] == (x[6] != y[6]) && z[7] == (x[7] != y[7])
    ensures Add(x, y) == z
  {
    forall i | 0 <= i < 8 ensures Add(x, y)[i] == z[i] {
      assert i == 0 || i == 1 || i == 2 || i == 3 || i == 4 || i == 5 || i == 6 || i == 7;
    }
  }

  lemma OfBits(n: nat)
    ensures Of(n)[0] == Bit(n, 128) && Of(n)[1] == Bit(n, 64) && Of(n)[2] == Bit(n, 32) && Of(n)[3] == Bit(n, 16)
    ensures Of(n)[4] == Bit(n, 8) && Of(n)[5] == Bit(n, 4) && Of(n)[6] == Bit(n, 2) && Of(n)[7] == Bit(n, 1)
  {
    hide Bit;
  }

  lemma AddOf(a: nat, b: nat, c: nat)
    requires IsXor(a, b, c)
    ensures Add(Of(a), Of(b)) == Of(c)
  {
    hide Bit, Of, Add;
    OfBits(a);
    OfBits(b);
    OfBits(c);
    SameSum(Of(a), Of(b), Of(c));
  }

  /** c is a shifted left, less 0x11d when the top bit is lost. */
  predicate IsDouble(a: nat, c: nat) {
    var top := Bit(a, 128);
    && Bit(c, 128) == Bit(a, 64) && Bit(c, 64) == Bit(a, 32) && Bit(c, 32) == Bit(a, 16)
    && Bit(c, 16) == (Bit(a, 8) != top) && Bit(c, 8) == (Bit(a, 4) != top) && Bit(c, 4) == (Bit(a, 2) != top)
    && Bit(c, 2) == Bit(a, 1) && Bit(c, 1) == top
  }

  lemma SameDouble(x: Byte, z: Byte)
    requires z[0] == x[1] && z[1] == x[2] && z[2] == x[3] && z[3] == (x[4] != x[0])
    requires z[4] == (x[5] != x[0]) && z[5] == (x[6] != x[0]) && z[6] == x[7] && z[7] == x[0]
    ensures Double(x) == z
  {
    assert forall i :: 0 <= i < 8 ==> Double(x)[i] == z[i];
  }

  lemma DoubleOf(a: nat, c: nat)
    requires IsDouble(a, c)
    ensures Double(Of(a)) == Of(c)
  {
    hide Bit, Of, Double;
    OfBits(a);
    OfBits(c);
    SameDouble(Of(a), Of(c));
  }

  function SumOfBits(a: Byte): nat {
    (if a[0] then 128 else 0) + (if a[1] then 64 else 0) + (if a[2] then 32 else 0) + (if a[3] then 16 else 0)
    + (if a[4] then 8 else 0) + (if a[5] then 4 else 0) + (if a[6] then 2 else 0) + (if a[7] then 1 else 0)
  }

  lemma NumberWritten(a: Byte)
    ensures ToInt(a) == SumOfBits(a)
  {
    assert a[..8] == a && a[..0] == [];
    forall k: nat | k < 8 ensures Number(a[..k + 1]) == 2 * Number(a[..k]) + (if a[k] then 1 else 0) {
      assert a[..k + 1][..k] == a[..k];
    }
    assert Number(a[..0 + 1]) == if a[0] then 1 else 0;
    assert Number(a[..1 + 1]) == 2 * Number(a[..1]) + (if a[1] then 1 else 0);
    assert Number(a[..2 + 1]) == 2 * Number(a[..2]) + (if a[2] then 1 else 0);
    assert Number(a[..3 + 1]) == 2 * Number(a[..3]) + (if a[3] then 1 else 0);
    assert Number(a[..4 + 1]) == 2 * Number(a[..4]) + (if a[4] then 1 else 0);
    assert Number(a[..5 + 1]) == 2 * Number(a[..5]) + (if a[5] then 1 else 0);
    assert Number(a[..6 + 1]) == 2 * Number(a[..6]) + (if a[6] then 1 else 0);
    assert Number(a[..7 + 1]) == 2 * Number(a[..7]) + (if a[7] then 1 else 0);
  }

  predicate Writes(n: nat) {
    n == (if Bit(n, 128) then 128 else 0) + (if Bit(n, 64) then 64 else 0) + (if Bit(n, 32) then 32 else 0)
       + (if Bit(n, 16) then 16 else 0) + (if Bit(n, 8) then 8 else 0) + (if Bit(n, 4) then 4 else 0)
       + (if Bit(n, 2) then 2 else 0) + (if Bit(n, 1) then 1 else 0)
  }

  lemma OfNumber(n: nat)
    requires Writes(n)
    ensures ToInt(Of(n)) == n && (Of(n) == Zero <==> n == 0)
  {
    hide Bit, Number, ToInt;
    NumberWritten(Of(n));
    NumberWritten(Zero);
    ToIntInjectiveIf(Of(n), Zero);
  }

  lemma NextPower(i: nat, x: nat, y: nat)
    requires Exp(i) == Of(x) && IsDouble(x, y)
    ensures Exp(i + 1) == Of(y)
  {
    hide Of, Double, Exp, IsDouble;
    ExpNext(i);
    DoubleOf(x, y);
  }

  lemma OneIs()
    ensures Exp(0) == Of(1) && One == Of(1)
  {
  }

  /** The first powers, by doubling. */
  lemma PowersTo8()
    ensures Exp(0) == Of(1)
    ensures Exp(1) == Of(2)
    ensures Exp(2) == Of(4)
    ensures Exp(3) == Of(8)
    ensures Exp(4) == Of(16)
    ensures Exp(5) == Of(32)
    ensures Exp(6) == Of(64)
    ensures Exp(7) == Of(128)
    ensures Exp(8) == Of(29)
  {
    hide Exp, Of;
    OneIs();
    NextPower(0, 1, 2);
    NextPower(1, 2, 4);
    NextPower(2, 4, 8);
    NextPower(3, 8, 16);
    NextPower(4, 16, 32);
    NextPower(5, 32, 64);
    NextPower(6, 64, 128);
    NextPower(7, 128, 29);
  }

  lemma PowersTo16()
    requires Exp(8) == Of(29)
    ensures Exp(9) == Of(58)
    ensures Exp(10) == Of(116)
    ensures Exp(11) == Of(232)
    ensures Exp(12) == Of(205)
    ensures Exp(13) == Of(135)
    ensures Exp(14) == Of(19)
    ensures Exp(15) == Of(38)
    ensures Exp(16) == Of(76)
  {
    hide Exp, Of;
    NextPower(8, 29, 58);
    NextPower(9, 58, 116);
    NextPower(10, 116, 232);
    NextPower(11, 232, 205);
    NextPower(12, 205, 135);
    NextPower(13, 135, 19);
    NextPower(14, 19, 38);
    NextPower(15, 38, 76);
  }

  lemma PowersTo24()
    requires Exp(16) == Of(76)
    ensures Exp(17) == Of(152)
    ensures Exp(18) == Of(45)
    ensures Exp(19) == Of(90)
    ensures Exp(20) == Of(180)
    ensures Exp(21) == Of(117)
    ensures Exp(22) == Of(234)
    ensures Exp(23) == Of(201)
    ensures Exp(24) == Of(143)
  {
    hide Exp, Of;
    NextPower(16, 76, 152);
    NextPower(17, 152, 45);
    NextPower(18, 45, 90);
    NextPower(19, 90, 180);
    NextPower(20, 180, 117);
    NextPower(21, 117, 234);
    NextPower(22, 234, 201);
    NextPower(23, 201, 143);
  }

  lemma SmallPowerValues()
    ensures Exp(0) == Of(1)
    ensures Exp(1) == Of(2)
    ensures Exp(2) == Of(4)
    ensures Exp(3) == Of(8)
    ensures Exp(4) == Of(16)
    ensures Exp(5) == Of(32)
    ensures Exp(6) == Of(64)
    ensures Exp(7) == Of(128)
    ensures Exp(8) == Of(29)
    ensures Exp(9) == Of(58)
    ensures Exp(10) == Of(116)
    ensures Exp(11) == Of(232)
    ensures Exp(12) == Of(205)
    ensures Exp(13) == Of(135)
    ensures Exp(14) == Of(19)
    ensures Exp(15) == Of(38)
    ensures Exp(16) == Of(76)
    ensures Exp(17) == Of(152)
    ensures Exp(18) == Of(45)
    ensures Exp(19) == Of(90)
    ensures Exp(20) == Of(180)
    ensures Exp(21) == Of(117)
    ensures Exp(22) == Of(234)
    ensures Exp(23) == Of(201)
    ensures Exp(24) == Of(143)
  {
    hide Exp, Of;
    PowersTo8();
    PowersTo16();
    PowersTo24();
  }

  lemma ThreeTimesPower(a: nat, b: nat, c: nat, n: nat)
    ensures Mul(Add(Add(Exp(a), Exp(b)), Exp(c)), Exp(n)) == Add(Add(Exp(a + n), Exp(b + n)), Exp(c + n))
  {
    hide Exp, Mul, Add;
    MulAddLeft(Add(Exp(a), Exp(b)), Exp(c), Exp(n));
    MulAddLeft(Exp(a), Exp(b), Exp(n));
    ExpAdd(a, n);
    ExpAdd(b, n);
    ExpAdd(c, n);
  }

  lemma FourTimesPower(a: nat, b: nat, c: nat, d: nat, n: nat)
    ensures Mul(Add(Add(Add(Exp(a), Exp(b)), Exp(c)), Exp(d)), Exp(n))
         == Add(Add(Add(Exp(a + n), Exp(b + n)), Exp(c + n)), Exp(d + n))
  {
    hide Exp, Mul, Add;
    MulAddLeft(Add(Add(Exp(a), Exp(b)), Exp(c)), Exp(d), Exp(n));
    ThreeTimesPower(a, b, c, n);
    ExpAdd(d, n);
  }

  /** The powers alpha^34, alpha^51, ..., each the one before times alpha^17. */
  lemma Power34()
    ensures Exp(34) == Of(78)
  {
    hide Exp, Mul, Of, Add;
    SmallPowerValues();
    AddOf(128, 16, 144);
    AddOf(144, 8, 152);
    AddOf(143, 117, 250);
    AddOf(250, 180, 78);
    ThreeTimesPower(7, 4, 3, 17);
    ExpAdd(17, 17);
  }

  lemma Power51()
    ensures Exp(51) == Of(10)
  {
    hide Exp, Mul, Of, Add;
    SmallPowerValues();
    Power34();
    AddOf(64, 8, 72);
    AddOf(72, 4, 76);
    AddOf(76, 2, 78);
    AddOf(201, 180, 125);
    AddOf(125, 90, 39);
    AddOf(39, 45, 10);
    FourTimesPower(6, 3, 2, 1, 17);
    ExpAdd(34, 17);
  }

  lemma Power68()
    ensures Exp(68) == Of(153)
  {
    hide Exp, Mul, Of, Add;
    SmallPowerValues();
    Power51();
    AddOf(8, 2, 10);
    AddOf(180, 45, 153);
    MulAddLeft(Exp(3), Exp(1), Exp(17));
    ExpAdd(3, 17);
    ExpAdd(1, 17);
    ExpAdd(51, 17);
  }

  lemma Power85()
    ensures Exp(85) == Of(214)
  {
    hide Exp, Mul, Of, Add;
    SmallPowerValues();
    Power68();
    AddOf(128, 16, 144);
    AddOf(144, 8, 152);
    AddOf(152, 1, 153);
    AddOf(143, 117, 250);
    AddOf(250, 180, 78);
    AddOf(78, 152, 214);
    FourTimesPower(7, 4, 3, 0, 17);
    ExpAdd(68, 17);
  }

  lemma PowersFrom85()
    requires Exp(85) == Of(214)
    ensures Exp(86) == Of(177)
    ensures Exp(87) == Of(127)
    ensures Exp(88) == Of(254)
    ensures Exp(89) == Of(225)
    ensures Exp(90) == Of(223)
    ensures Exp(91) == Of(163)
    ensures Exp(92) == Of(91)
  {
    hide Exp, Of;
    NextPower(85, 214, 177);
    NextPower(86, 177, 127);
    NextPower(87, 127, 254);
    NextPower(88, 254, 225);
    NextPower(89, 225, 223);
    NextPower(90, 223, 163);
    NextPower(91, 163, 91);
  }

  /** alpha^85 is a cube root of 1: its square is itself plus 1. */
  lemma Power170()
    requires Exp(85) == Of(214)
    ensures Exp(170) == Add(Exp(85), One)
  {
    hide Exp, Mul, Of, Add;
    SmallPowerValues();
    PowersFrom85();
    OneIs();
    AddOf(128, 64, 192);
    AddOf(192, 16, 208);
    AddOf(208, 4, 212);
    AddOf(212, 2, 214);
    AddOf(91, 163, 248);
    AddOf(248, 225, 25);
    AddOf(25, 127, 102);
    AddOf(102, 177, 215);
    AddOf(214, 1, 215);
    MulAddLeft(Add(Add(Add(Exp(7), Exp(6)), Exp(4)), Exp(2)), Exp(1), Exp(85));
    FourTimesPower(7, 6, 4, 2, 85);
    ExpAdd(1, 85);
    ExpAdd(85, 85);
  }

  lemma Power255()
    requires Exp(170) == Add(Exp(85), One)
    ensures Exp(255) == One
  {
    hide Exp, Mul, Add;
    ExpAdd(170, 85);
    ExpAdd(85, 85);
    MulAddLeft(Exp(85), One, Exp(85));
    MulOneLeft(Exp(85));
    AddComm(Exp(85), One);
    AddAssoc(One, Exp(85), Exp(85));
    AddZero(Exp(85));
    AddZero(One);
  }

  lemma ExpValues()
    ensures Exp(15) != One && Exp(51) != One && Exp(85) != One && Exp(255) == One
  {
    hide Exp, Of, Add, ToInt;
    SmallPowerValues();
    OneIs();
    Power51();
    Power85();
    OfNumber(38);
    OfNumber(10);
    OfNumber(214);
    OfNumber(1);
    Power170();
    Power255();
  }

  // ---- the order of alpha is 255 ------------------------------------------

  lemma PeriodDifference(a: nat, b: nat)
    requires b <= a && Exp(a) == One && Exp(b) == One
    ensures Exp(a - b) == One
  {
    hide Mul;
    ExpAdd(b, a - b);
    MulOneLeft(Exp(a - b));
  }

  lemma {:induction false} PeriodMultiple(d: nat, q: nat)
    requires Exp(d) == One
    ensures Exp(d * q) == One
  {
    if q > 0 {
      hide Mul;
      PeriodMultiple(d, q - 1);
      assert d * q == d + d * (q - 1);
      ExpAdd(d, d * (q - 1));
      MulOneLeft(One);
    }
  }

  lemma PrimeFactors()
    ensures Prime(3) && Prime(5) && Prime(17)
  {
    forall d | 1 < d < 17 ensures 17 % d != 0 {
      if d == 2 {} else if d == 3 {} else if d == 4 {} else if d == 5 {} else if d == 6 {} else if d == 7 {}
      else if d == 8 {} else if d == 9 {} else if d == 10 {} else if d == 11 {} else if d == 12 {}
      else if d == 13 {} else if d == 14 {} else if d == 15 {} else {}
    }
  }

  /** A proper divisor of 255 = 3 * 5 * 17 divides 85, 51 or 15. */
  lemma ProperDivisor(d: nat, q: nat) returns (c: nat)
    requires d * q == 255 && q >= 2
    ensures d * c == 85 || d * c == 51 || d * c == 15
  {
    CofactorDivisible(d, q);
    if q % 3 == 0 {
      c := q / 3;
      PullOut(d, 3, c);
    } else if q % 5 == 0 {
      c := q / 5;
      PullOut(d, 5, c);
    } else {
      c := q / 17;
      PullOut(d, 17, c);
    }
  }

  lemma PullOut(d: int, f: int, c: int)
    ensures d * (f * c) == f * (d * c)
  {
  }

  lemma CofactorDivisible(d: nat, q: nat)
    requires d * q == 255 && q >= 2
    ensures q % 3 == 0 || q % 5 == 0 || q % 17 == 0
  {
    if q % 3 != 0 && q % 5 != 0 && q % 17 != 0 {
      PrimeFactors();
      MustDivide(d, q, 3);
      MustDivide(d, q, 5);
      MustDivide(d, q, 17);
      SmallFactor(d, q);
    }
  }

  lemma SmallFactor(d: nat, q: nat)
    requires d * q == 255 && q >= 2
    ensures 0 < d <= 127
  {
    assert d != 0;
    MulBound(d, q);
  }

  lemma MulBound(d: nat, q: nat)
    requires q >= 2
    ensures 2 * d <= d * q
  {
    assert d * (q - 2) >= 0;
  }

  lemma MustDivide(d: nat, q: nat, p: nat)
    requires Prime(p) && d * q == 255 && 255 % p == 0 && q % p != 0
    ensures d % p == 0
  {
    if d % p != 0 {
      PrimeNoZeroDivisors(p, d, q);
    }
  }

  lemma QuotientAtLeastTwo(d: nat, q: nat)
    requires 255 == d * q && d < 255
    ensures q >= 2
  {
  }

  lemma {:induction false} NoShortPeriod(d: nat)
    requires 0 < d < 255
    ensures Exp(d) != One
    decreases d
  {
    hide Exp;
    if Exp(d) == One {
      ExpValues();
      var q, r := 255 / d, 255 % d;
      assert 255 == d * q + r;
      PeriodMultiple(d, q);
      PeriodDifference(255, d * q);
      if r > 0 {
        NoShortPeriod(r);
      } else {
        QuotientAtLeastTwo(d, q);
        var c := ProperDivisor(d, q);
        PeriodMultiple(d, c);
      }
      assert false;
    }
  }

  lemma {:induction false} ExpCancel(i: nat, k: nat)
    requires Exp(i) == Exp(i + k)
    ensures Exp(k) == One
  {
    if i > 0 {
      DoubleInjective(Exp(i - 1), Exp(i - 1 + k));
      ExpCancel(i - 1, k);
    }
  }

  /** The powers alpha^0, ..., alpha^254 are pairwise different. */
  lemma ExpDistinct(i: nat, j: nat)
    requires i < j < 255
    ensures Exp(i) != Exp(j)
  {
    if Exp(i) == Exp(j) {
      ExpCancel(i, j - i);
      NoShortPeriod(j - i);
    }
  }

  lemma {:induction false} ExpMod(i: nat)
    ensures Exp(i) == Exp(i % 255)
    decreases i
  {
    hide Mul, Exp;
    if i >= 255 {
      ExpValues();
      ExpAdd(255, i - 255);
      MulOneLeft(Exp(i - 255));
      ExpMod(i - 255);
    }
  }

  function ExpInts(n: nat): (s: seq<int>)
    ensures |s| == n && forall i :: 0 <= i < n ==> s[i] == ToInt(Exp(i))
  {
    seq(n, i requires 0 <= i < n => ToInt(Exp(i)))
  }

  /** Every non-zero byte is a power of alpha. */
  lemma ExpSurjective(x: Byte)
    requires x != Zero
    ensures exists i :: 0 <= i < 255 && Exp(i) == x
  {
    hide ToInt;
    if forall i :: 0 <= i < 255 ==> Exp(i) != x {
      var s := ExpInts(255) + [ToInt(x)];
      forall i, j | 0 <= i < j < |s| ensures s[i] != s[j] {
        if s[i] == s[j] {
          if j < 255 {
            ExpDistinct(i, j);
            ToIntInjective(Exp(i), Exp(j));
          } else {
            ToIntInjective(Exp(i), x);
          }
        }
      }
      forall i | 0 <= i < |s| ensures 1 <= s[i] <= 255 {
        if i < 255 {
          ExpNonzero(i);
          PositiveInt(Exp(i));
        } else {
          PositiveInt(x);
        }
      }
      DistinctTooMany(s, 255);
      assert false;
    }
  }

  lemma {:induction false} ZeroNumber(s: seq<bool>)
    ensures Number(s) == 0 <==> forall i :: 0 <= i < |s| ==> !s[i]
  {
    if s != [] {
      ZeroNumber(s[..|s| - 1]);
      assert forall i :: 0 <= i < |s| - 1 ==> s[..|s| - 1][i] == s[i];
    }
  }

  lemma PositiveInt(x: Byte)
    requires x != Zero
    ensures 1 <= ToInt(x) <= 255
  {
    ZeroNumber(x);
    NoBits(x);
  }

  lemma NoBits(x: Byte)
    ensures (forall i :: 0 <= i < 8 ==> !x[i]) ==> x == Zero
  {
  }

  // ---- logarithms and the table arithmetic --------------------------------

  lemma LogUnique(x: Byte)
    ensures x != Zero ==> exists i: nat :: i < 255 && Exp(i) == x
    ensures forall i: nat, j: nat :: i < 255 && j < 255 && Exp(i) == x && Exp(j) == x ==> i == j
  {
    hide Exp;
    if x != Zero {
      ExpSurjective(x);
    }
    forall i: nat, j: nat | i < 255 && j < 255 && Exp(i) == x && Exp(j) == x ensures i == j {
      if i < j {
        ExpDistinct(i, j);
      } else if j < i {
        ExpDistinct(j, i);
      }
    }
  }

  /** The entry of GF_LOG; 0 for the byte 0, which the initialisation never writes. */
  function Log(x: Byte): (i: nat)
    ensures x != Zero ==> i < 255 && Exp(i) == x
  {
    if x == Zero then 0
    else
      LogUnique(x);
      var i: nat :| i < 255 && Exp(i) == x;
      i
  }

  lemma LogExp(i: nat)
    requires i < 255
    ensures Log(Exp(i)) == i
  {
    hide Exp;
    ExpNonzero(i);
    LogUnique(Exp(i));
  }

  lemma ExpLog(x: Byte)
    requires x != Zero
    ensures Log(x) < 255 && Exp(Log(x)) == x
  {
  }

  function Gmul(a: Byte, b: Byte): Byte {
    if a == Zero || b == Zero then Zero else Exp((Log(a) + Log(b)) % 255)
  }

  /** The entry of GF_INV for a non-zero byte. */
  function Ginv(a: Byte): Byte {
    Exp((255 - Log(a) % 255) % 255)
  }

  function Gpow(a: Byte, power: int): Byte {
    if power == 0 then One else if a == Zero then Zero else Exp((Log(a) * (power % 255)) % 255)
  }

  /** Table multiplication is polynomial multiplication modulo 0x11d. */
  lemma GmulIsMul(a: Byte, b: Byte)
    ensures Gmul(a, b) == Mul(a, b)
  {
    hide Mul, Log, Exp;
    if a == Zero || b == Zero {
      MulZero(a);
      MulZero(b);
    } else {
      ExpLog(a);
      ExpLog(b);
      ExpAdd(Log(a), Log(b));
      ExpMod(Log(a) + Log(b));
    }
  }

  /** The product of n factors a. */
  function Power(a: Byte, n: nat): Byte { if n == 0 then One else Mul(Power(a, n - 1), a) }

  lemma {:induction false} ExpPower(i: nat, n: nat)
    ensures Power(Exp(i), n) == Exp(i * n)
  {
    hide Mul, Exp;
    if n == 0 {
      ExpStart();
      assert i * 0 == 0;
    } else {
      ExpPower(i, n - 1);
      ExpAdd(i * (n - 1), i);
      assert i * (n - 1) + i == i * n;
    }
  }

  lemma ExpReduced(i: nat, n: nat)
    ensures Exp(i * (n % 255) % 255) == Exp(i * n)
  {
    hide Exp;
    ExpMod(i * (n % 255));
    var q := n / 255;
    assert n == 255 * q + n % 255;
    assert i * n == i * (n % 255) + 255 * (i * q);
    ExpTurns(i * (n % 255), i * q);
  }

  lemma {:induction false} ExpTurns(i: nat, q: nat)
    ensures Exp(i + 255 * q) == Exp(i)
  {
    hide Exp;
    if q > 0 {
      ExpTurns(i, q - 1);
      ExpMod(i + 255 * q);
      ExpMod(i + 255 * (q - 1));
      assert (i + 255 * q) % 255 == (i + 255 * (q - 1)) % 255;
    }
  }

  /** gpow is repeated multiplication, of any byte. */
  lemma GpowIsPower(a: Byte, n: nat)
    ensures Gpow(a, n) == Power(a, n)
  {
    hide Mul, Log, Exp;
    if n > 0 {
      if a == Zero {
        MulZero(Power(a, n - 1));
      } else {
        ExpLog(a);
        ExpPower(Log(a), n);
        ExpReduced(Log(a), n);
      }
    }
  }

  lemma MulComm(a: Byte, b: Byte)
    ensures Mul(a, b) == Mul(b, a)
  {
    hide Log, Exp, Mul;
    GmulIsMul(a, b);
    GmulIsMul(b, a);
  }

  lemma MulAddRight(a: Byte, b: Byte, c: Byte)
    ensures Mul(a, Add(b, c)) == Add(Mul(a, b), Mul(a, c))
  {
    hide Mul, Add;
    MulAddLeft(b, c, a);
    MulComm(a, Add(b, c));
    MulComm(a, b);
    MulComm(a, c);
  }

  lemma MulAssoc(a: Byte, b: Byte, c: Byte)
    ensures Mul(Mul(a, b), c) == Mul(a, Mul(b, c))
  {
    hide Mul, Log;
    MulZero(a);
    MulZero(b);
    MulZero(c);
    MulZero(Mul(a, b));
    MulZero(Mul(b, c));
    if a != Zero && b != Zero && c != Zero {
      ExpLog(a);
      ExpLog(b);
      ExpLog(c);
      ExpAdd(Log(a), Log(b));
      ExpAdd(Log(b), Log(c));
      ExpAdd(Log(a) + Log(b), Log(c));
      ExpAdd(Log(a), Log(b) + Log(c));
    }
  }

  /** GF_INV holds true inverses. */
  lemma GinvIsInverse(a: Byte)
    requires a != Zero
    ensures Mul(a, Ginv(a)) == One && Ginv(a) != Zero
  {
    hide Mul, Log, Exp, Double;
    ExpLog(a);
    var i := Log(a);
    var j := (255 - i % 255) % 255;
    assert i + j == 0 || i + j == 255 by { hide *; }
    ExpAdd(i, j);
    ExpNonzero(j);
    ExpValues();
    ExpStart();
  }

  lemma NoZeroDivisors(a: Byte, b: Byte)
    requires Mul(a, b) == Zero
    ensures a == Zero || b == Zero
  {
    hide Mul;
    if a != Zero {
      GinvIsInverse(a);
      MulComm(a, Ginv(a));
      MulAssoc(Ginv(a), a, b);
      MulOneLeft(b);
      MulZero(Ginv(a));
    }
  }

  lemma GpowUnfold(a: Byte, e: nat)
    requires a != Zero
    ensures Gpow(a, e) == if e == 0 then One else Exp((Log(a) * (e % 255)) % 255)
  {
  }

  lemma OneTimesMod(l: int, e: nat)
    requires l == 1
    ensures (l * (e % 255)) % 255 == e % 255
  {
  }

  lemma GpowLogOne(a: Byte, e: nat)
    requires a != Zero && Log(a) == 1
    ensures Gpow(a, e) == Exp(e)
  {
    hide *;
    GpowUnfold(a, e);
    OneTimesMod(Log(a), e);
    ExpStart();
    ExpMod(e);
  }

  /** gpow(0x02, e) is alpha^e. */
  lemma GpowAlpha(e: nat)
    ensures Gpow(Double(One), e) == Exp(e)
  {
    hide Exp, Log, Gpow, Double;
    ExpStart();
    ExpNonzero(1);
    LogExp(1);
    GpowLogOne(Double(One), e);
  }

  // ---- table set-up -------------------------------------------------------

  /** initGaloisField: one pass fills exp and log, a second repeats exp, a third fills inv. */
  method InitGaloisField() returns (exp: array<Byte>, log: array<nat>, inv: array<Byte>)
    ensures exp.Length == 512 && log.Length == 256 && inv.Length == 256
    ensures forall i :: 0 <= i < 512 ==> exp[i] == Exp(i % 255)
    ensures forall b: Byte :: log[ToInt(b)] == Log(b)
    ensures inv[0] == Zero && forall b: Byte :: b != Zero ==> inv[ToInt(b)] == Ginv(b)
  {
    hide Exp, ToInt, Double, Log, Ginv;
    exp := new Byte[512](_ => Zero);
    log := new nat[256](_ => 0);
    inv := new Byte[256](_ => Zero);
    assert log[0] == 0 && inv[0] == Zero;
    FillExpLog(exp, log);
    LogTableDone(log[..]);
    RepeatExp(exp);
    FillInv(exp, log, inv);
  }

  lemma LogSlotFree(i: nat)
    requires i < 255
    ensures ToInt(Exp(i)) != 0
    ensures forall j :: 0 <= j < i ==> ToInt(Exp(j)) != ToInt(Exp(i))
  {
    hide Exp, ToInt;
    ExpNonzero(i);
    PositiveInt(Exp(i));
    forall j | 0 <= j < i ensures ToInt(Exp(j)) != ToInt(Exp(i)) {
      ExpDistinct(j, i);
      if ToInt(Exp(j)) == ToInt(Exp(i)) { ToIntInjective(Exp(j), Exp(i)); }
    }
  }

  method FillExpLog(exp: array<Byte>, log: array<nat>)
    requires exp.Length == 512 && log.Length == 256 && log[0] == 0
    modifies exp, log
    ensures forall i :: 0 <= i < 255 ==> exp[i] == Exp(i)
    ensures log[0] == 0 && forall i :: 0 <= i < 255 ==> log[ToInt(Exp(i))] == i
  {
    hide Exp, ToInt, Double;
    var x := One;
    ExpStart();
    for i := 0 to 255
      invariant x == Exp(i)
      invariant forall j :: 0 <= j < i ==> exp[j] == Exp(j)
      invariant log[0] == 0 && forall j :: 0 <= j < i ==> log[ToInt(Exp(j))] == j
    {
      LogSlotFree(i);
      ExpNext(i);
      exp[i] := x;
      log[ToInt(x)] := i;
      x := Double(x);
    }
  }

  method RepeatExp(exp: array<Byte>)
    requires exp.Length == 512 && forall i :: 0 <= i < 255 ==> exp[i] == Exp(i)
    modifies exp
    ensures forall i :: 0 <= i < 512 ==> exp[i] == Exp(i % 255)
  {
    hide Exp;
    assert forall i :: 0 <= i < 255 ==> i % 255 == i;
    for i := 255 to 512
      invariant forall j :: 0 <= j < i ==> exp[j] == Exp(j % 255)
    {
      assert (i - 255) % 255 == i % 255;
      exp[i] := exp[i - 255];
    }
  }

  method FillInv(exp: array<Byte>, log: array<nat>, inv: array<Byte>)
    requires exp.Length == 512 && log.Length == 256 && inv.Length == 256 && inv != exp && inv[0] == Zero
    requires forall i :: 0 <= i < 512 ==> exp[i] == Exp(i % 255)
    requires forall b: Byte :: log[ToInt(b)] == Log(b)
    modifies inv
    ensures inv[0] == Zero && forall b: Byte :: b != Zero ==> inv[ToInt(b)] == Ginv(b)
  {
    hide Exp, ToInt, Log, Ginv;
    for i := 1 to 256
      invariant inv[0] == Zero
      invariant forall j :: 1 <= j < i ==> inv[j] == Exp((255 - log[j] % 255) % 255)
    {
      inv[i] := exp[(255 - log[i] % 255) % 255];
    }
    forall b: Byte | b != Zero ensures inv[ToInt(b)] == Ginv(b) {
      PositiveInt(b);
      assert log[ToInt(b)] == Log(b);
      GinvEntry(b);
    }
  }

  lemma GinvEntry(b: Byte)
    ensures Ginv(b) == Exp((255 - Log(b) % 255) % 255)
  {
    hide Exp, Log;
  }

  lemma LogTableDone(log: seq<nat>)
    requires |log| == 256 && log[0] == 0
    requires forall j :: 0 <= j < 255 ==> log[ToInt(Exp(j))] == j
    ensures forall b: Byte :: log[ToInt(b)] == Log(b)
  {
    hide Exp, ToInt;
    forall b: Byte ensures log[ToInt(b)] == Log(b) {
      if b == Zero {
        ZeroInt();
      } else {
        ExpLog(b);
        assert log[ToInt(Exp(Log(b)))] == Log(b);
      }
    }
  }

  lemma ZeroInt()
    ensures ToInt(Zero) == 0
  {
    ZeroNumber(Zero);
  }
}
