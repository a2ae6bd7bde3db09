/** For which sizes any k of the k + m shards of backend/storage/reed_solomon.js determine the file:
    the exact range of the claim at the head of that file. */
module RecoveryLimits {
  import opened GF256
  import opened GFMatrix
  import opened Minors

  /** k data and m parity shards for which no choice of k shards fails. */
  predicate Safe(k: nat, m: nat) {
    m <= 3 || k <= 3 || (m == 4 && k <= 21) || (k == 4 && m <= 21) || (k == 5 && m == 5)
  }

  /** As many parity rows as columns, in increasing order. */
  ghost predicate Piece(rows: seq<nat>, cols: seq<nat>, m: nat, k: nat) {
    && |rows| == |cols| && Increasing(rows) && Increasing(cols)
    && (forall i :: 0 <= i < |rows| ==> rows[i] < m) && (forall j :: 0 <= j < |cols| ==> cols[j] < k)
  }

  // ---- small powers of alpha ----------------------------------------------

  /** The first powers, as numbers. */
  const CODES: seq<nat> := [1, 2, 4, 8, 16, 32, 64, 128, 29, 58, 116, 232, 205, 135, 19, 38, 76, 152, 45, 90, 180]

  lemma HalvesDiffer(i: nat, j: nat)
    requires 0 < i < j <= 20
    ensures CODES[i] / 2 != CODES[j] / 2
  {
  }

  lemma CodeOf(i: nat)
    requires i <= 20
    ensures Exp(i) == Of(CODES[i])
  {
    hide Exp, Of;
    SmallPowerValues();
    assert i == 0 || i == 1 || i == 2 || i == 3 || i == 4 || i == 5 || i == 6 || i == 7 || i == 8 || i == 9 || i == 10
      || i == 11 || i == 12 || i == 13 || i == 14 || i == 15 || i == 16 || i == 17 || i == 18 || i == 19 || i == 20;
  }

  lemma CodesAreBytes(i: nat)
    requires i <= 20
    ensures Writes(CODES[i])
  {
    if i <= 10 { LowCodes(i); } else { HighCodes(i); }
  }

  lemma LowCodes(i: nat)
    requires i <= 10
    ensures Writes(CODES[i])
  {
  }

  lemma HighCodes(i: nat)
    requires 10 < i <= 20
    ensures Writes(CODES[i])
  {
  }

  lemma HalfOf(i: nat)
    requires i <= 20
    ensures ToInt(Exp(i)) / 2 == CODES[i] / 2
  {
    hide Exp, ToInt, Of;
    CodeOf(i);
    CodesAreBytes(i);
    OfNumber(CODES[i]);
  }

  lemma HalfIs(x: Byte)
    ensures ToInt(x) / 2 == Number(x[..7])
  {
  }

  lemma SameHalf(x: Byte)
    ensures ToInt(Add(One, x)) / 2 == ToInt(x) / 2
  {
    HalfIs(x);
    HalfIs(Add(One, x));
    assert Add(One, x)[..7] == x[..7];
  }

  /** Among the first 21 powers no three with the first of them add up to zero. */
  lemma NoTrinomial(i: nat, j: nat)
    requires 0 < i < j <= 20
    ensures Add(Add(One, Exp(i)), Exp(j)) != Zero
  {
    hide Exp, ToInt, Add;
    HalfOf(i);
    HalfOf(j);
    HalvesDiffer(i, j);
    SameHalf(Exp(i));
    if Add(Add(One, Exp(i)), Exp(j)) == Zero {
      AddCancels(Add(One, Exp(i)), Exp(j));
    }
  }

  // ---- locators -----------------------------------------------------------

  lemma LocatorNext(cols: seq<nat>, c: nat)
    ensures Locator(cols + [c]) == TimesRoot(Locator(cols), c)
  {
    assert (cols + [c])[..|cols|] == cols;
  }

  lemma LocatorTwo(a: nat, b: nat)
    ensures Locator([a, b]) == [Exp(a + b), Add(Exp(a), Exp(b)), One]
  {
    hide Exp, Mul, Add, Locator;
    LocatorEmpty();
    LocatorNext([], a);
    LocatorNext([a], b);
    assert [] + [a] == [a] && [a] + [b] == [a, b];
    MulComm(Exp(a), One);
    MulOneLeft(Exp(a));
    MulComm(Exp(b), One);
    MulOneLeft(Exp(b));
    AddZero(Exp(a));
    AddZero(One);
    assert Locator([a]) == [Exp(a), One];
    ExpAdd(b, a);
    AddZero(Mul(Exp(b), Exp(a)));
  }

  lemma LocatorEmpty()
    ensures Locator([]) == [One]
  {
  }

  /** The elementary symmetric polynomials of three powers. */
  lemma LocatorThree(a: nat, b: nat, c: nat)
    ensures Locator([a, b, c]) ==
      [Exp(a + b + c), Add(Exp(a + b), Add(Exp(a + c), Exp(b + c))), Add(Add(Exp(a), Exp(b)), Exp(c)), One]
  {
    hide Exp, Mul, Add, Locator;
    LocatorTwo(a, b);
    LocatorNext([a, b], c);
    assert [a, b] + [c] == [a, b, c];
    MulComm(Exp(c), One);
    MulOneLeft(Exp(c));
    AddZero(One);
    ExpAdd(c, a + b);
    AddZero(Mul(Exp(c), Exp(a + b)));
    MulAddRight(Exp(c), Exp(a), Exp(b));
    ExpAdd(c, a);
    ExpAdd(c, b);
    assert c + (a + b) == a + b + c && c + a == a + c && c + b == b + c;
  }

  lemma LocatorFour(a: nat, b: nat, c: nat, e: nat)
    ensures
      var g := Locator([a, b, c, e]);
      && g[1] == Add(Exp(a + b + c), Add(Exp(a + b + e), Add(Exp(a + c + e), Exp(b + c + e))))
      && g[2] == Add(Add(Exp(a + b), Add(Exp(a + c), Exp(b + c))), Add(Add(Exp(a + e), Exp(b + e)), Exp(c + e)))
      && g[3] == Add(Add(Add(Exp(a), Exp(b)), Exp(c)), Exp(e))
  {
    hide Exp, Mul, Add, Locator;
    LocatorThree(a, b, c);
    LocatorNext([a, b, c], e);
    assert [a, b, c] + [e] == [a, b, c, e];
    MulComm(Exp(e), One);
    MulOneLeft(Exp(e));
    MulAddRight(Exp(e), Exp(a + b), Add(Exp(a + c), Exp(b + c)));
    MulAddRight(Exp(e), Exp(a + c), Exp(b + c));
    ExpAdd(e, a + b);
    ExpAdd(e, a + c);
    ExpAdd(e, b + c);
    MulAddRight(Exp(e), Add(Exp(a), Exp(b)), Exp(c));
    MulAddRight(Exp(e), Exp(a), Exp(b));
    ExpAdd(e, a);
    ExpAdd(e, b);
    ExpAdd(e, c);
    assert e + (a + b) == a + b + e && e + (a + c) == a + c + e && e + (b + c) == b + c + e;
    assert e + a == a + e && e + b == b + e && e + c == c + e;
  }

  /** Three columns below 21: the first two symmetric polynomials do not vanish. */
  lemma SumsNotZero(a: nat, b: nat, c: nat)
    requires a < b < c <= 20
    ensures Locator([a, b, c])[1] != Zero && Locator([a, b, c])[2] != Zero
  {
    hide Exp, Mul, Add, Locator;
    LocatorThree(a, b, c);
    NoTrinomial(b - a, c - a);
    NoTrinomial(c - b, c - a);
    Factored(a, b - a, c - a);
    Factored(a + b, c - b, c - a);
    assert a + (b - a) == b && a + (c - a) == c && a + b + (c - b) == a + c && a + b + (c - a) == b + c;
    AddAssoc(Exp(a + b), Exp(a + c), Exp(b + c));
  }

  /** alpha^s (1 + alpha^i + alpha^j), not zero if the second factor is not. */
  lemma Factored(s: nat, i: nat, j: nat)
    ensures Add(Add(One, Exp(i)), Exp(j)) != Zero ==> Add(Add(Exp(s), Exp(s + i)), Exp(s + j)) != Zero
  {
    hide Exp, Mul, Add;
    ExpAdd(s, i);
    ExpAdd(s, j);
    MulAddRight(Exp(s), Add(One, Exp(i)), Exp(j));
    MulAddRight(Exp(s), One, Exp(i));
    MulComm(Exp(s), One);
    MulOneLeft(Exp(s));
    ExpNonzero(s);
    if Add(Add(Exp(s), Exp(s + i)), Exp(s + j)) == Zero {
      NoZeroDivisors(Exp(s), Add(Add(One, Exp(i)), Exp(j)));
    }
  }

  lemma SquareOfThree(x: Byte, y: Byte, z: Byte)
    ensures Mul(Add(Add(x, y), z), Add(Add(x, y), z)) == Add(Add(Mul(x, x), Mul(y, y)), Mul(z, z))
  {
    hide Mul, Add;
    SquareOfTwo(Add(x, y), z);
    SquareOfTwo(x, y);
  }

  lemma SquareOfTwo(x: Byte, y: Byte)
    ensures Mul(Add(x, y), Add(x, y)) == Add(Mul(x, x), Mul(y, y))
  {
    hide Mul, Add;
    MulAddLeft(x, y, Add(x, y));
    MulAddRight(x, x, y);
    MulAddRight(y, x, y);
    MulComm(x, y);
    MiddleCancels(Mul(x, x), Mul(x, y), Mul(y, y));
  }

  lemma MiddleCancels(a: Byte, b: Byte, c: Byte)
    ensures Add(Add(a, b), Add(b, c)) == Add(a, c)
  {
  }

  /** Three columns below 5: what two gaps need. */
  lemma WideSums(a: nat, b: nat, c: nat)
    requires a < b < c <= 4
    ensures EndSolvable([a, b, c]) && StartSolvable([a, b, c])
  {
    hide Exp, Mul, Add, Locator, WideEnd, WideStart;
    LocatorThree(a, b, c);
    SumsNotZero(a, b, c);
    WideValues(a, b, c);
    EndIsWide(a, b, c);
    StartIsWide(a, b, c);
  }

  lemma EndIsWide(a: nat, b: nat, c: nat)
    ensures
      var g1, g2 := Add(Exp(a + b), Add(Exp(a + c), Exp(b + c))), Add(Add(Exp(a), Exp(b)), Exp(c));
      Add(g1, Mul(g2, g2)) == WideEnd(a, b, c)
  {
    hide Exp, Mul, Add;
    SquareOfThree(Exp(a), Exp(b), Exp(c));
    ExpAdd(a, a);
    ExpAdd(b, b);
    ExpAdd(c, c);
  }

  lemma StartIsWide(a: nat, b: nat, c: nat)
    ensures
      var g0, g1, g2 := Exp(a + b + c), Add(Exp(a + b), Add(Exp(a + c), Exp(b + c))), Add(Add(Exp(a), Exp(b)), Exp(c));
      Add(Mul(g1, g1), Mul(g0, g2)) == WideStart(a, b, c)
  {
    hide Exp, Mul, Add;
    AddAssoc(Exp(a + b), Exp(a + c), Exp(b + c));
    SquareOfThree(Exp(a + b), Exp(a + c), Exp(b + c));
    ExpAdd(a + b, a + b);
    ExpAdd(a + c, a + c);
    ExpAdd(b + c, b + c);
    MulAddRight(Exp(a + b + c), Add(Exp(a), Exp(b)), Exp(c));
    MulAddRight(Exp(a + b + c), Exp(a), Exp(b));
    ExpAdd(a + b + c, a);
    ExpAdd(a + b + c, b);
    ExpAdd(a + b + c, c);
  }

  /** alpha^a + ... + alpha^f, grouped as the symmetric polynomials leave it. */
  function Six(a: nat, b: nat, c: nat, d: nat, e: nat, f: nat): Byte {
    Add(Add(Exp(a), Add(Exp(b), Exp(c))), Add(Add(Exp(d), Exp(e)), Exp(f)))
  }

  function WideEnd(a: nat, b: nat, c: nat): Byte {
    Six(a + b, a + c, b + c, a + a, b + b, c + c)
  }

  function WideStart(a: nat, b: nat, c: nat): Byte {
    Add(Add(Add(Exp(a + b + (a + b)), Exp(a + c + (a + c))), Exp(b + c + (b + c))),
        Add(Add(Exp(a + b + c + a), Exp(a + b + c + b)), Exp(a + b + c + c)))
  }

  lemma SixShifted(n: nat, a: nat, b: nat, c: nat, d: nat, e: nat, f: nat)
    ensures Mul(Exp(n), Six(a, b, c, d, e, f)) == Six(n + a, n + b, n + c, n + d, n + e, n + f)
  {
    hide Exp, Mul, Add;
    MulAddRight(Exp(n), Add(Exp(a), Add(Exp(b), Exp(c))), Add(Add(Exp(d), Exp(e)), Exp(f)));
    MulAddRight(Exp(n), Exp(a), Add(Exp(b), Exp(c)));
    MulAddRight(Exp(n), Exp(b), Exp(c));
    MulAddRight(Exp(n), Add(Exp(d), Exp(e)), Exp(f));
    MulAddRight(Exp(n), Exp(d), Exp(e));
    ExpAdd(n, a);
    ExpAdd(n, b);
    ExpAdd(n, c);
    ExpAdd(n, d);
    ExpAdd(n, e);
    ExpAdd(n, f);
  }

  lemma SixNotZero(n: nat, a: nat, b: nat, c: nat, d: nat, e: nat, f: nat)
    requires Six(a, b, c, d, e, f) != Zero
    ensures Six(n + a, n + b, n + c, n + d, n + e, n + f) != Zero
  {
    hide Exp, Mul, Add, Six;
    SixShifted(n, a, b, c, d, e, f);
    ExpNonzero(n);
    if Mul(Exp(n), Six(a, b, c, d, e, f)) == Zero {
      NoZeroDivisors(Exp(n), Six(a, b, c, d, e, f));
    }
  }

  /** The same six powers in the order in which the start leaves them. */
  lemma Regroup(p: Byte, q: Byte, r: Byte, x: Byte, y: Byte, z: Byte)
    ensures Add(Add(x, Add(y, z)), Add(Add(p, q), r)) == Add(Add(Add(p, q), r), Add(Add(x, y), z))
  {
  }

  lemma WideValues(a: nat, b: nat, c: nat)
    requires a < b < c <= 4
    ensures WideEnd(a, b, c) != Zero && WideStart(a, b, c) != Zero
  {
    hide Exp, Add, Six;
    WideSix(b - a, c - a);
    SixNotZero(2 * a, b - a, c - a, (b - a) + (c - a), 0, 2 * (b - a), 2 * (c - a));
    StartNotZero(a, b, c);
  }

  /** The start is the end with every exponent counted down from c. */
  lemma StartNotZero(a: nat, b: nat, c: nat)
    requires a < b < c <= 4
    ensures WideStart(a, b, c) != Zero
  {
    hide Exp, Add;
    WideSix(c - b, c - a);
    var n := 4 * a + 2 * (b - a);
    SixNotZero(n, c - b, c - a, (c - b) + (c - a), 0, 2 * (c - b), 2 * (c - a));
    assert n + (c - b) == a + b + c + a && n + (c - a) == a + b + c + b && n + ((c - b) + (c - a)) == a + b + c + c;
    assert n + 0 == a + b + (a + b) && n + 2 * (c - b) == a + c + (a + c) && n + 2 * (c - a) == b + c + (b + c);
    Regroup(Exp(n), Exp(a + c + (a + c)), Exp(b + c + (b + c)), Exp(a + b + c + a), Exp(a + b + c + b), Exp(a + b + c + c));
  }

  lemma WideSix(u: nat, v: nat)
    requires 0 < u < v <= 4
    ensures Six(u, v, u + v, 0, 2 * u, 2 * v) != Zero
  {
    hide Six;
    if u == 1 {
      if v == 2 { Wide12(); } else if v == 3 { Wide13(); } else { Wide14(); }
    } else if u == 2 {
      if v == 3 { Wide23(); } else { Wide24(); }
    } else {
      Wide34();
    }
  }

  lemma Wide12()
    ensures Six(1, 2, 3, 0, 2, 4) != Zero
  {
    hide Exp, Of, Add;
    PowersTo8();
    AddOf(4, 8, 12);
    AddOf(2, 12, 14);
    AddOf(1, 4, 5);
    AddOf(5, 16, 21);
    AddOf(14, 21, 27);
    OfNumber(27);
  }

  lemma Wide13()
    ensures Six(1, 3, 4, 0, 2, 6) != Zero
  {
    hide Exp, Of, Add;
    PowersTo8();
    AddOf(8, 16, 24);
    AddOf(2, 24, 26);
    AddOf(1, 4, 5);
    AddOf(5, 64, 69);
    AddOf(26, 69, 95);
    OfNumber(95);
  }

  lemma Wide14()
    ensures Six(1, 4, 5, 0, 2, 8) != Zero
  {
    hide Exp, Of, Add;
    PowersTo8();
    AddOf(16, 32, 48);
    AddOf(2, 48, 50);
    AddOf(1, 4, 5);
    AddOf(5, 29, 24);
    AddOf(50, 24, 42);
    OfNumber(42);
  }

  lemma Wide23()
    ensures Six(2, 3, 5, 0, 4, 6) != Zero
  {
    hide Exp, Of, Add;
    PowersTo8();
    AddOf(8, 32, 40);
    AddOf(4, 40, 44);
    AddOf(1, 16, 17);
    AddOf(17, 64, 81);
    AddOf(44, 81, 125);
    OfNumber(125);
  }

  lemma Wide24()
    ensures Six(2, 4, 6, 0, 4, 8) != Zero
  {
    hide Exp, Of, Add;
    PowersTo8();
    AddOf(16, 64, 80);
    AddOf(4, 80, 84);
    AddOf(1, 16, 17);
    AddOf(17, 29, 12);
    AddOf(84, 12, 88);
    OfNumber(88);
  }

  lemma Wide34()
    ensures Six(3, 4, 7, 0, 6, 8) != Zero
  {
    hide Exp, Of, Add;
    PowersTo8();
    AddOf(16, 128, 144);
    AddOf(8, 144, 152);
    AddOf(1, 64, 65);
    AddOf(65, 29, 92);
    AddOf(152, 92, 196);
    OfNumber(196);
  }

  /** Four columns below 5 are all but one of them. */
  function AllBut(x: nat): (cols: seq<nat>)
    requires x <= 4
    ensures |cols| == 4
  {
    if x == 0 then [1, 2, 3, 4] else if x == 1 then [0, 2, 3, 4] else if x == 2 then [0, 1, 3, 4]
    else if x == 3 then [0, 1, 2, 4] else [0, 1, 2, 3]
  }

  /** Four columns below 5: the inner symmetric polynomials do not vanish. */
  lemma FourSums(x: nat)
    requires x <= 4
    ensures Locator(AllBut(x))[1] != Zero && Locator(AllBut(x))[2] != Zero && Locator(AllBut(x))[3] != Zero
  {
    hide Exp, Mul, Locator, Add;
    if x == 0 {
      Outer1234();
      Inner1234();
    } else if x == 1 {
      Outer0234();
      Inner0234();
    } else if x == 2 {
      Outer0134();
      Inner0134();
    } else if x == 3 {
      Outer0124();
      Inner0124();
    } else {
      Outer0123();
      Inner0123();
    }
  }

  lemma Outer1234()
    ensures Locator([1, 2, 3, 4])[1] != Zero && Locator([1, 2, 3, 4])[3] != Zero
  {
    hide Exp, Mul, Locator, Of, Add;
    LocatorFour(1, 2, 3, 4);
    PowersTo8();
    NextPower(8, 29, 58);
    AddOf(29, 58, 39);
    AddOf(128, 39, 167);
    AddOf(64, 167, 231);
    AddOf(2, 4, 6);
    AddOf(6, 8, 14);
    AddOf(14, 16, 30);
    OfNumber(231);
    OfNumber(30);
  }

  lemma Inner1234()
    ensures Locator([1, 2, 3, 4])[2] != Zero
  {
    hide Exp, Mul, Locator, Of, Add;
    LocatorFour(1, 2, 3, 4);
    PowersTo8();
    AddOf(16, 32, 48);
    AddOf(8, 48, 56);
    AddOf(32, 64, 96);
    AddOf(96, 128, 224);
    AddOf(56, 224, 216);
    OfNumber(216);
  }

  lemma Outer0234()
    ensures Locator([0, 2, 3, 4])[1] != Zero && Locator([0, 2, 3, 4])[3] != Zero
  {
    hide Exp, Mul, Locator, Of, Add;
    LocatorFour(0, 2, 3, 4);
    PowersTo8();
    NextPower(8, 29, 58);
    AddOf(128, 58, 186);
    AddOf(64, 186, 250);
    AddOf(32, 250, 218);
    AddOf(1, 4, 5);
    AddOf(5, 8, 13);
    AddOf(13, 16, 29);
    OfNumber(218);
    OfNumber(29);
  }

  lemma Inner0234()
    ensures Locator([0, 2, 3, 4])[2] != Zero
  {
    hide Exp, Mul, Locator, Of, Add;
    LocatorFour(0, 2, 3, 4);
    PowersTo8();
    AddOf(8, 32, 40);
    AddOf(4, 40, 44);
    AddOf(16, 64, 80);
    AddOf(80, 128, 208);
    AddOf(44, 208, 252);
    OfNumber(252);
  }

  lemma Outer0134()
    ensures Locator([0, 1, 3, 4])[1] != Zero && Locator([0, 1, 3, 4])[3] != Zero
  {
    hide Exp, Mul, Locator, Of, Add;
    LocatorFour(0, 1, 3, 4);
    PowersTo8();
    AddOf(128, 29, 157);
    AddOf(32, 157, 189);
    AddOf(16, 189, 173);
    AddOf(1, 2, 3);
    AddOf(3, 8, 11);
    AddOf(11, 16, 27);
    OfNumber(173);
    OfNumber(27);
  }

  lemma Inner0134()
    ensures Locator([0, 1, 3, 4])[2] != Zero
  {
    hide Exp, Mul, Locator, Of, Add;
    LocatorFour(0, 1, 3, 4);
    PowersTo8();
    AddOf(8, 16, 24);
    AddOf(2, 24, 26);
    AddOf(16, 32, 48);
    AddOf(48, 128, 176);
    AddOf(26, 176, 170);
    OfNumber(170);
  }

  lemma Outer0124()
    ensures Locator([0, 1, 2, 4])[1] != Zero && Locator([0, 1, 2, 4])[3] != Zero
  {
    hide Exp, Mul, Locator, Of, Add;
    LocatorFour(0, 1, 2, 4);
    PowersTo8();
    AddOf(64, 128, 192);
    AddOf(32, 192, 224);
    AddOf(8, 224, 232);
    AddOf(1, 2, 3);
    AddOf(3, 4, 7);
    AddOf(7, 16, 23);
    OfNumber(232);
    OfNumber(23);
  }

  lemma Inner0124()
    ensures Locator([0, 1, 2, 4])[2] != Zero
  {
    hide Exp, Mul, Locator, Of, Add;
    LocatorFour(0, 1, 2, 4);
    PowersTo8();
    AddOf(4, 8, 12);
    AddOf(2, 12, 14);
    AddOf(16, 32, 48);
    AddOf(48, 64, 112);
    AddOf(14, 112, 126);
    OfNumber(126);
  }

  lemma Outer0123()
    ensures Locator([0, 1, 2, 3])[1] != Zero && Locator([0, 1, 2, 3])[3] != Zero
  {
    hide Exp, Mul, Locator, Of, Add;
    LocatorFour(0, 1, 2, 3);
    PowersTo8();
    AddOf(32, 64, 96);
    AddOf(16, 96, 112);
    AddOf(8, 112, 120);
    AddOf(1, 2, 3);
    AddOf(3, 4, 7);
    AddOf(7, 8, 15);
    OfNumber(120);
    OfNumber(15);
  }

  lemma Inner0123()
    ensures Locator([0, 1, 2, 3])[2] != Zero
  {
    hide Exp, Mul, Locator, Of, Add;
    LocatorFour(0, 1, 2, 3);
    PowersTo8();
    AddOf(4, 8, 12);
    AddOf(2, 12, 14);
    AddOf(8, 16, 24);
    AddOf(24, 32, 56);
    AddOf(14, 56, 54);
    OfNumber(54);
  }

  // ---- the safe sizes -----------------------------------------------------

  /** Different columns below 255 give different powers, also of alpha squared. */
  lemma ApartWide(cols: seq<nat>, d: nat)
    requires Increasing(cols) && (forall j :: 0 <= j < |cols| ==> cols[j] < 255) && (d == 1 || d == 2)
    ensures Apart(cols, d)
  {
    hide Exp;
    forall j, l | 0 <= j < l < |cols| ensures Exp(d * cols[j]) != Exp(d * cols[l]) {
      assert cols[j] < cols[l];
      TwiceApart(cols[j], cols[l], d);
    }
  }

  lemma TwiceApart(a: nat, b: nat, d: nat)
    requires a < b < 255 && (d == 1 || d == 2)
    ensures Exp(d * a) != Exp(d * b)
  {
    hide Exp;
    ExpMod(d * a);
    ExpMod(d * b);
    RemaindersDiffer(a, b, d);
    var x, y := (d * a) % 255, (d * b) % 255;
    if x < y { ExpDistinct(x, y); } else { ExpDistinct(y, x); }
  }

  lemma RemaindersDiffer(a: nat, b: nat, d: nat)
    requires a < b < 255 && (d == 1 || d == 2)
    ensures (d * a) % 255 != (d * b) % 255
  {
  }

  lemma ApartNear(cols: seq<nat>, d: nat)
    requires Increasing(cols) && (forall j :: 0 <= j < |cols| ==> cols[j] <= 20) && 1 <= d <= 4
    ensures Apart(cols, d)
  {
    hide Exp;
    forall j, l | 0 <= j < l < |cols| ensures Exp(d * cols[j]) != Exp(d * cols[l]) {
      assert cols[j] < cols[l];
      assert d * cols[j] < d * cols[l] <= 80 by { Stretch(d, cols[j], cols[l]); }
      ExpDistinct(d * cols[j], d * cols[l]);
    }
  }

  lemma Stretch(d: nat, x: nat, y: nat)
    requires x < y <= 20 && 1 <= d <= 4
    ensures d * x < d * y <= 80
  {
  }

  lemma {:induction false} IncreasingCount(rows: seq<nat>, m: nat)
    requires Increasing(rows) && forall i :: 0 <= i < |rows| ==> rows[i] < m
    ensures |rows| <= m
  {
    if rows != [] {
      IncreasingCount(rows[..|rows| - 1], rows[|rows| - 1]);
    }
  }

  /** The common distance of at most two rows. */
  function Distance(rows: seq<nat>): nat {
    if |rows| == 2 && rows[0] < rows[1] then rows[1] - rows[0] else 1
  }

  lemma ShortSteps(rows: seq<nat>)
    requires Increasing(rows) && |rows| <= 2
    ensures Steps(rows, Distance(rows))
  {
    if |rows| == 2 {
      assert rows[0] < rows[1];
    }
  }

  lemma ThreeSteps(rows: seq<nat>, d: nat)
    requires |rows| == 3 && rows[1] == rows[0] + d && rows[2] == rows[1] + d
    ensures Steps(rows, d)
  {
    assert Nth(rows[0], d, 0) == rows[0] && Nth(rows[0], d, 1) == rows[0] + d && Nth(rows[0], d, 2) == rows[0] + 2 * d;
  }

  /** Rows among the first three, columns anywhere below 255. */
  lemma FewRows(rows: seq<nat>, cols: seq<nat>)
    requires Piece(rows, cols, 3, 255)
    ensures Regular(rows, cols)
  {
    hide Apart, Steps;
    IncreasingCount(rows, 3);
    if |rows| == 3 {
      assert rows[0] < rows[1] < rows[2];
      ThreeSteps(rows, 1);
      ApartWide(cols, 1);
      StepsRegular(rows, cols, 1);
    } else {
      ShortSteps(rows);
      assert 1 <= Distance(rows) <= 2;
      ApartWide(cols, Distance(rows));
      StepsRegular(rows, cols, Distance(rows));
    }
  }

  lemma IsThree(cols: seq<nat>)
    requires |cols| == 3
    ensures cols == [cols[0], cols[1], cols[2]]
  {
  }

  /** Three of the first five rows, and three columns that allow it. */
  lemma ThreeOfFive(rows: seq<nat>, cols: seq<nat>)
    requires |rows| == 3 && Piece(rows, cols, 5, 21)
    requires rows[2] - rows[0] <= 3 || cols[2] <= 4
    ensures Regular(rows, cols)
  {
    hide Apart, Steps, Locator, EndSolvable, StartSolvable;
    assert rows[0] < rows[1] < rows[2] && cols[0] < cols[1] < cols[2] <= 20;
    IsThree(cols);
    var e, f := rows[1] - rows[0], rows[2] - rows[1];
    ApartNear(cols, 1);
    SumsNotZero(cols[0], cols[1], cols[2]);
    if e == f {
      ThreeSteps(rows, e);
      ApartNear(cols, e);
      StepsRegular(rows, cols, e);
    } else if e == 1 && f == 2 {
      GapRegular(rows, cols, 2);
    } else if e == 2 && f == 1 {
      GapRegular(rows, cols, 1);
    } else {
      WideSums(cols[0], cols[1], cols[2]);
      if e == 1 {
        WideEndRegular(rows, cols);
      } else {
        WideStartRegular(rows, cols);
      }
    }
  }

  lemma Consecutive(rows: seq<nat>, cols: seq<nat>)
    requires |rows| == |cols| && Increasing(cols) && (forall j :: 0 <= j < |cols| ==> cols[j] <= 20)
    requires forall i :: 0 <= i < |rows| ==> rows[i] == rows[0] + i
    ensures Regular(rows, cols)
  {
    hide Apart;
    ApartNear(cols, 1);
    forall i | 0 <= i < |rows| ensures rows[i] == Nth(rows[0], 1, i) {
    }
    StepsRegular(rows, cols, 1);
  }

  lemma OneOrTwo(rows: seq<nat>, cols: seq<nat>)
    requires |rows| <= 2 && Piece(rows, cols, 5, 21)
    ensures Regular(rows, cols)
  {
    hide Apart, Steps;
    ShortSteps(rows);
    assert 1 <= Distance(rows) <= 4;
    ApartNear(cols, Distance(rows));
    StepsRegular(rows, cols, Distance(rows));
  }

  /** Rows among the first four, columns among the first 21. */
  lemma FourRows(rows: seq<nat>, cols: seq<nat>)
    requires Piece(rows, cols, 4, 21)
    ensures Regular(rows, cols)
  {
    IncreasingCount(rows, 4);
    if |rows| <= 2 {
      OneOrTwo(rows, cols);
    } else if |rows| == 3 {
      ThreeOfFive(rows, cols);
    } else {
      assert rows[0] < rows[1] < rows[2] < rows[3];
      Consecutive(rows, cols);
    }
  }

  /** Rows and columns among the first five. */
  lemma FiveByFive(rows: seq<nat>, cols: seq<nat>)
    requires Piece(rows, cols, 5, 5)
    ensures Regular(rows, cols)
  {
    IncreasingCount(rows, 5);
    if |rows| <= 2 {
      OneOrTwo(rows, cols);
    } else if |rows| == 3 {
      ThreeOfFive(rows, cols);
    } else if |rows| == 4 {
      FourOfFive(rows, cols);
    } else {
      assert rows[0] < rows[1] < rows[2] < rows[3] < rows[4];
      Consecutive(rows, cols);
    }
  }

  lemma FourOfFive(rows: seq<nat>, cols: seq<nat>)
    requires |rows| == 4 && Piece(rows, cols, 5, 5)
    ensures Regular(rows, cols)
  {
    hide Apart, Locator;
    assert rows[0] < rows[1] < rows[2] < rows[3] && cols[0] < cols[1] < cols[2] < cols[3];
    var x := if cols[0] == 1 then 0 else if cols[1] == 2 then 1 else if cols[2] == 3 then 2 else if cols[3] == 4 then 3 else 4;
    assert cols == AllBut(x);
    FourSums(x);
    ApartNear(cols, 1);
    if rows[1] == rows[0] + 2 {
      GapRegular(rows, cols, 1);
    } else if rows[2] == rows[1] + 2 {
      GapRegular(rows, cols, 2);
    } else if rows[3] == rows[2] + 2 {
      GapRegular(rows, cols, 3);
    } else {
      Consecutive(rows, cols);
    }
  }

  lemma SafePieces(k: nat, m: nat, rows: seq<nat>, cols: seq<nat>)
    requires 1 <= k <= 255 && 1 <= m <= 255 && Safe(k, m) && Piece(rows, cols, m, k)
    ensures Regular(rows, cols)
  {
    hide Regular;
    Minors.Exchange(rows, cols);
    if m <= 3 {
      FewRows(rows, cols);
    } else if k <= 3 {
      FewRows(cols, rows);
    } else if m == 4 && k <= 21 {
      FourRows(rows, cols);
    } else if k == 4 && m <= 21 {
      FourRows(cols, rows);
    } else {
      FiveByFive(rows, cols);
    }
  }

  // ---- the other sizes ----------------------------------------------------

  lemma SumOfThree(a: nat, b: nat, c: nat, x: Byte, y: Byte, z: Byte, p: nat)
    ensures PowerSum([a, b, c], [x, y, z], p) == Add(Add(Mul(Exp(p * a), x), Mul(Exp(p * b), y)), Mul(Exp(p * c), z))
  {
    hide Exp, Mul, Add;
    var row, u := PowerRow([a, b, c], p), [x, y, z];
    AddZero(Mul(Exp(p * a), x));
    assert DotTo(row, u, 1) == Add(Zero, Mul(Exp(p * a), x));
    assert DotTo(row, u, 2) == Add(DotTo(row, u, 1), Mul(Exp(p * b), y));
    assert DotTo(row, u, 3) == Add(DotTo(row, u, 2), Mul(Exp(p * c), z));
  }

  /** 1 + alpha^10 + alpha^21 = 0, and so for the squares and fourth powers. */
  lemma Trinomial(e: nat)
    requires e == 1 || e == 2 || e == 4
    ensures Add(Add(One, Exp(10 * e)), Exp(21 * e)) == Zero
  {
    hide Exp, Mul, Add;
    assert Add(Add(One, Exp(10)), Exp(21)) == Zero by { FirstTrinomial(); }
    SquaredTrinomial(10, 21);
    SquaredTrinomial(20, 42);
  }

  lemma FirstTrinomial()
    ensures Add(Add(One, Exp(10)), Exp(21)) == Zero
  {
    hide Exp, Of, Add;
    SmallPowerValues();
    OneIs();
    AddOf(1, 116, 117);
    AddZero(Exp(21));
  }

  lemma SquaredTrinomial(i: nat, j: nat)
    requires Add(Add(One, Exp(i)), Exp(j)) == Zero
    ensures Add(Add(One, Exp(2 * i)), Exp(2 * j)) == Zero
  {
    hide Exp, Mul, Add;
    SquareOfThree(One, Exp(i), Exp(j));
    MulZero(Zero);
    MulOneLeft(One);
    ExpAdd(i, i);
    ExpAdd(j, j);
  }

  lemma TrinomialKills(p: nat)
    requires p == 0 || p == 1 || p == 3
    ensures PowerSum([0, 10, 21], [Exp(0), Exp(10), Exp(21)], p) == Zero
  {
    hide Exp, Mul, Add, PowerSum;
    SumOfThree(0, 10, 21, Exp(0), Exp(10), Exp(21), p);
    ExpAdd(p * 0, 0);
    ExpAdd(p * 10, 10);
    ExpAdd(p * 21, 21);
    ExpStart();
    Trinomial(p + 1);
    assert p * 10 + 10 == 10 * (p + 1) && p * 21 + 21 == 21 * (p + 1) && p * 0 + 0 == 0;
  }

  /** Parity rows 0, 1, 3 and columns 0, 10, 21 are dependent. */
  lemma TrinomialPiece()
    ensures !Regular([0, 1, 3], [0, 10, 21])
  {
    hide Exp, PowerSum, Regular;
    var u := [Exp(0), Exp(10), Exp(21)];
    TrinomialKills(0);
    TrinomialKills(1);
    TrinomialKills(3);
    ExpNonzero(0);
    KillsThree(0, 1, 3, 0, 10, 21, u);
  }

  /** Three parity rows on which one combination of three columns vanishes. */
  lemma KillsThree(p: nat, q: nat, r: nat, a: nat, b: nat, c: nat, u: Vec)
    requires |u| == 3 && u[0] != Zero
    requires PowerSum([a, b, c], u, p) == Zero && PowerSum([a, b, c], u, q) == Zero && PowerSum([a, b, c], u, r) == Zero
    ensures !Regular([p, q, r], [a, b, c])
  {
    hide Exp, PowerSum, Regular;
    assert Kills([p, q, r], [a, b, c], u) && !AllZero(u);
    SingularMeans([p, q, r], [a, b, c]);
  }

  lemma TimesBinomial(s: nat, i: nat)
    ensures Mul(Exp(s), Add(One, Exp(i))) == Add(Exp(s), Exp(s + i))
  {
    hide Exp, Mul, Add;
    MulAddRight(Exp(s), One, Exp(i));
    MulComm(Exp(s), One);
    MulOneLeft(Exp(s));
    ExpAdd(s, i);
  }

  lemma SmallKills(p: nat)
    requires p == 0 || p == 1 || p == 4
    ensures PowerSum([0, 3, 5], [Add(Exp(3), Exp(5)), Add(One, Exp(5)), Add(One, Exp(3))], p) == Zero
  {
    hide Exp, Mul, Add, PowerSum;
    var x, y, z := Add(Exp(3), Exp(5)), Add(One, Exp(5)), Add(One, Exp(3));
    SumOfThree(0, 3, 5, x, y, z, p);
    ExpStart();
    assert p * 0 == 0;
    MulOneLeft(x);
    MulOneLeft(y);
    MulOneLeft(z);
    TimesBinomial(p * 3, 5);
    TimesBinomial(p * 5, 3);
    SmallPieceSums();
  }

  /** Parity rows 0, 1, 4 and columns 0, 3, 5 are dependent. */
  lemma SmallPiece()
    ensures !Regular([0, 1, 4], [0, 3, 5])
  {
    hide Exp, Add, PowerSum, Regular;
    SmallKills(0);
    SmallKills(1);
    SmallKills(4);
    SmallPieceSums();
    KillsThree(0, 1, 4, 0, 3, 5, [Add(Exp(3), Exp(5)), Add(One, Exp(5)), Add(One, Exp(3))]);
  }

  lemma SmallPieceSums()
    ensures Add(Exp(3), Exp(5)) != Zero
    ensures Add(Add(Add(Exp(3), Exp(5)), Add(One, Exp(5))), Add(One, Exp(3))) == Zero
    ensures Add(Add(Add(Exp(3), Exp(5)), Add(Exp(3), Exp(8))), Add(Exp(5), Exp(8))) == Zero
    ensures Add(Add(Add(Exp(3), Exp(5)), Add(Exp(12), Exp(17))), Add(Exp(20), Exp(23))) == Zero
  {
    hide Exp, Of, Add;
    SmallPowerValues();
    AddOf(8, 32, 40);
    OfNumber(40);
    TwiceEach(Exp(3), Exp(5), One);
    TwiceEach(Exp(3), Exp(5), Exp(8));
    LastPieceSum();
  }

  lemma TwiceEach(x: Byte, y: Byte, z: Byte)
    ensures Add(Add(Add(x, y), Add(z, y)), Add(z, x)) == Zero
    ensures Add(Add(Add(x, y), Add(x, z)), Add(y, z)) == Zero
  {
  }

  lemma LastPieceSum()
    ensures Add(Add(Add(Exp(3), Exp(5)), Add(Exp(12), Exp(17))), Add(Exp(20), Exp(23))) == Zero
  {
    hide Exp, Of, Add;
    SmallPowerValues();
    AddOf(8, 32, 40);
    AddOf(205, 152, 85);
    AddOf(40, 85, 125);
    AddOf(180, 201, 125);
    AddOf(125, 125, 0);
    OfNumber(0);
  }

  /** Every other size has a dependent piece. */
  lemma UnsafePiece(k: nat, m: nat) returns (rows: seq<nat>, cols: seq<nat>)
    requires k >= 1 && m >= 1 && !Safe(k, m)
    ensures Piece(rows, cols, m, k) && !Regular(rows, cols)
  {
    hide Regular;
    if m >= 4 && k >= 22 {
      rows, cols := [0, 1, 3], [0, 10, 21];
      TrinomialPiece();
    } else if k >= 4 && m >= 22 {
      rows, cols := [0, 10, 21], [0, 1, 3];
      TrinomialPiece();
      Minors.Exchange(cols, rows);
    } else if m >= 5 && k >= 6 {
      rows, cols := [0, 1, 4], [0, 3, 5];
      SmallPiece();
    } else {
      rows, cols := [0, 3, 5], [0, 1, 4];
      SmallPiece();
      Minors.Exchange(cols, rows);
    }
  }
}
