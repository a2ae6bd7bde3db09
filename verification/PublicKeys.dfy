/** Point encodings of backend/privacy/ring_sig.js: square roots, parsePublicKey and pointKey. */
module PublicKeys {
  import opened NumberTheory
  import opened CurveArithmetic
  import opened Hex
  import opened Wrappers

  /** modPow(y2, (P + 1) / 4). */
  function Root(p: int, y2: int): int
    requires p > 0
  {
    Pow(y2, (p + 1) / 4) % p
  }

  /** The root of x^3 + b that the code computes, when it really is one. */
  function LiftX(c: Curve, x: int): Option<int>
    requires c.p > 0
  {
    var y2 := Mod(x * x * x + c.b, c.p);
    var y := Root(c.p, y2);
    if Mod(y * y, c.p) == y2 then Some(y) else None
  }

  /** An optional 0x is dropped. */
  function Strip(s: string): string {
    if |s| >= 2 && s[..2] == "0x" then s[2..] else s
  }

  function FixParity(c: Curve, y: int, odd: bool): int
    requires c.p > 0
  {
    if (y % 2 == 1) != odd then Mod(-y, c.p) else y
  }

  function Uncompressed(hex: string): Option<Point>
    requires |hex| == 130
  {
    var x, y := BigIntHex(hex[2..66]), BigIntHex(hex[66..]);
    if x.Some? && y.Some? then Some(Affine(x.value, y.value)) else None
  }

  function Compressed(c: Curve, hex: string): Option<Point>
    requires c.p > 0 && |hex| == 66
  {
    var x := BigIntHex(hex[2..]);
    if x.None? then None
    else
      var y := LiftX(c, x.value);
      if y.None? then None else Some(Affine(x.value, FixParity(c, y.value, hex[..2] == "03")))
  }

  function XOnly(c: Curve, hex: string): Option<Point>
    requires c.p > 0
  {
    var x := BigIntHex(hex);
    if x.None? then None
    else
      var y := LiftX(c, x.value);
      if y.None? then None else Some(Affine(x.value, y.value))
  }

  /** parsePublicKey; None is any of its exceptions. */
  function ParsePublicKey(c: Curve, pubKey: string): (r: Option<Point>)
    requires c.p > 0
    ensures r.Some? ==> r.value.Affine?
  {
    var hex := Strip(pubKey);
    if |hex| == 130 && hex[..2] == "04" then Uncompressed(hex)
    else if |hex| == 66 && (hex[..2] == "02" || hex[..2] == "03") then Compressed(c, hex)
    else if |hex| == 64 then XOnly(c, hex)
    else None
  }

  function PointKey(u: Point): string
    requires u.Affine? && u.x >= 0
  {
    (if u.y % 2 == 0 then "02" else "03") + PadStart(ToHex(u.x), 64)
  }

  function Limit(): int { Pow(16, 64) }

  // ---- square roots modulo p = 3 (mod 4) ----------------------------------

  lemma PowDouble(b: int, k: nat)
    ensures Pow(b, k) * Pow(b, k) == Pow(b, 2 * k)
  {
    PowAdd(b, k, k);
  }

  /** y^(p + 1) = y^2 by Fermat, so the (p + 1)/4-th power of a square is a root of it. */
  lemma PowSquared(y: int, p: int)
    requires Prime(p) && p % 4 == 3
    ensures Cong(Pow(y * y, (p + 1) / 4) * Pow(y * y, (p + 1) / 4), y * y, p)
  {
    var k := (p + 1) / 4;
    PowDouble(y * y, k);
    PowSquare(y, 2 * k);
    assert 2 * (2 * k) == p + 1;
    assert Pow(y, p + 1) == y * Pow(y, p) == y * (y * Pow(y, p - 1));
    MulAssoc(y, y, Pow(y, p - 1));
    CongRefl(y * y, p);
    if y % p == 0 {
      ZeroIsMod(y, p);
      ZeroMul(y, y, p);
      ZeroMul(y * y, Pow(y, p - 1), p);
      CongSym(y * y, 0, p);
      CongTrans(y * y * Pow(y, p - 1), 0, y * y, p);
    } else {
      Fermat(y, p);
      CongMul(y * y, y * y, Pow(y, p - 1), 1, p);
    }
  }

  lemma RootSquares(p: int, y: int, y2: int)
    requires Prime(p) && p % 4 == 3 && Cong(y2, y * y, p)
    ensures 0 <= Root(p, y2) < p && Cong(Root(p, y2) * Root(p, y2), y * y, p)
  {
    var k := (p + 1) / 4;
    var w, v := Pow(y2, k), Pow(y * y, k);
    CongPow(y2, y * y, k, p);
    CongMod(w, p);
    CongTrans(w % p, w, v, p);
    CongMul(w % p, v, w % p, v, p);
    PowSquared(y, p);
    CongTrans((w % p) * (w % p), v * v, y * y, p);
  }

  /** Numbers below p with equal squares are equal or opposite. */
  lemma EqualSquares(p: int, y: int, z: int)
    requires Prime(p) && 0 <= y < p && 0 <= z < p && Cong(z * z, y * y, p)
    ensures z == y || z == p - y
  {
    CongRefl(y * y, p);
    CongSub(z * z, y * y, y * y, y * y, p);
    DifferenceOfSquares(z, y);
    if z != y {
      NotMultiple(z - y, p);
      assert (z + y) * (z - y) == (z - y) * (z + y);
      ZeroCancel(z - y, z + y, p);
      ZeroIsMod(z + y, p);
      MultipleBelowTwice(z + y, p);
    }
  }

  lemma MultipleBelowTwice(t: int, p: int)
    requires p > 0 && 0 <= t < 2 * p && t % p == 0
    ensures t == 0 || t == p
  {
    if 0 < t < p {
      RemainderUnique(t, 0, t, p);
    } else if p < t {
      RemainderUnique(t, 1, t - p, p);
    }
  }

  lemma OnCurveSquare(c: Curve, u: Point)
    requires c.p > 0 && u.Affine? && OnCurve(c, u)
    ensures 0 <= u.x < c.p && 0 <= u.y < c.p
    ensures Cong(Mod(u.x * u.x * u.x + c.b, c.p), u.y * u.y, c.p)
  {
    var f, s := u.x * u.x * u.x + c.b, u.y * u.y;
    CongRefl(s, c.p);
    CongAdd(f - s, 0, s, s, c.p);
    ModIsEuclidean(f, c.p);
    CongMod(f, c.p);
    CongTrans(f % c.p, f, s, c.p);
  }

  /** Lifting the abscissa of a point of the curve finds its ordinate up to sign. */
  lemma LiftFinds(c: Curve, u: Point)
    requires Prime(c.p) && c.p % 4 == 3 && u.Affine? && OnCurve(c, u)
    ensures LiftX(c, u.x).Some? && 0 <= LiftX(c, u.x).value < c.p
    ensures LiftX(c, u.x).value == u.y || LiftX(c, u.x).value == c.p - u.y
  {
    assert c.p >= 2;
    hide OnCurve, Root, Prime;
    var y2 := Mod(u.x * u.x * u.x + c.b, c.p);
    OnCurveSquare(c, u);
    RootSquares(c.p, u.y, y2);
    var y := Root(c.p, y2);
    ModIsEuclidean(y * y, c.p);
    CongSym(y2, u.y * u.y, c.p);
    CongTrans(y * y, u.y * u.y, y2, c.p);
    CongIffMod(y * y, y2, c.p);
    ZeroMod(u.x * u.x * u.x + c.b, c.p);
    RemainderUnique(y2, 0, y2, c.p);
    EqualSquares(c.p, u.y, y);
  }

  /** Whatever LiftX finds is on the curve: the test in the try-and-increment loop is sound. */
  lemma LiftOnCurve(c: Curve, x: int)
    requires c.p > 0 && 0 <= x < c.p && LiftX(c, x).Some?
    ensures OnCurve(c, Affine(x, LiftX(c, x).value))
  {
    var y, f := LiftX(c, x).value, x * x * x + c.b;
    ModIsEuclidean(y * y, c.p);
    ModIsEuclidean(f, c.p);
    CongIffMod(f, y * y, c.p);
    CongRefl(y * y, c.p);
    CongSub(f, y * y, y * y, y * y, c.p);
  }

  /** Choosing the sign by parity is unambiguous, because p is odd. */
  lemma ParityChooses(c: Curve, y: int, z: int, odd: bool)
    requires c.p % 4 == 3 && 0 <= y < c.p && 0 <= z < c.p && (z == y || z == c.p - y)
    requires odd == (y % 2 == 1)
    ensures FixParity(c, z, odd) == y
  {
    hide Mod;
    OppositeParity(c.p, y);
    if z != y {
      Negated(z, c.p);
    }
  }

  lemma OppositeParity(p: int, y: int)
    requires p % 4 == 3
    ensures (p - y) % 2 == 1 <==> y % 2 == 0
  {
    var k := p / 4;
    assert p == 4 * k + 3;
    assert p - y == 2 * (2 * k + 1) + 1 - y;
  }

  lemma Negated(z: int, p: int)
    requires 0 < z < p
    ensures Mod(-z, p) == p - z
  {
    hide Mod;
    ModIsEuclidean(-z, p);
    assert -z == (-1) * p + (p - z);
    RemainderUnique(-z, -1, p - z, p);
  }

  // ---- encoding and decoding ----------------------------------------------

  lemma KeyText(u: Point)
    requires u.Affine? && 0 <= u.x < Limit()
    ensures |PointKey(u)| == 66 && Strip(PointKey(u)) == PointKey(u)
    ensures PointKey(u)[..2] == (if u.y % 2 == 0 then "02" else "03")
    ensures BigIntHex(PointKey(u)[2..]) == Some(u.x)
  {
    hide Pow, ToHex, ParseHex, PadStart, BigIntHex;
    var s := PadStart(ToHex(u.x), 64);
    PadLength(u.x, 64);
    PadRoundTrip(u.x, 64);
    BigIntOfDigits(s);
    assert PointKey(u)[2..] == s;
  }

  /** Decoding the key of a point of the curve gives the point back. */
  lemma ParsePointKey(c: Curve, u: Point)
    requires Prime(c.p) && c.p % 4 == 3 && c.p <= Limit() && u.Affine? && OnCurve(c, u)
    ensures u.x >= 0 && ParsePublicKey(c, PointKey(u)) == Some(u)
  {
    hide Prime, LiftX, PointKey, FixParity, BigIntHex, Limit, Zero;
    KeyText(u);
    LiftFinds(c, u);
    ParityChooses(c, u.y, LiftX(c, u.x).value, u.y % 2 == 1);
  }

  /** Equal keys mean equal abscissas and ordinates of equal parity. */
  lemma KeysEqual(u: Point, v: Point)
    requires u.Affine? && v.Affine? && 0 <= u.x < Limit() && 0 <= v.x < Limit() && PointKey(u) == PointKey(v)
    ensures u.x == v.x && u.y % 2 == v.y % 2
  {
    hide Limit, PointKey, BigIntHex;
    KeyText(u);
    KeyText(v);
  }

  lemma SameSign(p: int, y: int, w: int, z: int)
    requires p % 4 == 3 && y % 2 == w % 2 && (z == y || z == p - y) && (z == w || z == p - w)
    ensures y == w
  {
    OppositeParity(p, y);
    OppositeParity(p, w);
  }

  lemma SameParitySamePoint(c: Curve, u: Point, v: Point)
    requires Prime(c.p) && c.p % 4 == 3 && u.Affine? && v.Affine? && OnCurve(c, u) && OnCurve(c, v)
    requires u.x == v.x && u.y % 2 == v.y % 2
    ensures u == v
  {
    assert c.p >= 2;
    hide Prime, OnCurve, LiftX, Mod;
    OnCurveSquare(c, u);
    OnCurveSquare(c, v);
    LiftFinds(c, u);
    LiftFinds(c, v);
    SameSign(c.p, u.y, v.y, LiftX(c, u.x).value);
  }

  /** Keys with 64 hex digits stay below the limit. */
  lemma {:induction false} ParseBound(s: string)
    requires ParseHex(s).Some?
    ensures ParseHex(s).value < Pow(16, |s|)
  {
    if |s| == 1 {
      assert Pow(16, 1) == 16 * Pow(16, 0) == 16;
    } else {
      ParseBound(s[..|s| - 1]);
      assert Pow(16, |s|) == 16 * Pow(16, |s| - 1);
    }
  }

  lemma {:induction false} PowRises(b: int, d: nat, e: nat)
    requires b >= 1 && d <= e
    ensures 1 <= Pow(b, d) <= Pow(b, e)
  {
    if e > 0 {
      PowRises(b, if d < e then d else d - 1, e - 1);
      assert b * Pow(b, e - 1) >= 1 * Pow(b, e - 1);
      if d == e && d > 0 {
        assert Pow(b, d) == b * Pow(b, d - 1);
      }
    }
  }

  lemma BigIntBound(s: string)
    requires BigIntHex(s).Some?
    ensures BigIntHex(s).value < Pow(16, |s|)
  {
    hide ParseHex, TrimEnd;
    ParseBound(TrimEnd(s));
    PowRises(16, |TrimEnd(s)|, |s|);
  }

  lemma ParsedBelowLimit(c: Curve, pubKey: string)
    requires c.p > 0 && ParsePublicKey(c, pubKey).Some?
    ensures 0 <= ParsePublicKey(c, pubKey).value.x < Limit()
  {
    hide Pow, BigIntHex, LiftX, FixParity;
    var hex := Strip(pubKey);
    if |hex| == 130 && hex[..2] == "04" {
      BigIntBound(hex[2..66]);
    } else if |hex| == 66 && (hex[..2] == "02" || hex[..2] == "03") {
      BigIntBound(hex[2..]);
    } else {
      BigIntBound(hex);
    }
  }

  lemma NegatedOnCurve(c: Curve, x: int, y: int)
    requires c.p > 0 && OnCurve(c, Affine(x, y))
    ensures OnCurve(c, Affine(x, Mod(-y, c.p)))
  {
    hide Mod, Zero;
    var z, f := Mod(-y, c.p), x * x * x + c.b;
    ZeroMod(-y, c.p);
    NegatedSquare(y, z, c.p);
    ZeroAdd(f - y * y, y * y - z * z, c.p);
  }

  /** Compressed and x-only entries are lifted onto the curve, unless their abscissa is not reduced. */
  lemma LiftedOnCurve(c: Curve, pubKey: string)
    requires c.p > 0 && ParsePublicKey(c, pubKey).Some? && |Strip(pubKey)| != 130
    requires ParsePublicKey(c, pubKey).value.x < c.p
    ensures OnCurve(c, ParsePublicKey(c, pubKey).value)
  {
    hide BigIntHex, OnCurve, LiftX, Mod;
    var x := ParsePublicKey(c, pubKey).value.x;
    assert x >= 0 && LiftX(c, x).Some?;
    LiftOnCurve(c, x);
    NegatedOnCurve(c, x, LiftX(c, x).value);
  }

  /** Three forms are read, with or without 0x; a compressed one says whether the ordinate is odd, if that is not 0. */
  lemma KeyForms(c: Curve, key: string)
    requires c.p > 2 && c.p % 2 == 1 && ParsePublicKey(c, key).Some?
    ensures
      var hex := if |key| >= 2 && key[..2] == "0x" then key[2..] else key;
      || (|hex| == 130 && hex[..2] == "04") || |hex| == 64
      || (|hex| == 66 && (hex[..2] == "02" || hex[..2] == "03")
          && var y := ParsePublicKey(c, key).value.y; y == 0 || (y % 2 == 1 <==> hex[..2] == "03"))
  {
    hide BigIntHex, Pow, Mod;
    var hex := Strip(key);
    if |hex| == 66 && (hex[..2] == "02" || hex[..2] == "03") {
      var y := LiftX(c, BigIntHex(hex[2..]).value).value;
      RootBelow(c, BigIntHex(hex[2..]).value);
      if y > 0 {
        Negated(y, c.p);
      } else {
        ModIsEuclidean(0, c.p);
        RemainderUnique(0, 0, 0, c.p);
      }
    }
  }

  lemma RootBelow(c: Curve, x: int)
    requires c.p > 0 && LiftX(c, x).Some?
    ensures 0 <= LiftX(c, x).value < c.p
  {
  }

  /** The uncompressed form carries both coordinates, the abscissa first. */
  lemma ParseUncompressed(c: Curve, x: nat, y: nat)
    requires c.p > 0 && x < Limit() && y < Limit()
    ensures ParsePublicKey(c, "04" + PadStart(ToHex(x), 64) + PadStart(ToHex(y), 64)) == Some(Affine(x, y))
  {
    hide Pow, ToHex, ParseHex, PadStart, BigIntHex;
    var a, b := PadStart(ToHex(x), 64), PadStart(ToHex(y), 64);
    var text := "04" + a + b;
    PadLength(x, 64);
    PadLength(y, 64);
    PadRoundTrip(x, 64);
    PadRoundTrip(y, 64);
    BigIntOfDigits(a);
    BigIntOfDigits(b);
    assert text[..2] == "04" && text[2..66] == a && text[66..] == b;
    assert text[1] == '4';
    assert Strip(text) == text;
  }

  /** A 0x in front makes no difference. */
  lemma ParseStripped(c: Curve, key: string)
    requires c.p > 0 && Strip(key) == key
    ensures ParsePublicKey(c, "0x" + key) == ParsePublicKey(c, key)
  {
    hide Uncompressed, Compressed, XOnly;
    assert ("0x" + key)[..2] == "0x" && ("0x" + key)[2..] == key;
  }

  /** The x-only form of a point gives, of the two points over its abscissa, the one whose ordinate is a square. */
  lemma ParseXOnly(c: Curve, u: Point)
    requires Prime(c.p) && c.p % 4 == 3 && c.p <= Limit() && u.Affine? && OnCurve(c, u)
    ensures u.x >= 0 && ParsePublicKey(c, PadStart(ToHex(u.x), 64)).Some?
    ensures
      var w := ParsePublicKey(c, PadStart(ToHex(u.x), 64)).value;
      w.x == u.x && (w.y == u.y || w.y == c.p - u.y) && exists z :: Cong(z * z, w.y, c.p)
  {
    assert c.p >= 2;
    hide Pow, ToHex, ParseHex, PadStart, BigIntHex, Prime, LiftX, OnCurve;
    OnCurveSquare(c, u);
    var text := PadStart(ToHex(u.x), 64);
    PadLength(u.x, 64);
    PadRoundTrip(u.x, 64);
    BigIntOfDigits(text);
    LiftFinds(c, u);
    LiftIsSquare(c, u.x);
    assert Strip(text) == text by { NoPrefix(u.x); }
  }

  lemma NoPrefix(x: nat)
    ensures Strip(PadStart(ToHex(x), 64)) == PadStart(ToHex(x), 64)
  {
    hide ToHex, ParseHex;
    PadRoundTrip(x, 64);
    var text := PadStart(ToHex(x), 64);
    if |text| >= 2 {
      AllDigits(text, 1);
      assert DigitValue('x').None?;
      assert text[..2][1] == text[1] && "0x"[1] == 'x';
    }
  }

  /** Every character of a number in hexadecimal text is a digit. */
  lemma {:induction false} AllDigits(s: string, i: nat)
    requires ParseHex(s).Some? && i < |s|
    ensures DigitValue(s[i]).Some?
  {
    if i < |s| - 1 {
      AllDigits(s[..|s| - 1], i);
    }
  }

  /** The root that is computed is a square itself: of y, it is the (p + 1)/4-th power squared. */
  lemma LiftIsSquare(c: Curve, x: int)
    requires c.p > 0 && c.p % 4 == 3 && LiftX(c, x).Some?
    ensures exists z :: Cong(z * z, LiftX(c, x).value, c.p)
  {
    var y2 := Mod(x * x * x + c.b, c.p);
    var y, k := LiftX(c, x).value, (c.p + 1) / 4;
    ModIsEuclidean(y * y, c.p);
    CongMod(y * y, c.p);
    CongPow(y2, y * y, k, c.p);
    CongMod(Pow(y2, k), c.p);
    CongTrans(y, Pow(y2, k), Pow(y * y, k), c.p);
    PowMul(y, y, k);
    CongSym(y, Pow(y * y, k), c.p);
    assert Cong(Pow(y, k) * Pow(y, k), y, c.p);
  }

  /** An uncompressed key is taken without checking the curve equation: over y^2 = x^3 + 4 modulo 7
      this text decodes to (0, 0), off the curve, and yet has the key of the point (0, 2) on it. */
  function OffCurveKey(): string { "04" + Zeros(64) + Zeros(64) }

  lemma UncompressedUnchecked()
    ensures ParsePublicKey(SMALL, OffCurveKey()) == Some(Affine(0, 0)) && !OnCurve(SMALL, Affine(0, 0))
    ensures OnCurve(SMALL, Affine(0, 2)) && PointKey(Affine(0, 0)) == PointKey(Affine(0, 2))
  {
    hide ParseHex, PadStart, ToHex, BigIntHex;
    var text := OffCurveKey();
    assert text[2..66] == Zeros(63) + "0" && text[66..] == Zeros(63) + "0";
    assert text[..2] == "04" && Strip(text) == text;
    ParseZeros(63, "0");
    OneDigit('0');
    BigIntOfDigits(Zeros(63) + "0");
    ZeroIsMod(0 * 0 * 0 + 4 - 0 * 0, 7);
    ZeroIsMod(0 * 0 * 0 + 4 - 2 * 2, 7);
  }

  lemma OneDigit(d: char)
    requires '0' <= d <= '9'
    ensures ParseHex([d]) == Some(d as int - '0' as int)
  {
  }
}
