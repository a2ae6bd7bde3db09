/** Signing and verifying of backend/privacy/ring_sig.js: a chain of challenges around the ring that
    the signer closes with her private key. */
module RingSignatures {
  import opened NumberTheory
  import opened CurveArithmetic
  import opened Hex
  import opened PublicKeys
  import opened Wrappers

  /** The curve constants, keccak256 read as a number, and the hash to the curve. */
  datatype Service = Service(curve: Curve, keccak: string -> nat, hashToPoint: string -> Point)

  datatype Signature = Signature(messageHash: string, keyImage: string, c: seq<string>, r: seq<string>,
                                 pubKeys: seq<string>)

  /** What the links of one ring share. */
  datatype Ring = Ring(binding: string, points: seq<Point>, hps: seq<Point>, image: Point)

  // ---- text ---------------------------------------------------------------

  function BigToHex(svc: Service, b: int): string
    requires svc.curve.p > 0
  {
    "0x" + PadStart(ToHex(ModNat(b, svc.curve.p)), 64)
  }

  function ModNat(b: int, m: int): nat
    requires m > 0
  {
    ModIsEuclidean(b, m);
    Mod(b, m)
  }

  function HexToBig(h: string): Option<nat> { BigIntHex(Strip(h)) }

  function Digest(svc: Service, text: string): string { "0x" + PadStart(ToHex(svc.keccak(text)), 64) }

  function Join(parts: seq<string>): string {
    if parts == [] then ""
    else if |parts| == 1 then parts[0]
    else parts[0] + "," + Join(parts[1..])
  }

  function Binding(svc: Service, messageHash: string, pubKeys: seq<string>, keyImage: string): string {
    Digest(svc, messageHash + ":" + Join(pubKeys) + ":" + keyImage)
  }

  // ---- the ring -----------------------------------------------------------

  predicate AllParse(c: Curve, pubKeys: seq<string>)
    requires c.p > 0
  {
    forall i :: 0 <= i < |pubKeys| ==> ParsePublicKey(c, pubKeys[i]).Some?
  }

  function Points(c: Curve, pubKeys: seq<string>): (r: seq<Point>)
    requires c.p > 0 && AllParse(c, pubKeys)
    ensures |r| == |pubKeys| && forall i :: 0 <= i < |r| ==> r[i] == ParsePublicKey(c, pubKeys[i]).value
  {
    seq(|pubKeys|, i requires 0 <= i < |pubKeys| => ParsePublicKey(c, pubKeys[i]).value)
  }

  function KeyOf(u: Point): string
  {
    if u.Affine? && u.x >= 0 then PointKey(u) else ""
  }

  function HashPoints(svc: Service, points: seq<Point>): (r: seq<Point>)
    ensures |r| == |points| && forall i :: 0 <= i < |r| ==> r[i] == svc.hashToPoint(KeyOf(points[i]))
  {
    seq(|points|, i requires 0 <= i < |points| => svc.hashToPoint(KeyOf(points[i])))
  }

  function BuildRing(svc: Service, messageHash: string, pubKeys: seq<string>, keyImage: string): (r: Option<Ring>)
    requires svc.curve.p > 0
    ensures r.Some? ==> |r.value.points| == |pubKeys| && |r.value.hps| == |pubKeys|
  {
    if !AllParse(svc.curve, pubKeys) || ParsePublicKey(svc.curve, keyImage).None? then None
    else
      var points := Points(svc.curve, pubKeys);
      Some(Ring(Binding(svc, messageHash, pubKeys, keyImage), points, HashPoints(svc, points),
                ParsePublicKey(svc.curve, keyImage).value))
  }

  /** rr*G + cc*P_i, and rr*Hp(P_i) + cc*I. */
  function Left(svc: Service, ring: Ring, cc: int, rr: int, i: nat): Point
    requires svc.curve.p > 0 && svc.curve.n > 0 && i < |ring.points|
  {
    PointAdd(svc.curve, PointMul(svc.curve, rr, svc.curve.g), PointMul(svc.curve, cc, ring.points[i]))
  }

  function Right(svc: Service, ring: Ring, cc: int, rr: int, i: nat): Point
    requires svc.curve.p > 0 && svc.curve.n > 0 && i < |ring.hps|
  {
    PointAdd(svc.curve, PointMul(svc.curve, rr, ring.hps[i]), PointMul(svc.curve, cc, ring.image))
  }

  /** The hash of two points; a point at infinity has no key and throws. */
  function Challenge(svc: Service, binding: string, left: Point, right: Point): (r: Option<nat>)
    requires svc.curve.n > 0
    ensures r.Some? ==> r.value < svc.curve.n
  {
    if left == Infinity || right == Infinity then None
    else Some(svc.keccak(binding + ":" + KeyOf(left) + ":" + KeyOf(right)) % svc.curve.n)
  }

  function Link(svc: Service, ring: Ring, cc: int, rr: int, i: nat): (r: Option<nat>)
    requires svc.curve.p > 0 && svc.curve.n > 0 && i < |ring.points| == |ring.hps|
    ensures r.Some? ==> r.value < svc.curve.n
  {
    Challenge(svc, ring.binding, Left(svc, ring, cc, rr, i), Right(svc, ring, cc, rr, i))
  }

  // ---- positions around the ring ------------------------------------------

  /** (s + k) % n, for at most one turn. */
  function At(s: nat, n: nat, k: nat): (i: nat)
    requires s < n && k <= n
    ensures i < n
  {
    if s + k < n then s + k else s + k - n
  }

  /** How many links after the signer's successor position j is. */
  function Dist(s: nat, n: nat, j: nat): (k: nat)
    requires s < n && j < n
    ensures k < n && At(s, n, k + 1) == j
  {
    if j > s then j - s - 1 else j + n - s - 1
  }

  lemma AtIsMod(s: nat, n: nat, k: nat)
    requires s < n && k <= n
    ensures (s + k) % n == At(s, n, k)
  {
    if s + k < n {
      RemainderUnique(s + k, 0, s + k, n);
    } else {
      RemainderUnique(s + k, 1, s + k - n, n);
    }
  }

  // ---- signing ------------------------------------------------------------

  predicate Matches(svc: Service, pubKey: string, u: Point)
    requires svc.curve.p > 0
  {
    u.Affine? && ParsePublicKey(svc.curve, pubKey).Some? && KeyOf(ParsePublicKey(svc.curve, pubKey).value) == KeyOf(u)
  }

  ghost predicate NoneMatch(svc: Service, pubKeys: seq<string>, u: Point, lo: nat, hi: nat)
    requires svc.curve.p > 0 && hi <= |pubKeys|
  {
    forall i :: lo <= i < hi ==> !Matches(svc, pubKeys[i], u)
  }

  /** findIndex: the first matching position, or None. */
  function FirstMatch(svc: Service, pubKeys: seq<string>, u: Point, from: nat): (r: Option<nat>)
    requires svc.curve.p > 0 && from <= |pubKeys|
    ensures r.Some? ==> from <= r.value < |pubKeys| && Matches(svc, pubKeys[r.value], u)
    ensures NoneMatch(svc, pubKeys, u, from, if r.Some? then r.value else |pubKeys|)
    decreases |pubKeys| - from
  {
    hide Matches;
    if from == |pubKeys| then None
    else if Matches(svc, pubKeys[from], u) then Some(from)
    else FirstMatch(svc, pubKeys, u, from + 1)
  }

  function SignerPoint(svc: Service, privateKey: nat): Point
    requires svc.curve.p > 0 && svc.curve.n > 0
  {
    PointMul(svc.curve, privateKey, svc.curve.g)
  }

  function Image(svc: Service, privateKey: nat): Point
    requires svc.curve.p > 0 && svc.curve.n > 0
  {
    PointMul(svc.curve, privateKey, svc.hashToPoint(KeyOf(SignerPoint(svc, privateKey))))
  }

  /** The challenge k links after the signer's: c at position s + 1 + k. */
  function Chain(svc: Service, ring: Ring, s: nat, alpha: int, rs: seq<nat>, k: nat): (r: Option<nat>)
    requires svc.curve.p > 0 && svc.curve.n > 0 && s < |ring.points| == |ring.hps| == |rs| && k < |rs|
    ensures r.Some? ==> r.value < svc.curve.n
    decreases k
  {
    if k == 0 then Link(svc, ring, 0, alpha, s)
    else
      var c := Chain(svc, ring, s, alpha, rs, k - 1);
      var i := At(s, |rs|, k);
      if c.None? then None else Link(svc, ring, c.value, rs[i], i)
  }

  /** The challenges and responses of a signature, before they are written as text. */
  ghost predicate Closed(svc: Service, ring: Ring, s: nat, privateKey: nat, alpha: int, rs: seq<nat>,
                         c: seq<int>, r: seq<int>)
    requires svc.curve.p > 0 && svc.curve.n > 0 && s < |ring.points| == |ring.hps| == |rs|
  {
    && |c| == |r| == |rs|
    && (forall k {:trigger Chain(svc, ring, s, alpha, rs, k)} :: 0 <= k < |rs| ==>
          Chain(svc, ring, s, alpha, rs, k) == Some(c[At(s, |rs|, k + 1)]))
    && (forall j :: 0 <= j < |rs| && j != s ==> r[j] == rs[j])
    && r[s] == Mod(alpha - c[s] * (privateKey % svc.curve.n), svc.curve.n)
  }

  function Texts(svc: Service, values: seq<int>): (t: seq<string>)
    requires svc.curve.p > 0
    ensures |t| == |values| && forall i :: 0 <= i < |t| ==> t[i] == BigToHex(svc, values[i])
  {
    seq(|values|, i requires 0 <= i < |values| => BigToHex(svc, values[i]))
  }

  /** sig is what signing with these random scalars gives. */
  ghost predicate Produced(svc: Service, message: string, pubKeys: seq<string>, privateKey: nat,
                           alpha: int, rs: seq<nat>, sig: Signature)
    requires svc.curve.p > 0 && svc.curve.n > 0 && |rs| == |pubKeys|
  {
    var s := FirstMatch(svc, pubKeys, SignerPoint(svc, privateKey), 0);
    && s.Some? && Image(svc, privateKey).Affine?
    && sig.messageHash == Digest(svc, message) && sig.pubKeys == pubKeys
    && sig.keyImage == KeyOf(Image(svc, privateKey))
    && var ring := BuildRing(svc, sig.messageHash, pubKeys, sig.keyImage);
    && ring.Some?
    && exists c, r :: Closed(svc, ring.value, s.value, privateKey, alpha, rs, c, r)
                      && sig.c == Texts(svc, c) && sig.r == Texts(svc, r)
  }

  /** Signing goes through: a member matches, every key and the image decode, and no link of the
      chain meets the point at infinity. */
  ghost predicate Signable(svc: Service, message: string, pubKeys: seq<string>, privateKey: nat, alpha: int, rs: seq<nat>)
    requires svc.curve.p > 0 && svc.curve.n > 0 && |rs| == |pubKeys|
  {
    var s := FirstMatch(svc, pubKeys, SignerPoint(svc, privateKey), 0);
    && s.Some? && Image(svc, privateKey).Affine?
    && var ring := BuildRing(svc, Digest(svc, message), pubKeys, KeyOf(Image(svc, privateKey)));
    && ring.Some? && Chain(svc, ring.value, s.value, alpha, rs, |rs| - 1).Some?
  }

  lemma {:induction false} ChainPrefix(svc: Service, ring: Ring, s: nat, alpha: int, rs: seq<nat>, j: nat, k: nat)
    requires svc.curve.p > 0 && svc.curve.n > 0 && s < |ring.points| == |ring.hps| == |rs| && j <= k < |rs|
    requires Chain(svc, ring, s, alpha, rs, k).Some?
    ensures Chain(svc, ring, s, alpha, rs, j).Some?
    decreases k
  {
    hide Link;
    if j < k {
      ChainPrefix(svc, ring, s, alpha, rs, j, k - 1);
    }
  }

  lemma ChainStarts(svc: Service, ring: Ring, s: nat, alpha: int, rs: seq<nat>)
    requires svc.curve.p > 0 && svc.curve.n > 0 && s < |ring.points| == |ring.hps| == |rs|
    ensures Chain(svc, ring, s, alpha, rs, 0) == Link(svc, ring, 0, alpha, s)
  {
  }

  lemma ChainGoesOn(svc: Service, ring: Ring, s: nat, alpha: int, rs: seq<nat>, k: nat, c: int)
    requires svc.curve.p > 0 && svc.curve.n > 0 && s < |ring.points| == |ring.hps| == |rs| && 0 < k < |rs|
    requires Chain(svc, ring, s, alpha, rs, k - 1) == Some(c)
    ensures Chain(svc, ring, s, alpha, rs, k) == Link(svc, ring, c, rs[At(s, |rs|, k)], At(s, |rs|, k))
  {
  }

  /** signRingMessage. The random scalars are inputs: alpha, and rs[i] for every other member. */
  method SignRingMessage(svc: Service, message: string, pubKeys: seq<string>, privateKey: nat, alpha: nat, rs: seq<nat>)
    returns (result: Result<Signature>)
    requires svc.curve.p > 0 && svc.curve.n > 0 && |rs| == |pubKeys|
    ensures result.Ok? <==> Signable(svc, message, pubKeys, privateKey, alpha, rs)
    ensures result.Ok? ==> Produced(svc, message, pubKeys, privateKey, alpha, rs, result.value)
  {
    hide PointMul, ParsePublicKey, Chain, KeyOf, BuildRing, Digest, Closed;
    var signer := MultiplyPoint(svc.curve, privateKey, svc.curve.g);
    var found := FirstMatch(svc, pubKeys, signer, 0);
    if found.None? {
      return Error;
    }
    var image := MultiplyPoint(svc.curve, privateKey, svc.hashToPoint(KeyOf(signer)));
    if image == Infinity {
      return Error;
    }
    var built := BuildRing(svc, Digest(svc, message), pubKeys, KeyOf(image));
    if built.None? {
      return Error;
    }
    var ok, c, r := CloseChain(svc, built.value, found.value, privateKey, alpha, rs);
    if !ok {
      return Error;
    }
    result := Ok(Signature(Digest(svc, message), KeyOf(image), Texts(svc, c), Texts(svc, r), pubKeys));
  }

  /** The chain part of signRingMessage: from the signer's successor all the way round, then the
      signer's own response. */
  method CloseChain(svc: Service, ring: Ring, s: nat, privateKey: nat, alpha: nat, rs: seq<nat>)
    returns (ok: bool, cs: seq<int>, responses: seq<int>)
    requires svc.curve.p > 0 && svc.curve.n > 0 && s < |ring.points| == |ring.hps| == |rs|
    ensures ok <==> Chain(svc, ring, s, alpha, rs, |rs| - 1).Some?
    ensures ok ==> Closed(svc, ring, s, privateKey, alpha, rs, cs, responses)
  {
    hide Mod, Link, Chain;
    var n, order := |rs|, svc.curve.n;
    ModIsEuclidean(privateKey, order);
    var x := Mod(privateKey, order);
    var c, r := new int[n], new int[n];
    var first := Link(svc, ring, 0, alpha, s);
    ChainStarts(svc, ring, s, alpha, rs);
    if first.None? {
      if Chain(svc, ring, s, alpha, rs, n - 1).Some? {
        ChainPrefix(svc, ring, s, alpha, rs, 0, n - 1);
      }
      return false, [], [];
    }
    AtIsMod(s, n, 1);
    c[(s + 1) % n] := first.value;
    for step := 1 to n
      invariant forall k {:trigger Chain(svc, ring, s, alpha, rs, k)} :: 0 <= k < step ==>
        Chain(svc, ring, s, alpha, rs, k) == Some(c[At(s, n, k + 1)])
      invariant forall k :: 1 <= k < step ==> r[At(s, n, k)] == rs[At(s, n, k)]
    {
      AtIsMod(s, n, step);
      var i := (s + step) % n;
      r[i] := rs[i];
      assert Chain(svc, ring, s, alpha, rs, step - 1) == Some(c[i]);
      var next := Link(svc, ring, c[i], r[i], i);
      ChainGoesOn(svc, ring, s, alpha, rs, step, c[i]);
      if next.None? {
        if Chain(svc, ring, s, alpha, rs, n - 1).Some? {
          ChainPrefix(svc, ring, s, alpha, rs, step, n - 1);
        }
        return false, [], [];
      }
      AtNext(s, n, step);
      c[(i + 1) % n] := next.value;
    }
    assert Chain(svc, ring, s, alpha, rs, n - 1) == Some(c[At(s, n, n)]);
    r[s] := Mod(alpha - c[s] * x, order);
    forall j | 0 <= j < n && j != s ensures r[..][j] == rs[j] {
      assert At(s, n, Dist(s, n, j) + 1) == j;
    }
    ok, cs, responses := true, c[..], r[..];
  }

  lemma AtNext(s: nat, n: nat, k: nat)
    requires s < n && k < n
    ensures (At(s, n, k) + 1) % n == At(s, n, k + 1)
  {
    AtIsMod(At(s, n, k), n, 1);
  }

  // ---- verifying ----------------------------------------------------------

  function Next(n: nat, i: nat): nat
    requires i < n
  {
    if i + 1 < n then i + 1 else 0
  }

  predicate AllHex(texts: seq<string>) { forall i :: 0 <= i < |texts| ==> HexToBig(texts[i]).Some? }

  function Numbers(texts: seq<string>): (r: seq<nat>)
    requires AllHex(texts)
    ensures |r| == |texts| && forall i :: 0 <= i < |r| ==> r[i] == HexToBig(texts[i]).value
  {
    seq(|texts|, i requires 0 <= i < |texts| => HexToBig(texts[i]).value)
  }

  /** Every challenge is the link computed from its predecessor, all the way round. */
  ghost predicate ChainCloses(svc: Service, ring: Ring, c: seq<nat>, r: seq<nat>)
    requires svc.curve.p > 0 && svc.curve.n > 0 && |c| == |r| == |ring.points| == |ring.hps|
  {
    forall i {:trigger c[i]} :: 0 <= i < |c| ==> Link(svc, ring, c[i], r[i], i) == Some(c[Next(|c|, i)])
  }

  ghost predicate Accepts(svc: Service, message: string, pubKeys: seq<string>, sig: Signature)
    requires svc.curve.p > 0 && svc.curve.n > 0
  {
    && |sig.c| == |pubKeys| == |sig.r|
    && sig.messageHash == Digest(svc, message) && sig.pubKeys == pubKeys
    && AllHex(sig.c) && AllHex(sig.r)
    && var ring := BuildRing(svc, sig.messageHash, pubKeys, sig.keyImage);
    && ring.Some? && ChainCloses(svc, ring.value, Numbers(sig.c), Numbers(sig.r))
  }

  /** verifyRingSignature. Whatever throws inside is answered with false. */
  method VerifyRingSignature(svc: Service, message: string, pubKeys: seq<string>, sig: Signature) returns (ok: bool)
    requires svc.curve.p > 0 && svc.curve.n > 0
    ensures ok <==> Accepts(svc, message, pubKeys, sig)
  {
    hide PointMul, Mod, ParsePublicKey, Link, KeyOf, BuildRing, Digest, HexToBig, ChainCloses;
    var n := |pubKeys|;
    if |sig.c| != n || |sig.r| != n { return false; }
    if sig.messageHash != Digest(svc, message) { return false; }
    if |sig.pubKeys| != n { return false; }
    for i := 0 to n
      invariant sig.pubKeys[..i] == pubKeys[..i]
    {
      if sig.pubKeys[i] != pubKeys[i] { return false; }
    }
    assert sig.pubKeys[..n] == sig.pubKeys && pubKeys[..n] == pubKeys;
    var built := BuildRing(svc, Digest(svc, message), pubKeys, sig.keyImage);
    if built.None? || !AllHex(sig.c) || !AllHex(sig.r) { return false; }
    ok := WalkChain(svc, built.value, Numbers(sig.c), Numbers(sig.r));
  }

  /** The walk from c[0] all the way round. In an empty ring there is nothing to compare. */
  method WalkChain(svc: Service, ring: Ring, c: seq<nat>, r: seq<nat>) returns (ok: bool)
    requires svc.curve.p > 0 && svc.curve.n > 0 && |c| == |r| == |ring.points| == |ring.hps|
    ensures ok <==> ChainCloses(svc, ring, c, r)
  {
    hide Link, ChainCloses;
    if |c| == 0 {
      NothingToClose(svc, ring, c, r);
      return true;
    }
    var current := c[0];
    for i := 0 to |c|
      invariant i == 0 ==> current == c[0]
      invariant i > 0 ==> Link(svc, ring, c[i - 1], r[i - 1], i - 1) == Some(current)
      invariant forall k {:trigger c[k]} :: 0 <= k < i - 1 ==> Link(svc, ring, c[k], r[k], k) == Some(c[Next(|c|, k)])
    {
      if c[i] != current {
        LinkFails(svc, ring, c, r, i - 1);
        return false;
      }
      var next := Link(svc, ring, c[i], r[i], i);
      if next.None? {
        LinkFails(svc, ring, c, r, i);
        return false;
      }
      current := next.value;
    }
    ok := current == c[0];
    if ok {
      LinksClose(svc, ring, c, r);
    } else {
      LinkFails(svc, ring, c, r, |c| - 1);
    }
  }

  lemma NothingToClose(svc: Service, ring: Ring, c: seq<nat>, r: seq<nat>)
    requires svc.curve.p > 0 && svc.curve.n > 0 && |c| == |r| == |ring.points| == |ring.hps| == 0
    ensures ChainCloses(svc, ring, c, r)
  {
  }

  lemma LinkFails(svc: Service, ring: Ring, c: seq<nat>, r: seq<nat>, i: nat)
    requires svc.curve.p > 0 && svc.curve.n > 0 && i < |c| == |r| == |ring.points| == |ring.hps|
    requires Link(svc, ring, c[i], r[i], i) != Some(c[Next(|c|, i)])
    ensures !ChainCloses(svc, ring, c, r)
  {
    hide Link;
    assert c[i] == c[i];
  }

  lemma LinksClose(svc: Service, ring: Ring, c: seq<nat>, r: seq<nat>)
    requires svc.curve.p > 0 && svc.curve.n > 0 && |c| == |r| == |ring.points| == |ring.hps| > 0
    requires forall k {:trigger c[k]} :: 0 <= k < |c| - 1 ==> Link(svc, ring, c[k], r[k], k) == Some(c[Next(|c|, k)])
    requires Link(svc, ring, c[|c| - 1], r[|c| - 1], |c| - 1) == Some(c[0])
    ensures ChainCloses(svc, ring, c, r)
  {
    hide Link;
  }

  // ---- what is signed verifies --------------------------------------------

  /** The constants are as documented, and the hash to the curve lands on the curve. */
  ghost predicate Sound(svc: Service) {
    && Known(svc.curve) && svc.curve.n <= svc.curve.p <= Limit()
    && (forall t :: svc.hashToPoint(t).Affine? && OnCurve(svc.curve, svc.hashToPoint(t)))
  }

  /** The signer's entry in the ring decodes to a point of the curve. */
  ghost predicate SignerOnCurve(svc: Service, pubKeys: seq<string>, privateKey: nat)
    requires svc.curve.p > 0 && svc.curve.n > 0
  {
    var s := FirstMatch(svc, pubKeys, SignerPoint(svc, privateKey), 0);
    s.Some? && OnCurve(svc.curve, ParsePublicKey(svc.curve, pubKeys[s.value]).value)
  }

  /** These assumptions can be met together, whatever the digest. */
  lemma SoundIsPossible(keccak: string -> nat)
    ensures Sound(Service(SMALL, keccak, _ => Affine(0, 2)))
  {
    hide Known, OnCurve;
    KnownIsPossible();
    SmallBase();
    assert Limit() >= 7 by { PowGrows(16, 64); }
  }

  lemma {:induction false} PowGrows(b: int, e: nat)
    requires b >= 1
    ensures Pow(b, e) >= 1 && (e >= 1 ==> Pow(b, e) >= b)
  {
    if e > 0 {
      PowGrows(b, e - 1);
      assert b * Pow(b, e - 1) >= b * 1;
    }
  }

  lemma SoundBounds(svc: Service)
    requires Sound(svc)
    ensures svc.curve.p > 3 && svc.curve.n > 1 && Prime(svc.curve.p) && svc.curve.p % 4 == 3
    ensures svc.curve.n <= svc.curve.p <= Limit() && OnCurve(svc.curve, svc.curve.g)
  {
  }

  /** A number below the field size survives being written and read. */
  lemma TextRoundTrip(svc: Service, v: int)
    requires svc.curve.p > 0 && 0 <= v < svc.curve.p
    ensures HexToBig(BigToHex(svc, v)) == Some(v)
  {
    hide ParseHex, ToHex, PadStart, BigIntHex;
    ModIsEuclidean(v, svc.curve.p);
    RemainderUnique(v, 0, v, svc.curve.p);
    PadRoundTrip(v, 64);
    var body := PadStart(ToHex(v), 64);
    BigIntOfDigits(body);
    assert ("0x" + body)[2..] == body;
  }

  /** It is written as 0x and 64 digits, leading zeros included. */
  lemma TextForm(svc: Service, v: int)
    requires 0 <= v < svc.curve.p && svc.curve.p <= Limit()
    ensures |BigToHex(svc, v)| == 66 && BigToHex(svc, v)[..2] == "0x" && ParseHex(BigToHex(svc, v)[2..]) == Some(v)
  {
    hide ParseHex, ToHex, PadStart;
    ModIsEuclidean(v, svc.curve.p);
    RemainderUnique(v, 0, v, svc.curve.p);
    PadRoundTrip(v, 64);
    PadLength(v, 64);
    assert ("0x" + PadStart(ToHex(v), 64))[2..] == PadStart(ToHex(v), 64);
  }

  lemma PointMulOnCurve(c: Curve, k: int, u: Point)
    requires Known(c) && OnCurve(c, u)
    ensures OnCurve(c, PointMul(c, k, u))
  {
    hide Known, OnCurve, PointMul, Times;
    KnownBounds(c);
    PointMulIsTimes(c, k, u);
    TimesOnCurve(c, k % c.n, u);
  }

  lemma PointMulMod(c: Curve, k: int, u: Point)
    requires c.p > 0 && c.n > 0
    ensures PointMul(c, k, u) == PointMul(c, k % c.n, u)
  {
    RemainderUnique(k % c.n, 0, k % c.n, c.n);
  }

  lemma PointMulZero(c: Curve, u: Point)
    requires c.p > 0 && c.n > 0
    ensures PointMul(c, 0, u) == Infinity
  {
    RemainderUnique(0, 0, 0, c.n);
  }

  /** The signer's member is the signer's point. */
  lemma SignerIsMember(svc: Service, pubKeys: seq<string>, privateKey: nat)
    requires Sound(svc) && SignerOnCurve(svc, pubKeys, privateKey)
    ensures
      var s := FirstMatch(svc, pubKeys, SignerPoint(svc, privateKey), 0);
      s.Some? && ParsePublicKey(svc.curve, pubKeys[s.value]) == Some(SignerPoint(svc, privateKey))
  {
    hide PointMul, Known, OnCurve, PointKey, ParsePublicKey, Limit;
    SoundBounds(svc);
    var u := SignerPoint(svc, privateKey);
    var s := FirstMatch(svc, pubKeys, u, 0).value;
    var member := ParsePublicKey(svc.curve, pubKeys[s]).value;
    PointMulOnCurve(svc.curve, privateKey, svc.curve.g);
    OnCurveSquare(svc.curve, u);
    ParsedBelowLimit(svc.curve, pubKeys[s]);
    KeysEqual(member, u);
    SameParitySamePoint(svc.curve, member, u);
  }

  /** The image's text decodes to the image. */
  lemma ImageDecodes(svc: Service, privateKey: nat)
    requires Sound(svc) && Image(svc, privateKey).Affine?
    ensures ParsePublicKey(svc.curve, KeyOf(Image(svc, privateKey))) == Some(Image(svc, privateKey))
  {
    hide PointMul, Known, OnCurve, PointKey, ParsePublicKey, Limit;
    SoundBounds(svc);
    var h := svc.hashToPoint(KeyOf(SignerPoint(svc, privateKey)));
    PointMulOnCurve(svc.curve, privateKey, h);
    ParsePointKey(svc.curve, Image(svc, privateKey));
  }

  /** With the closing response the right half at the signer is the one she started from, whatever her entry. */
  lemma SignerRight(svc: Service, ring: Ring, s: nat, privateKey: nat, alpha: int, cs: int)
    requires Sound(svc) && s < |ring.points| == |ring.hps|
    requires ring.hps[s] == svc.hashToPoint(KeyOf(SignerPoint(svc, privateKey))) && ring.image == Image(svc, privateKey)
    ensures svc.curve.n > 0 && svc.curve.p > 0
    ensures Right(svc, ring, cs, Mod(alpha - cs * (privateKey % svc.curve.n), svc.curve.n), s) == Right(svc, ring, 0, alpha, s)
  {
    hide PointMul, Known, OnCurve, PointAdd, Mod, KeyOf;
    SoundBounds(svc);
    var c, x := svc.curve, privateKey % svc.curve.n;
    ModIsEuclidean(alpha - cs * x, c.n);
    PointMulMod(c, privateKey, ring.hps[s]);
    ResponseCancels(c, alpha, cs, x, ring.hps[s]);
    PointMulZero(c, ring.image);
    AddInfinity(c, PointMul(c, alpha, ring.hps[s]));
  }

  /** So is the left half, when her entry is her point. */
  lemma SignerLeft(svc: Service, ring: Ring, s: nat, privateKey: nat, alpha: int, cs: int)
    requires Sound(svc) && s < |ring.points| == |ring.hps| && ring.points[s] == SignerPoint(svc, privateKey)
    ensures svc.curve.n > 0 && svc.curve.p > 0
    ensures Left(svc, ring, cs, Mod(alpha - cs * (privateKey % svc.curve.n), svc.curve.n), s) == Left(svc, ring, 0, alpha, s)
  {
    hide PointMul, Known, OnCurve, PointAdd, Mod, KeyOf;
    SoundBounds(svc);
    var c, x := svc.curve, privateKey % svc.curve.n;
    ModIsEuclidean(alpha - cs * x, c.n);
    PointMulMod(c, privateKey, c.g);
    ResponseCancels(c, alpha, cs, x, c.g);
    PointMulZero(c, ring.points[s]);
    AddInfinity(c, PointMul(c, alpha, c.g));
  }

  /** Of the verifier's equations only the one at the signer is not part of the construction. */
  lemma ClosedVerifiesIff(svc: Service, ring: Ring, s: nat, privateKey: nat, alpha: int, rs: seq<nat>, c: seq<nat>, r: seq<nat>)
    requires svc.curve.p > 0 && svc.curve.n > 0 && s < |ring.points| == |ring.hps| == |rs|
    requires Closed(svc, ring, s, privateKey, alpha, rs, c, r)
    ensures ChainCloses(svc, ring, c, r) <==> Link(svc, ring, c[s], r[s], s) == Link(svc, ring, 0, alpha, s)
  {
    hide Link, Mod;
    var n := |rs|;
    assert Chain(svc, ring, s, alpha, rs, 0) == Some(c[At(s, n, 1)]);
    assert c[At(s, n, 1)] == c[Next(n, s)];
    forall j {:trigger c[j]} | 0 <= j < n && j != s ensures Link(svc, ring, c[j], r[j], j) == Some(c[Next(n, j)]) {
      var k := Dist(s, n, j);
      assert Chain(svc, ring, s, alpha, rs, k) == Some(c[At(s, n, k + 1)]);
      assert Chain(svc, ring, s, alpha, rs, k + 1) == Some(c[At(s, n, k + 2)]);
    }
  }

  /** Challenges and responses are reduced modulo the order. */
  lemma ClosedRange(svc: Service, ring: Ring, s: nat, privateKey: nat, alpha: int, rs: seq<nat>, c: seq<int>, r: seq<int>, j: nat)
    requires svc.curve.p > 0 && svc.curve.n > 0 && s < |ring.points| == |ring.hps| == |rs| && j < |rs|
    requires Closed(svc, ring, s, privateKey, alpha, rs, c, r) && forall i :: 0 <= i < |rs| ==> rs[i] < svc.curve.n
    ensures 0 <= c[j] < svc.curve.n && 0 <= r[j] < svc.curve.n
  {
    hide Link, Mod;
    var k := Dist(s, |rs|, j);
    assert Chain(svc, ring, s, alpha, rs, k) == Some(c[At(s, |rs|, k + 1)]);
    ZeroMod(alpha - c[s] * (privateKey % svc.curve.n), svc.curve.n);
  }

  lemma NumbersOfTexts(svc: Service, values: seq<int>)
    requires svc.curve.p > 0 && forall i :: 0 <= i < |values| ==> 0 <= values[i] < svc.curve.p
    ensures AllHex(Texts(svc, values)) && Numbers(Texts(svc, values)) == values
  {
    hide HexToBig, BigToHex;
    var t := Texts(svc, values);
    forall i | 0 <= i < |t| ensures HexToBig(t[i]) == Some(values[i]) {
      TextRoundTrip(svc, values[i]);
    }
  }

  /** The ring of a signature and the numbers it carries at the signer's place. */
  ghost predicate CarriedAt(svc: Service, pubKeys: seq<string>, privateKey: nat, sig: Signature, ring: Ring, s: nat,
                            cc: nat, rr: nat)
    requires svc.curve.p > 0 && svc.curve.n > 0
  {
    && FirstMatch(svc, pubKeys, SignerPoint(svc, privateKey), 0) == Some(s)
    && BuildRing(svc, sig.messageHash, pubKeys, sig.keyImage) == Some(ring)
    && s < |sig.c| && s < |sig.r| && HexToBig(sig.c[s]) == Some(cc) && HexToBig(sig.r[s]) == Some(rr)
  }

  /** When a fresh signature is accepted, for every ring size, signer position, message and choice of random
      scalars: if and only if rr*G + cc*E, with E the point that the signer's entry decodes to, gives the
      same challenge as alpha*G. */
  lemma AcceptedIff(svc: Service, message: string, pubKeys: seq<string>, privateKey: nat, alpha: nat,
                    rs: seq<nat>, sig: Signature) returns (ring: Ring, s: nat, cc: nat, rr: nat)
    requires Sound(svc) && svc.curve.p > 0 && svc.curve.n > 0 && |rs| == |pubKeys|
    requires forall i :: 0 <= i < |rs| ==> rs[i] < svc.curve.n
    requires Produced(svc, message, pubKeys, privateKey, alpha, rs, sig)
    ensures CarriedAt(svc, pubKeys, privateKey, sig, ring, s, cc, rr)
    ensures rr == Mod(alpha - cc * (privateKey % svc.curve.n), svc.curve.n)
    ensures
      var right := PointMul(svc.curve, alpha, svc.hashToPoint(KeyOf(SignerPoint(svc, privateKey))));
      Accepts(svc, message, pubKeys, sig) <==>
        Challenge(svc, ring.binding, Left(svc, ring, cc, rr, s), right)
        == Challenge(svc, ring.binding, PointMul(svc.curve, alpha, svc.curve.g), right)
  {
    hide Sound, Closed, ChainCloses, OnCurve, PointMul, PointAdd, Digest, KeyOf, ParsePublicKey, HexToBig, BigToHex, Limit, Challenge, Mod;
    SoundBounds(svc);
    s := FirstMatch(svc, pubKeys, SignerPoint(svc, privateKey), 0).value;
    ring := BuildRing(svc, sig.messageHash, pubKeys, sig.keyImage).value;
    var c, r :| Closed(svc, ring, s, privateKey, alpha, rs, c, r) && sig.c == Texts(svc, c) && sig.r == Texts(svc, r);
    ClosedLengths(svc, ring, s, privateKey, alpha, rs, c, r);
    forall j | 0 <= j < |rs| ensures 0 <= c[j] < svc.curve.p && 0 <= r[j] < svc.curve.p {
      ClosedRange(svc, ring, s, privateKey, alpha, rs, c, r, j);
    }
    NumbersOfTexts(svc, c);
    NumbersOfTexts(svc, r);
    cc, rr := Numbers(sig.c)[s], Numbers(sig.r)[s];
    assert cc == c[s] && rr == r[s];
    ImageDecodes(svc, privateKey);
    ClosedVerifiesIff(svc, ring, s, privateKey, alpha, rs, c, r);
    SignerRight(svc, ring, s, privateKey, alpha, cc);
    PointMulZero(svc.curve, ring.image);
    PointMulZero(svc.curve, ring.points[s]);
    AddInfinity(svc.curve, PointMul(svc.curve, alpha, ring.hps[s]));
    AddInfinity(svc.curve, PointMul(svc.curve, alpha, svc.curve.g));
  }

  /** A matching entry that is not uncompressed is on the curve. */
  lemma LiftedSigner(svc: Service, pubKeys: seq<string>, privateKey: nat)
    requires Sound(svc) && svc.curve.p > 0 && svc.curve.n > 0
    ensures
      var s := FirstMatch(svc, pubKeys, SignerPoint(svc, privateKey), 0);
      s.Some? && |Strip(pubKeys[s.value])| != 130 ==> SignerOnCurve(svc, pubKeys, privateKey)
  {
    hide PointMul, Known, OnCurve, PointKey, ParsePublicKey, Limit;
    SoundBounds(svc);
    var u := SignerPoint(svc, privateKey);
    var s := FirstMatch(svc, pubKeys, u, 0);
    if s.Some? && |Strip(pubKeys[s.value])| != 130 {
      var member := ParsePublicKey(svc.curve, pubKeys[s.value]).value;
      PointMulOnCurve(svc.curve, privateKey, svc.curve.g);
      OnCurveSquare(svc.curve, u);
      ParsedBelowLimit(svc.curve, pubKeys[s.value]);
      KeysEqual(member, u);
      LiftedOnCurve(svc.curve, pubKeys[s.value]);
    }
  }

  /** Every signature that signing produces is accepted, unless the signer's entry is uncompressed and off
      the curve. */
  lemma SignedIsAccepted(svc: Service, message: string, pubKeys: seq<string>, privateKey: nat, alpha: nat,
                         rs: seq<nat>, sig: Signature)
    requires Sound(svc) && svc.curve.p > 0 && svc.curve.n > 0 && |rs| == |pubKeys|
    requires forall i :: 0 <= i < |rs| ==> rs[i] < svc.curve.n
    requires Produced(svc, message, pubKeys, privateKey, alpha, rs, sig)
    requires
      var s := FirstMatch(svc, pubKeys, SignerPoint(svc, privateKey), 0).value;
      |Strip(pubKeys[s])| == 130 ==> OnCurve(svc.curve, ParsePublicKey(svc.curve, pubKeys[s]).value)
    ensures Accepts(svc, message, pubKeys, sig)
  {
    hide Sound, Accepts, OnCurve, PointMul, PointAdd, Digest, KeyOf, ParsePublicKey, HexToBig, Challenge, Mod, Strip, SignerPoint;
    SoundBounds(svc);
    LiftedSigner(svc, pubKeys, privateKey);
    SignerIsMember(svc, pubKeys, privateKey);
    var ring, s, cc, rr := AcceptedIff(svc, message, pubKeys, privateKey, alpha, rs, sig);
    SignerLeft(svc, ring, s, privateKey, alpha, cc);
    PointMulZero(svc.curve, ring.points[s]);
    AddInfinity(svc.curve, PointMul(svc.curve, alpha, svc.curve.g));
  }

  lemma ClosedLengths(svc: Service, ring: Ring, s: nat, privateKey: nat, alpha: int, rs: seq<nat>, c: seq<int>, r: seq<int>)
    requires svc.curve.p > 0 && svc.curve.n > 0 && s < |ring.points| == |ring.hps| == |rs|
    requires Closed(svc, ring, s, privateKey, alpha, rs, c, r)
    ensures |c| == |r| == |rs| && r[s] == Mod(alpha - c[s] * (privateKey % svc.curve.n), svc.curve.n)
  {
  }

  /** The public key determines the private key modulo the order, so one member has one key image, in
      whatever form the private key is held and whatever is signed in whatever ring. */
  lemma SameMemberSameImage(svc: Service, m1: string, m2: string, ring1: seq<string>, ring2: seq<string>, key1: nat, key2: nat,
                            a1: nat, a2: nat, rs1: seq<nat>, rs2: seq<nat>, sig1: Signature, sig2: Signature)
    requires Sound(svc) && Prime(svc.curve.n) && svc.curve.p > 0 && svc.curve.n > 0 && |rs1| == |ring1| && |rs2| == |ring2|
    requires Produced(svc, m1, ring1, key1, a1, rs1, sig1) && Produced(svc, m2, ring2, key2, a2, rs2, sig2)
    ensures key1 % svc.curve.n == key2 % svc.curve.n <==> SignerPoint(svc, key1) == SignerPoint(svc, key2)
    ensures SignerPoint(svc, key1) == SignerPoint(svc, key2) ==> sig1.keyImage == sig2.keyImage
  {
    hide PointMul, Known, OnCurve, KeyOf, Closed, BuildRing, Prime, Limit;
    SoundBounds(svc);
    var c := svc.curve;
    KnownBounds(c);
    PointMulMod(c, key1, c.g);
    PointMulMod(c, key2, c.g);
    if SignerPoint(svc, key1) == SignerPoint(svc, key2) {
      PointMulIsTimes(c, key1, c.g);
      PointMulIsTimes(c, key2, c.g);
      TimesInjective(c, key1 % c.n, key2 % c.n, c.g);
      RemainderUnique(key1 % c.n, 0, key1 % c.n, c.n);
      RemainderUnique(key2 % c.n, 0, key2 % c.n, c.n);
      var h := svc.hashToPoint(KeyOf(SignerPoint(svc, key1)));
      PointMulMod(c, key1, h);
      PointMulMod(c, key2, h);
    }
  }

  /** In an empty ring there is no link to compare. */
  lemma EmptyRingAccepted(svc: Service, message: string, sig: Signature)
    requires svc.curve.p > 0 && svc.curve.n > 0
    ensures Accepts(svc, message, [], sig) <==>
      && sig.c == [] && sig.r == [] && sig.pubKeys == [] && sig.messageHash == Digest(svc, message)
      && ParsePublicKey(svc.curve, sig.keyImage).Some?
  {
    hide ParsePublicKey, Digest, Link;
  }

  // ---- a signature that is not accepted -----------------------------------

  /** A digest that tells the keys of (0, 2) and (0, 5) apart at the place where a link's text has them. */
  function Telling(text: string): nat { if |text| > 68 && text[68] == '2' then 2 else 0 }

  function SmallService(): Service { Service(SMALL, Telling, _ => Affine(0, 2)) }

  lemma TellingDigest(text: string)
    ensures |Digest(SmallService(), text)| == 66
  {
    hide ToHex, PadStart;
    PowGrows(16, 64);
    PadLength(Telling(text), 64);
  }

  lemma TellingLink(binding: string, u: Point, v: Point)
    requires |binding| == 66 && u.Affine? && v.Affine? && u.x == 0
    ensures Challenge(SmallService(), binding, u, v) == Some(if u.y % 2 == 0 then 2 else 0)
  {
    hide PadStart, ToHex;
    var text := binding + ":" + KeyOf(u) + ":" + KeyOf(v);
    assert text[68] == KeyOf(u)[1];
  }

  lemma SmallMultiples()
    ensures PointMul(SMALL, 1, Affine(0, 2)) == Affine(0, 2) && PointMul(SMALL, 2, Affine(0, 2)) == Affine(0, 5)
    ensures PointMul(SMALL, 2, Affine(0, 0)) == Infinity
  {
    hide PointAdd;
    SmallSums();
    SmallVanishes();
    AddInfinity(SMALL, Affine(0, 2));
    AddInfinity(SMALL, Affine(0, 5));
    AddInfinity(SMALL, Infinity);
  }

  lemma SmallVanishes()
    ensures PointAdd(SMALL, Affine(0, 0), Affine(0, 0)) == Infinity
  {
    hide Slope, Third;
  }

  /** The member with the private key 1 and the off-curve entry signs, and verification says no. */
  lemma OffCurveRejected(message: string) returns (sig: Signature)
    ensures Sound(SmallService())
    ensures Produced(SmallService(), message, [OffCurveKey()], 1, 1, [0], sig)
    ensures !Accepts(SmallService(), message, [OffCurveKey()], sig)
  {
    hide Sound, PointMul, PointAdd, ParsePublicKey, Digest, PointKey, Accepts, HexToBig, Mod, Telling, Texts, Challenge, OffCurveKey;
    var svc := SmallService();
    SoundIsPossible(Telling);
    SoundBounds(svc);
    UncompressedUnchecked();
    SmallMultiples();
    ImageDecodes(svc, 1);
    var u := Affine(0, 2);
    var text := Digest(svc, message);
    var binding := Binding(svc, text, [OffCurveKey()], KeyOf(u));
    TellingDigest(text + ":" + Join([OffCurveKey()]) + ":" + KeyOf(u));
    var ring := BuildRing(svc, text, [OffCurveKey()], KeyOf(u)).value;
    assert ring == Ring(binding, [Affine(0, 0)], [u], u);
    PointMulZero(SMALL, Affine(0, 0));
    PointMulZero(SMALL, u);
    AddInfinity(SMALL, u);
    AddInfinity(SMALL, Affine(0, 5));
    TellingLink(binding, u, u);
    TellingLink(binding, Affine(0, 5), u);
    ModIsEuclidean(-1, 3);
    sig := Signature(text, KeyOf(u), Texts(svc, [2]), Texts(svc, [2]), [OffCurveKey()]);
    assert Closed(svc, ring, 0, 1, 1, [0], [2], [2]);
    var r, s, cc, rr := AcceptedIff(svc, message, [OffCurveKey()], 1, 1, [0], sig);
    assert cc == 2 && rr == 2 by { NumbersOfTexts(svc, [2]); }
  }
}
