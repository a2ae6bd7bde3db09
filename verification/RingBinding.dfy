/** What a ring signature binds: the challenges of backend/privacy/ring_sig.js are digests of texts that
    determine the message hash, the ring and the key image. */
module RingBinding {
  import opened NumberTheory
  import opened CurveArithmetic
  import opened Hex
  import opened PublicKeys
  import opened RingSignatures
  import opened Texts
  import opened Wrappers

  // ---- texts that can be taken apart --------------------------------------

  /** No colon and no comma: the separators of the texts. */
  predicate Clean(s: string) { ':' !in s && ',' !in s }

  lemma CleanParts(a: string, b: string)
    ensures Clean(a + b) <==> Clean(a) && Clean(b)
  {
  }

  lemma CleanCut(s: string, i: nat)
    requires i <= |s|
    ensures Clean(s) <==> Clean(s[..i]) && Clean(s[i..])
  {
    assert s == s[..i] + s[i..];
  }

  lemma {:induction false} HexIsClean(s: string)
    requires ParseHex(s).Some?
    ensures Clean(s)
  {
    forall i | 0 <= i < |s| ensures s[i] != ':' && s[i] != ',' {
      AllDigits(s, i);
    }
  }

  lemma {:induction false} TrimmedIsClean(s: string)
    requires Clean(TrimEnd(s))
    ensures Clean(s)
  {
    if s != "" && White(s[|s| - 1]) {
      TrimmedIsClean(s[..|s| - 1]);
      assert s == s[..|s| - 1] + [s[|s| - 1]];
    }
  }

  lemma BigIntIsClean(s: string)
    requires BigIntHex(s).Some?
    ensures Clean(s)
  {
    hide ParseHex, TrimEnd, Clean;
    HexIsClean(TrimEnd(s));
    TrimmedIsClean(s);
  }

  /** A key that is accepted has no separator in it. */
  lemma KeyIsClean(c: Curve, key: string)
    requires c.p > 0 && ParsePublicKey(c, key).Some?
    ensures Clean(key) && key != ""
  {
    hide BigIntHex, LiftX, FixParity, Clean;
    var hex := Strip(key);
    if |hex| == 130 && hex[..2] == "04" {
      BigIntIsClean(hex[2..66]);
      BigIntIsClean(hex[66..]);
      CleanCut(hex[2..], 64);
      assert hex[2..][..64] == hex[2..66] && hex[2..][64..] == hex[66..];
      CleanCut(hex, 2);
      assert Clean("04") by { ShortClean(); }
    } else if |hex| == 66 && (hex[..2] == "02" || hex[..2] == "03") {
      BigIntIsClean(hex[2..]);
      CleanCut(hex, 2);
      ShortClean();
    } else {
      BigIntIsClean(hex);
    }
    ShortClean();
    if hex != key {
      CleanCut(key, 2);
    }
  }

  lemma ShortClean()
    ensures Clean("0x") && Clean("02") && Clean("03") && Clean("04")
  {
  }

  lemma DigestIsClean(svc: Service, text: string)
    ensures Clean(Digest(svc, text)) && ParseHex(Digest(svc, text)[2..]) == Some(svc.keccak(text))
  {
    hide ToHex, ParseHex, PadStart, Clean;
    PadRoundTrip(svc.keccak(text), 64);
    var body := PadStart(ToHex(svc.keccak(text)), 64);
    HexIsClean(body);
    CleanParts("0x", body);
    ShortClean();
    assert ("0x" + body)[2..] == body;
  }

  /** Digests are equal exactly when the hashes are. */
  lemma DigestInjective(svc: Service, a: string, b: string)
    ensures Digest(svc, a) == Digest(svc, b) <==> svc.keccak(a) == svc.keccak(b)
  {
    hide ToHex, ParseHex, PadStart;
    DigestIsClean(svc, a);
    DigestIsClean(svc, b);
  }

  /** A list of clean texts is found again in its join. */
  lemma {:induction false} JoinSplits(parts: seq<string>)
    requires parts != [] && forall i :: 0 <= i < |parts| ==> Clean(parts[i])
    ensures Split(Join(parts), ',') == parts && ':' !in Join(parts)
  {
    hide Split;
    if |parts| == 1 {
      SplitWhole(parts[0], ',');
    } else {
      JoinSplits(parts[1..]);
      SplitAt(parts[0], Join(parts[1..]), ',');
      assert parts[0] + "," + Join(parts[1..]) == parts[0] + [','] + Join(parts[1..]);
      assert [parts[0]] + parts[1..] == parts;
    }
  }

  lemma ThreeParts(a: string, b: string, d: string)
    requires ':' !in a && ':' !in b && ':' !in d
    ensures Split(a + ":" + b + ":" + d, ':') == [a, b, d]
  {
    hide Split;
    SplitWhole(d, ':');
    SplitAt(b, d, ':');
    SplitAt(a, b + [':'] + d, ':');
    assert a + ":" + b + ":" + d == a + [':'] + (b + [':'] + d);
  }

  lemma FirstPart(a: string, rest: string)
    requires ':' !in a
    ensures Split(a + ":" + rest, ':')[0] == a
  {
    hide Split;
    SplitAt(a, rest, ':');
    assert a + ":" + rest == a + [':'] + rest;
  }

  // ---- what is hashed -----------------------------------------------------

  /** The text that a signature's challenges are bound to. */
  function Contents(sig: Signature): string {
    sig.messageHash + ":" + Join(sig.pubKeys) + ":" + sig.keyImage
  }

  /** The text of a link whose two points are l and r. */
  function LinkText(svc: Service, sig: Signature, l: Point, r: Point): string {
    "0x" + PadStart(ToHex(svc.keccak(Contents(sig))), 64) + ":" + KeyOf(l) + ":" + KeyOf(r)
  }

  /** An accepted signature's contents determine its message hash, ring and key image. */
  lemma ContentsDetermine(svc: Service, m1: string, m2: string, ring1: seq<string>, ring2: seq<string>, sig1: Signature, sig2: Signature)
    requires svc.curve.p > 0 && svc.curve.n > 0 && ring1 != [] && ring2 != []
    requires Accepts(svc, m1, ring1, sig1) && Accepts(svc, m2, ring2, sig2)
    requires Contents(sig1) == Contents(sig2)
    ensures sig1.messageHash == sig2.messageHash && ring1 == ring2 && sig1.keyImage == sig2.keyImage
  {
    hide ParsePublicKey, Digest, Split, Join, ChainCloses, AllHex, Binding, Clean;
    ContentsSplit(svc, m1, ring1, sig1);
    ContentsSplit(svc, m2, ring2, sig2);
  }

  lemma ContentsSplit(svc: Service, message: string, ring: seq<string>, sig: Signature)
    requires svc.curve.p > 0 && svc.curve.n > 0 && ring != [] && Accepts(svc, message, ring, sig)
    ensures Split(Contents(sig), ':') == [sig.messageHash, Join(ring), sig.keyImage]
    ensures Split(Join(ring), ',') == ring
  {
    hide ParsePublicKey, Digest, Split, Join, ChainCloses, AllHex, Binding;
    assert AllParse(svc.curve, ring) && sig.pubKeys == ring;
    forall i | 0 <= i < |ring| ensures Clean(ring[i]) {
      KeyIsClean(svc.curve, ring[i]);
    }
    JoinSplits(ring);
    DigestIsClean(svc, message);
    KeyIsClean(svc.curve, sig.keyImage);
    ThreeParts(sig.messageHash, Join(ring), sig.keyImage);
  }

  // ---- acceptance, as the header of the file documents it -----------------

  /** The two points of link i: r_i G + c_i P_i and r_i Hp(P_i) + c_i I. */
  ghost predicate LinkPoints(svc: Service, ring: seq<string>, image: Point, c: nat, r: nat, i: nat, left: Point, right: Point)
    requires svc.curve.p > 0 && svc.curve.n > 0
  {
    i < |ring| && ParsePublicKey(svc.curve, ring[i]).Some?
    && var member := ParsePublicKey(svc.curve, ring[i]).value;
    && left == PointAdd(svc.curve, PointMul(svc.curve, r, svc.curve.g), PointMul(svc.curve, c, member))
    && right == PointAdd(svc.curve, PointMul(svc.curve, r, svc.hashToPoint(KeyOf(member))), PointMul(svc.curve, c, image))
  }

  /** Challenge i + 1 is the hash of the contents' digest and the two points of link i, modulo the order. */
  ghost predicate LinkHolds(svc: Service, ring: seq<string>, sig: Signature, i: nat, left: Point, right: Point)
    requires svc.curve.p > 0 && svc.curve.n > 0
  {
    && |sig.c| == |sig.r| == |ring| && i < |ring|
    && HexToBig(sig.c[i]).Some? && HexToBig(sig.r[i]).Some? && ParsePublicKey(svc.curve, sig.keyImage).Some?
    && LinkPoints(svc, ring, ParsePublicKey(svc.curve, sig.keyImage).value, HexToBig(sig.c[i]).value, HexToBig(sig.r[i]).value, i, left, right)
    && left.Affine? && right.Affine?
    && HexToBig(sig.c[if i + 1 < |ring| then i + 1 else 0]) == Some(svc.keccak(LinkText(svc, sig, left, right)) % svc.curve.n)
  }

  ghost predicate SomeLink(svc: Service, ring: seq<string>, sig: Signature, i: nat)
    requires svc.curve.p > 0 && svc.curve.n > 0
  {
    exists left, right :: LinkHolds(svc, ring, sig, i, left, right)
  }

  lemma LinkMeans(svc: Service, ring: seq<string>, sig: Signature, built: Ring, i: nat)
    requires svc.curve.p > 0 && svc.curve.n > 0 && i < |ring| == |sig.c| == |sig.r| && sig.pubKeys == ring
    requires AllHex(sig.c) && AllHex(sig.r) && BuildRing(svc, sig.messageHash, ring, sig.keyImage) == Some(built)
    ensures SomeLink(svc, ring, sig, i) <==>
      Link(svc, built, Numbers(sig.c)[i], Numbers(sig.r)[i], i) == Some(Numbers(sig.c)[Next(|sig.c|, i)])
  {
    hide PointMul, PointAdd, ParsePublicKey, KeyOf, HexToBig, ToHex, PadStart, Join;
    var c, r := Numbers(sig.c), Numbers(sig.r);
    var left, right := Left(svc, built, c[i], r[i], i), Right(svc, built, c[i], r[i], i);
    if Link(svc, built, c[i], r[i], i) == Some(c[Next(|c|, i)]) {
      assert LinkHolds(svc, ring, sig, i, left, right);
    }
  }

  /** Verification accepts a signature over a non-empty ring if and only if the message hash is the digest of the
      message, the ring is the signature's, everything can be read, and every challenge is the hash that the
      header of the file documents. */
  lemma AcceptedAsDocumented(svc: Service, message: string, ring: seq<string>, sig: Signature)
    requires svc.curve.p > 0 && svc.curve.n > 0 && ring != []
    ensures Accepts(svc, message, ring, sig) <==>
      && sig.messageHash == "0x" + PadStart(ToHex(svc.keccak(message)), 64) && sig.pubKeys == ring
      && |sig.c| == |sig.r| == |ring| && forall i: nat :: i < |ring| ==> SomeLink(svc, ring, sig, i)
  {
    hide PointMul, PointAdd, ParsePublicKey, KeyOf, HexToBig, ToHex, PadStart, Join, Link, LinkHolds;
    if |sig.c| == |sig.r| == |ring| && sig.pubKeys == ring {
      if forall i: nat :: i < |ring| ==> SomeLink(svc, ring, sig, i) {
        forall i: nat | i < |ring|
          ensures HexToBig(sig.c[i]).Some? && HexToBig(sig.r[i]).Some? && ParsePublicKey(svc.curve, ring[i]).Some?
          ensures ParsePublicKey(svc.curve, sig.keyImage).Some?
        {
          assert SomeLink(svc, ring, sig, i);
          LinkReads(svc, ring, sig, i);
        }
        assert ParsePublicKey(svc.curve, sig.keyImage).Some? by { LinkReads(svc, ring, sig, 0); }
      }
      var built := BuildRing(svc, sig.messageHash, ring, sig.keyImage);
      if AllHex(sig.c) && AllHex(sig.r) && built.Some? {
        forall i: nat | i < |ring|
          ensures SomeLink(svc, ring, sig, i) <==>
            Link(svc, built.value, Numbers(sig.c)[i], Numbers(sig.r)[i], i) == Some(Numbers(sig.c)[Next(|sig.c|, i)])
        {
          LinkMeans(svc, ring, sig, built.value, i);
        }
      }
    }
  }

  lemma LinkReads(svc: Service, ring: seq<string>, sig: Signature, i: nat)
    requires svc.curve.p > 0 && svc.curve.n > 0 && |sig.c| == |sig.r| == |ring| && i < |ring| && SomeLink(svc, ring, sig, i)
    ensures HexToBig(sig.c[i]).Some? && HexToBig(sig.r[i]).Some? && ParsePublicKey(svc.curve, ring[i]).Some?
    ensures ParsePublicKey(svc.curve, sig.keyImage).Some?
  {
    hide PointMul, PointAdd, ParsePublicKey, KeyOf, HexToBig, LinkText;
  }

  // ---- what cannot be exchanged -------------------------------------------

  /** Two accepted signatures with the same challenges have hashed messages, rings and key image alike, or these
      texts are a collision: of the hash at the messages or at the contents, or of the challenges at the texts of
      the first link. So the message hash, the ring or the image of a signature cannot be exchanged otherwise. */
  lemma BoundToContents(svc: Service, m1: string, m2: string, ring1: seq<string>, ring2: seq<string>, sig1: Signature, sig2: Signature)
    returns (l1: Point, r1: Point, l2: Point, r2: Point)
    requires svc.curve.p > 0 && svc.curve.n > 0 && ring1 != [] && sig1.c == sig2.c
    requires Accepts(svc, m1, ring1, sig1) && Accepts(svc, m2, ring2, sig2)
    ensures LinkHolds(svc, ring1, sig1, 0, l1, r1) && LinkHolds(svc, ring2, sig2, 0, l2, r2)
    ensures
      || (svc.keccak(m1) == svc.keccak(m2) && ring1 == ring2 && sig1.keyImage == sig2.keyImage)
      || (Contents(sig1) != Contents(sig2) && svc.keccak(Contents(sig1)) == svc.keccak(Contents(sig2)))
      || (var t1, t2 := LinkText(svc, sig1, l1, r1), LinkText(svc, sig2, l2, r2);
          t1 != t2 && svc.keccak(t1) % svc.curve.n == svc.keccak(t2) % svc.curve.n)
  {
    hide PointMul, PointAdd, ParsePublicKey, KeyOf, HexToBig, ChainCloses, AllHex, BuildRing, LinkPoints, Contents, LinkText;
    assert ring2 != [];
    AcceptedAsDocumented(svc, m1, ring1, sig1);
    AcceptedAsDocumented(svc, m2, ring2, sig2);
    assert SomeLink(svc, ring1, sig1, 0) && SomeLink(svc, ring2, sig2, 0);
    l1, r1 :| LinkHolds(svc, ring1, sig1, 0, l1, r1);
    l2, r2 :| LinkHolds(svc, ring2, sig2, 0, l2, r2);
    if LinkText(svc, sig1, l1, r1) == LinkText(svc, sig2, l2, r2) {
      LinkTextDetermines(svc, sig1, sig2, l1, r1, l2, r2);
      if Contents(sig1) == Contents(sig2) {
        ContentsDetermine(svc, m1, m2, ring1, ring2, sig1, sig2);
        DigestInjective(svc, m1, m2);
      }
    }
  }

  lemma LinkTextDetermines(svc: Service, sig1: Signature, sig2: Signature, l1: Point, r1: Point, l2: Point, r2: Point)
    requires LinkText(svc, sig1, l1, r1) == LinkText(svc, sig2, l2, r2)
    ensures svc.keccak(Contents(sig1)) == svc.keccak(Contents(sig2))
  {
    hide ToHex, ParseHex, PadStart, KeyOf, Contents, Split;
    DigestIsClean(svc, Contents(sig1));
    DigestIsClean(svc, Contents(sig2));
    var d1, d2 := Digest(svc, Contents(sig1)), Digest(svc, Contents(sig2));
    FirstPart(d1, KeyOf(l1) + ":" + KeyOf(r1));
    FirstPart(d2, KeyOf(l2) + ":" + KeyOf(r2));
    assert d1 + ":" + KeyOf(l1) + ":" + KeyOf(r1) == d1 + ":" + (KeyOf(l1) + ":" + KeyOf(r1));
    assert d2 + ":" + KeyOf(l2) + ":" + KeyOf(r2) == d2 + ":" + (KeyOf(l2) + ":" + KeyOf(r2));
    DigestInjective(svc, Contents(sig1), Contents(sig2));
  }
}
