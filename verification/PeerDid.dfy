/** The did:peer:2 engine of backend/did/did_peer.js: a multibase key and an encoded service in one
    string. JSON and base64url are parameters, as one pair of functions. */
module PeerDid {
  import opened Base58
  import opened Numerals
  import opened Texts
  import Hex
  import opened Wrappers

  const KEY_PREFIX: nat := 0xec

  /** JSON.stringify and base64url of a service with this endpoint, and reading it back: None for what
      is not valid, or has no endpoint. */
  datatype ServiceCodec = ServiceCodec(encode: string -> string, decode: string -> Option<string>)

  /** What JSON and base64url promise: reading gives back what was written, in letters without a dot. */
  ghost predicate Faithful(codec: ServiceCodec) {
    && (forall uri :: uri != "" ==> codec.decode(codec.encode(uri)) == Some(uri))
    && (forall uri :: '.' !in codec.encode(uri))
  }

  datatype Document = Document(id: string, keyId: string, publicKeyMultibase: string, serviceId: string, endpoint: string)

  datatype Resolved = Resolved(publicKeyHex: string, endpoint: string, document: Document)

  // ---- hexadecimal keys ---------------------------------------------------

  predicate IsHex(s: string) { forall i :: 0 <= i < |s| ==> Hex.DigitValue(s[i]).Some? }

  function LowerDigit(c: char): char { if 'A' <= c <= 'F' then (c as int - 'A' as int + 'a' as int) as char else c }

  function Lower(s: string): (r: string)
    ensures |r| == |s| && forall i :: 0 <= i < |s| ==> r[i] == LowerDigit(s[i])
  {
    seq(|s|, i requires 0 <= i < |s| => LowerDigit(s[i]))
  }

  lemma DigitIsLower(c: char)
    requires Hex.DigitValue(c).Some?
    ensures Hex.DigitValue(c).value < 16 && Hex.Digit(Hex.DigitValue(c).value) == LowerDigit(c)
  {
    var d := Hex.DigitValue(c).value;
    if d < 10 {
      FigureIs(d);
    } else {
      LetterIs(d);
    }
  }

  lemma FigureIs(d: nat)
    requires d < 10
    ensures Hex.Digit(d) == ('0' as int + d) as char
  {
  }

  lemma LetterIs(d: nat)
    requires 10 <= d < 16
    ensures Hex.Digit(d) == ('a' as int + d - 10) as char
  {
  }

  lemma LastByte(front: string, c: char, d: char)
    ensures HexToBytes(front + [c, d]) == HexToBytes(front) + [HexValue(c) * 16 + HexValue(d)]
  {
    hide HexValue;
    assert (front + [c, d])[..|front|] == front;
  }

  lemma LowerLast(front: string, c: char, d: char)
    ensures Lower(front + [c, d]) == Lower(front) + [LowerDigit(c), LowerDigit(d)]
  {
    hide LowerDigit;
  }

  /** Text of an even number of hexadecimal digits. */
  predicate Paired(h: string)
  {
    h == "" || (|h| >= 2 && IsHex(h[|h| - 2..]) && Paired(h[..|h| - 2]))
  }

  lemma {:induction false} EvenIsPaired(h: string, n: nat)
    requires |h| == 2 * n && IsHex(h)
    ensures Paired(h)
  {
    if n > 0 {
      EvenIsPaired(h[..|h| - 2], n - 1);
    }
  }

  /** A buffer made from hexadecimal text writes it back in lower case. */
  lemma {:induction false} HexThroughBytes(h: string)
    requires Paired(h)
    ensures Bytes(HexToBytes(h)) && |h| == 2 * |HexToBytes(h)| && BytesToHex(HexToBytes(h)) == Lower(h)
  {
    if h == "" {
      assert HexToBytes(h) == [] && Lower(h) == "";
    } else {
      var front, c, d := h[..|h| - 2], h[|h| - 2], h[|h| - 1];
      assert h == front + [c, d];
      IsHexPair(h[|h| - 2..]);
      HexThroughBytes(front);
      LastByte(front, c, d);
      LowerLast(front, c, d);
      PairThroughByte(c, d);
      hide HexToBytes, BytesToHex, HexValue, LowerDigit, Pair, Lower, Hex.DigitValue, Paired, IsHex;
      ByteAppended(HexToBytes(front), HexValue(c) * 16 + HexValue(d));
    }
  }

  lemma IsHexPair(s: string)
    requires |s| == 2 && IsHex(s)
    ensures Hex.DigitValue(s[0]).Some? && Hex.DigitValue(s[1]).Some?
  {
  }

  lemma ByteAppended(bs: seq<nat>, b: nat)
    requires Bytes(bs) && b < 256
    ensures BytesToHex(bs + [b]) == BytesToHex(bs) + Pair(b)
  {
    hide Pair;
    assert (bs + [b])[..|bs|] == bs;
  }

  lemma ByteParts(a: nat, b: nat)
    requires a < 16 && b < 16
    ensures a * 16 + b < 256 && (a * 16 + b) / 16 == a && (a * 16 + b) % 16 == b
  {
  }

  lemma PairThroughByte(c: char, d: char)
    requires Hex.DigitValue(c).Some? && Hex.DigitValue(d).Some?
    ensures HexValue(c) * 16 + HexValue(d) < 256
    ensures Pair(HexValue(c) * 16 + HexValue(d)) == [LowerDigit(c), LowerDigit(d)]
  {
    hide Hex.Digit, LowerDigit, Hex.DigitValue;
    DigitIsLower(c);
    DigitIsLower(d);
    ByteParts(HexValue(c), HexValue(d));
  }

  // ---- key and service segments -------------------------------------------

  /** encodeMultibaseX25519PublicKey: None for a key that is not 64 hexadecimal digits. */
  function EncodeKey(publicKeyHex: string): Option<string> {
    if |publicKeyHex| == 64 && IsHex(publicKeyHex) then Some("z" + Encoded([KEY_PREFIX] + HexToBytes(publicKeyHex))) else None
  }

  /** decodeMultibaseX25519PublicKey; None for each of its exceptions. */
  function DecodeKey(multibaseKey: string): Option<string> {
    if multibaseKey == "" || multibaseKey[0] != 'z' || multibaseKey[1..] == "" || !Valid(multibaseKey[1..]) then None
    else
      var decoded := Decoded(multibaseKey[1..]);
      DecodedBytes(multibaseKey[1..]);
      if |decoded| != 33 || decoded[0] != KEY_PREFIX then None else Some(BytesToHex(decoded[1..]))
  }

  lemma DecodedBytes(s: string)
    requires Valid(s)
    ensures Bytes(Decoded(s))
  {
    ValueOfDigits(Value(DigitsIn(s), 58), 256);
  }

  lemma KeyRoundTrip(publicKeyHex: string)
    requires |publicKeyHex| == 64 && IsHex(publicKeyHex)
    ensures EncodeKey(publicKeyHex).Some? && DecodeKey(EncodeKey(publicKeyHex).value) == Some(Lower(publicKeyHex))
  {
    hide Encoded, Decoded, IsHex, HexToBytes, BytesToHex, Valid;
    var bs := [KEY_PREFIX] + HexToBytes(publicKeyHex);
    EvenIsPaired(publicKeyHex, 32);
    HexThroughBytes(publicKeyHex);
    assert Bytes(bs);
    DecodeEncode(bs);
    var key := "z" + Encoded(bs);
    assert key[1..] == Encoded(bs) && bs[1..] == HexToBytes(publicKeyHex);
  }

  /** The multibase text writes the multicodec prefix 0xec and then the bytes of the key. */
  lemma KeyIsMulticodec(publicKeyHex: string)
    requires |publicKeyHex| == 64 && IsHex(publicKeyHex)
    ensures EncodeKey(publicKeyHex).Some? && EncodeKey(publicKeyHex).value != "" && EncodeKey(publicKeyHex).value[0] == 'z'
    ensures Valid(EncodeKey(publicKeyHex).value[1..])
    ensures Decoded(EncodeKey(publicKeyHex).value[1..]) == [0xec] + HexToBytes(publicKeyHex)
  {
    hide Encoded, Decoded, IsHex, HexToBytes, BytesToHex, Valid;
    var bs := [0xec] + HexToBytes(publicKeyHex);
    EvenIsPaired(publicKeyHex, 32);
    HexThroughBytes(publicKeyHex);
    assert Bytes(bs);
    DecodeEncode(bs);
    assert ("z" + Encoded(bs))[1..] == Encoded(bs);
  }

  /** A key with another prefix or another length is refused. */
  lemma PrefixNeeded(bs: seq<nat>)
    requires Bytes(bs) && bs != []
    ensures DecodeKey("z" + Encoded(bs)) == if |bs| == 33 && bs[0] == 0xec then Some(BytesToHex(bs[1..])) else None
  {
    hide Encoded, Decoded, BytesToHex, Valid;
    DecodeEncode(bs);
    SomeText(bs);
    assert ("z" + Encoded(bs))[1..] == Encoded(bs);
  }

  lemma {:induction false} BytesThroughHex(bs: seq<nat>)
    requires Bytes(bs)
    ensures |BytesToHex(bs)| == 2 * |bs| && IsHex(BytesToHex(bs)) && HexToBytes(BytesToHex(bs)) == bs
  {
    hide Pair, HexToBytes, BytesToHex, IsHex;
    if bs == [] {
      NoBytesNoHex();
    } else {
      var front, b := bs[..|bs| - 1], bs[|bs| - 1];
      assert bs == front + [b];
      BytesThroughHex(front);
      ByteAppended(front, b);
      HexToBytesAppend(BytesToHex(front), b);
      HexAppend(BytesToHex(front), b);
    }
  }

  lemma NoBytesNoHex()
    ensures BytesToHex([]) == "" && IsHex("") && HexToBytes("") == []
  {
  }

  lemma HexAppend(h: string, b: nat)
    requires b < 256 && IsHex(h)
    ensures IsHex(h + Pair(b)) && |Pair(b)| == 2
  {
    PairIsHex(b);
    hide Hex.DigitValue;
  }

  lemma PairIsHex(b: nat)
    requires b < 256
    ensures Hex.DigitValue(Pair(b)[0]).Some? && Hex.DigitValue(Pair(b)[1]).Some?
  {
    hide Hex.Digit, Hex.DigitValue;
    Hex.DigitRoundTrip(b / 16);
    Hex.DigitRoundTrip(b % 16);
  }

  /** A key that decodes is the encoding of what it decodes to. */
  lemma DecodedKeyEncodes(k: string)
    requires DecodeKey(k).Some?
    ensures EncodeKey(DecodeKey(k).value) == Some(k)
  {
    hide Encoded, Decoded, IsHex, HexToBytes, BytesToHex, Valid;
    var decoded := Decoded(k[1..]);
    DecodedBytes(k[1..]);
    BytesThroughHex(decoded[1..]);
    assert [KEY_PREFIX] + decoded[1..] == decoded;
    EncodeDecode(k[1..]);
    assert "z" + k[1..] == k;
  }

  ghost predicate EncodesSomeKey(k: string) { exists h :: EncodeKey(h) == Some(k) }

  /** The keys that decode are exactly the encodings. */
  lemma DecodesIff(k: string)
    ensures DecodeKey(k).Some? <==> EncodesSomeKey(k)
  {
    hide EncodeKey, DecodeKey, IsHex;
    if DecodeKey(k).Some? {
      DecodedKeyEncodes(k);
    }
    if h :| EncodeKey(h) == Some(k) {
      EncodableKey(h);
      KeyRoundTrip(h);
    }
  }

  lemma EncodableKey(h: string)
    requires EncodeKey(h).Some?
    ensures |h| == 64 && IsHex(h)
  {
  }

  function EncodeService(codec: ServiceCodec, endpoint: string): Option<string> {
    if endpoint == "" then None else Some("S" + codec.encode(endpoint))
  }

  function DecodeService(codec: ServiceCodec, segment: string): (endpoint: Option<string>)
    ensures endpoint.Some? ==> endpoint.value != ""
  {
    if segment == "" || segment[0] != 'S' then None
    else
      var uri := codec.decode(segment[1..]);
      if uri.None? || uri.value == "" then None else uri
  }

  // ---- createDidPeer2 and resolveDidPeer2 ---------------------------------

  method CreateDidPeer2(codec: ServiceCodec, publicKeyHex: string, endpoint: string) returns (did: Option<string>)
    ensures did == Created(codec, publicKeyHex, endpoint)
    ensures did.Some? <==> |publicKeyHex| == 64 && IsHex(publicKeyHex) && endpoint != ""
    ensures did.Some? && Faithful(codec) ==>
      var r := Resolve(codec, did.value);
      r.Some? && r.value.publicKeyHex == Lower(publicKeyHex) && r.value.endpoint == endpoint && r.value.document.id == did.value
  {
    hide Encoded, HexToBytes, IsHex, Resolve;
    var encodedKey := EncodeKey(publicKeyHex);
    if encodedKey.None? {
      return None;
    }
    var encodedService := EncodeService(codec, endpoint);
    if encodedService.None? {
      return None;
    }
    did := Some("did:peer:2.E" + encodedKey.value + "." + encodedService.value);
    if Faithful(codec) {
      ResolveCreated(codec, publicKeyHex, endpoint);
    }
  }

  function Created(codec: ServiceCodec, publicKeyHex: string, endpoint: string): Option<string> {
    var key, service := EncodeKey(publicKeyHex), EncodeService(codec, endpoint);
    if key.None? || service.None? then None else Some("did:peer:2.E" + key.value + "." + service.value)
  }

  function NonEmpty(segments: seq<string>): (r: seq<string>)
    ensures forall i :: 0 <= i < |r| ==> r[i] != ""
  {
    if segments == [] then []
    else
      var rest := NonEmpty(segments[1..]);
      if segments[0] == "" then rest else [segments[0]] + rest
  }

  predicate KeyPurpose(c: char) { c == 'E' || c == 'V' || c == 'A' || c == 'I' || c == 'D' }

  function KeySegments(segments: seq<string>): seq<string>
    requires forall i :: 0 <= i < |segments| ==> segments[i] != ""
  {
    if segments == [] then []
    else if KeyPurpose(segments[0][0]) then [segments[0]] + KeySegments(segments[1..]) else KeySegments(segments[1..])
  }

  function ServiceSegments(segments: seq<string>): seq<string>
    requires forall i :: 0 <= i < |segments| ==> segments[i] != ""
  {
    if segments == [] then []
    else if segments[0][0] == 'S' then [segments[0]] + ServiceSegments(segments[1..]) else ServiceSegments(segments[1..])
  }

  const SCHEME: string := "did:peer:2"

  function DocumentOf(did: string, multibaseKey: string, endpoint: string): Document {
    Document(did, did + "#key-1", multibaseKey, did + "#service", endpoint)
  }

  /** The parts between dots that are not empty. */
  function Segments(did: string): (segments: seq<string>)
    requires |did| >= 10
    ensures forall i :: 0 <= i < |segments| ==> segments[i] != ""
  {
    NonEmpty(Split(did[10..], '.'))
  }

  ghost predicate OnlyKey(segments: seq<string>, i: nat)
    requires forall i :: 0 <= i < |segments| ==> segments[i] != ""
  {
    i < |segments| && KeyPurpose(segments[i][0]) && forall l :: 0 <= l < |segments| && l != i ==> !KeyPurpose(segments[l][0])
  }

  ghost predicate OnlyService(segments: seq<string>, j: nat)
    requires forall i :: 0 <= i < |segments| ==> segments[i] != ""
  {
    j < |segments| && segments[j][0] == 'S' && forall l :: 0 <= l < |segments| && l != j ==> segments[l][0] != 'S'
  }

  /** An identifier whose one key is the encoding of some key, whose one service has an endpoint, and whose
      other parts are of neither kind. */
  ghost predicate WellFormed(codec: ServiceCodec, did: string) {
    |did| >= 11 && did[..10] == SCHEME && did[10] == '.'
    && exists i, j :: KeyAndService(codec, Segments(did), i, j)
  }

  ghost predicate KeyAndService(codec: ServiceCodec, segments: seq<string>, i: nat, j: nat)
    requires forall i :: 0 <= i < |segments| ==> segments[i] != ""
  {
    && OnlyKey(segments, i) && OnlyService(segments, j) && segments[i][0] == 'E'
    && EncodesSomeKey(segments[i][1..]) && DecodeService(codec, segments[j]).Some?
  }

  lemma {:induction false} NoKeys(segments: seq<string>)
    requires forall i :: 0 <= i < |segments| ==> segments[i] != ""
    ensures KeySegments(segments) == [] <==> forall l :: 0 <= l < |segments| ==> !KeyPurpose(segments[l][0])
  {
    hide KeyPurpose;
    if segments != [] {
      NoKeys(segments[1..]);
      assert forall l :: 0 < l < |segments| ==> segments[1..][l - 1] == segments[l];
    }
  }

  lemma {:induction false} NoServices(segments: seq<string>)
    requires forall i :: 0 <= i < |segments| ==> segments[i] != ""
    ensures ServiceSegments(segments) == [] <==> forall l :: 0 <= l < |segments| ==> segments[l][0] != 'S'
  {
    if segments != [] {
      NoServices(segments[1..]);
      assert forall l :: 0 < l < |segments| ==> segments[1..][l - 1] == segments[l];
    }
  }

  /** Filtering finds one key segment exactly when there is one. */
  lemma {:induction false} OneKey(segments: seq<string>) returns (i: nat)
    requires forall i :: 0 <= i < |segments| ==> segments[i] != ""
    ensures |KeySegments(segments)| == 1 ==> OnlyKey(segments, i) && KeySegments(segments) == [segments[i]]
    ensures forall k: nat :: OnlyKey(segments, k) ==> |KeySegments(segments)| == 1 && k == i
  {
    hide KeyPurpose;
    i := 0;
    if segments != [] {
      var rest := segments[1..];
      assert forall l :: 0 < l < |segments| ==> rest[l - 1] == segments[l];
      if KeyPurpose(segments[0][0]) {
        NoKeys(rest);
      } else {
        i := OneKey(rest);
        forall k: nat | OnlyKey(segments, k) ensures |KeySegments(segments)| == 1 && k == i + 1 {
          assert OnlyKey(rest, k - 1);
        }
        i := i + 1;
      }
    }
  }

  lemma {:induction false} OneService(segments: seq<string>) returns (j: nat)
    requires forall i :: 0 <= i < |segments| ==> segments[i] != ""
    ensures |ServiceSegments(segments)| == 1 ==> OnlyService(segments, j) && ServiceSegments(segments) == [segments[j]]
    ensures forall k: nat :: OnlyService(segments, k) ==> |ServiceSegments(segments)| == 1 && k == j
  {
    j := 0;
    if segments != [] {
      var rest := segments[1..];
      assert forall l :: 0 < l < |segments| ==> rest[l - 1] == segments[l];
      if segments[0][0] == 'S' {
        NoServices(rest);
      } else {
        j := OneService(rest);
        forall k: nat | OnlyService(segments, k) ensures |ServiceSegments(segments)| == 1 && k == j + 1 {
          assert OnlyService(rest, k - 1);
        }
        j := j + 1;
      }
    }
  }

  /** What resolution answers: it succeeds on exactly the well-formed identifiers, the key it gives is the one
      whose encoding stands in the identifier, and the endpoint is that of the service. */
  lemma ResolvedIff(codec: ServiceCodec, did: string)
    ensures Resolve(codec, did).Some? <==> WellFormed(codec, did)
    ensures Resolve(codec, did).Some? ==> FromSegments(codec, did, Resolve(codec, did).value)
  {
    hide DecodeKey, DecodeService, Split, NonEmpty, KeySegments, ServiceSegments, EncodeKey, EncodesSomeKey, OnlyKey, OnlyService;
    if |did| >= 11 && did[..10] == SCHEME && did[10] == '.' {
      var segments := Segments(did);
      var i := OneKey(segments);
      var j := OneService(segments);
      if |KeySegments(segments)| == 1 && |ServiceSegments(segments)| == 1 {
        KeyIsNoService(segments, i, j);
        DecodesIff(segments[i][1..]);
        if Resolve(codec, did).Some? {
          DecodedKeyEncodes(segments[i][1..]);
          assert segments[i] == "E" + segments[i][1..];
          assert KeyAndService(codec, segments, i, j);
        }
      }
    }
  }

  lemma KeyIsNoService(segments: seq<string>, i: nat, j: nat)
    requires forall i :: 0 <= i < |segments| ==> segments[i] != ""
    requires OnlyKey(segments, i) && OnlyService(segments, j)
    ensures i < |segments| && j < |segments| && i != j && |segments| >= 2
  {
  }

  ghost predicate FromSegments(codec: ServiceCodec, did: string, r: Resolved) {
    && |did| >= 11 && EncodeKey(r.publicKeyHex) == Some(r.document.publicKeyMultibase) && r.endpoint != ""
    && exists i, j :: 0 <= i < |Segments(did)| && 0 <= j < |Segments(did)|
                      && Segments(did)[i] == "E" + r.document.publicKeyMultibase
                      && DecodeService(codec, Segments(did)[j]) == Some(r.endpoint)
  }

  /** resolveDidPeer2; None for each of its exceptions. */
  method ResolveDidPeer2(codec: ServiceCodec, did: string) returns (r: Option<Resolved>)
    ensures r == Resolve(codec, did)
    ensures r.Some? <==> WellFormed(codec, did)
    ensures r.Some? ==> FromSegments(codec, did, r.value)
    ensures r.Some? ==> r.value.document.id == did && r.value.document.keyId == did + "#key-1"
    ensures r.Some? ==> r.value.document.serviceId == did + "#service" && r.value.document.endpoint == r.value.endpoint
  {
    hide DecodeKey, DecodeService, WellFormed, FromSegments, Split;
    ResolvedIff(codec, did);
    if |did| < 11 || did[..10] != SCHEME || did[10] != '.' {
      return None;
    }
    var segments := Segments(did);
    if |segments| < 2 {
      return None;
    }
    var keys, services := KeySegments(segments), ServiceSegments(segments);
    if |keys| != 1 || |services| != 1 || keys[0] == "" || keys[0][0] != 'E' {
      return None;
    }
    var multibaseKey := keys[0][1..];
    var publicKeyHex := DecodeKey(multibaseKey);
    if publicKeyHex.None? {
      return None;
    }
    var endpoint := DecodeService(codec, services[0]);
    if endpoint.None? {
      return None;
    }
    r := Some(Resolved(publicKeyHex.value, endpoint.value, DocumentOf(did, multibaseKey, endpoint.value)));
  }

  function Resolve(codec: ServiceCodec, did: string): Option<Resolved> {
    if |did| < 11 || did[..10] != SCHEME || did[10] != '.' then None
    else
      var segments := Segments(did);
      var keys, services := KeySegments(segments), ServiceSegments(segments);
      if |segments| < 2 || |keys| != 1 || |services| != 1 || keys[0] == "" || keys[0][0] != 'E' then None
      else
        var key, endpoint := DecodeKey(keys[0][1..]), DecodeService(codec, services[0]);
        if key.None? || endpoint.None? then None
        else Some(Resolved(key.value, endpoint.value, DocumentOf(did, keys[0][1..], endpoint.value)))
  }

  // ---- segments -----------------------------------------------------------

  lemma {:induction false} NonEmptyConcat(a: seq<string>, b: seq<string>)
    ensures NonEmpty(a + b) == NonEmpty(a) + NonEmpty(b)
  {
    if a == [] {
      assert a + b == b;
    } else {
      assert (a + b)[1..] == a[1..] + b;
      NonEmptyConcat(a[1..], b);
    }
  }

  /** The segments on both sides of a dot, and the one segment of a text without dots, if it is not empty. */
  lemma PartsConcat(a: string, b: string)
    ensures NonEmpty(Split(a + "." + b, '.')) == NonEmpty(Split(a, '.')) + NonEmpty(Split(b, '.'))
    ensures '.' !in a ==> NonEmpty(Split(a, '.')) == if a == "" then [] else [a]
  {
    hide NonEmpty, Split;
    SplitBetween(a, b, '.');
    assert a + "." + b == a + ['.'] + b;
    NonEmptyConcat(Split(a, '.'), Split(b, '.'));
    if '.' !in a {
      SplitWhole(a, '.');
      OneNonEmpty(a);
    }
  }

  lemma OneNonEmpty(a: string)
    ensures NonEmpty([a]) == if a == "" then [] else [a]
  {
    assert [a][1..] == [];
  }

  /** A third segment after those of a created identifier is tolerated if and only if it is of no known purpose:
      its first character is none of E, V, A, I, D and S. */
  lemma ThirdSegment(codec: ServiceCodec, publicKeyHex: string, endpoint: string, c: char, rest: string)
    requires Faithful(codec) && |publicKeyHex| == 64 && IsHex(publicKeyHex) && endpoint != "" && c != '.' && '.' !in rest
    ensures Created(codec, publicKeyHex, endpoint).Some?
    ensures Resolve(codec, Created(codec, publicKeyHex, endpoint).value + "." + [c] + rest).Some? <==>
      c != 'E' && c != 'V' && c != 'A' && c != 'I' && c != 'D' && c != 'S'
  {
    hide IsHex, Encoded, HexToBytes, Split, NonEmpty, KeySegments, ServiceSegments, EncodeKey, DecodeKey, DecodeService, Valid;
    var key, service := CreatedParts(codec, publicKeyHex, endpoint);
    var a, third := "E" + key, [c] + rest;
    var did := Created(codec, publicKeyHex, endpoint).value + "." + [c] + rest;
    assert did == SCHEME + ("." + a + "." + service + "." + third) by { assert "did:peer:2.E" == SCHEME + ".E"; }
    assert did[..10] == SCHEME && did[10..] == "." + a + "." + service + "." + third && did[10] == '.';
    ThreeSegments(a, service, third);
    assert a[1..] == key;
    assert Segments(did) == [a, service, third];
  }

  /** The key and the service of a created identifier. */
  lemma CreatedParts(codec: ServiceCodec, publicKeyHex: string, endpoint: string) returns (key: string, service: string)
    requires Faithful(codec) && |publicKeyHex| == 64 && IsHex(publicKeyHex) && endpoint != ""
    ensures Created(codec, publicKeyHex, endpoint) == Some("did:peer:2.E" + key + "." + service)
    ensures '.' !in "E" + key && '.' !in service && service != "" && service[0] == 'S'
    ensures DecodeKey(key).Some? && DecodeService(codec, service).Some?
  {
    hide IsHex, Encoded, HexToBytes, DecodeKey, Valid;
    var bs := [KEY_PREFIX] + HexToBytes(publicKeyHex);
    KeyRoundTrip(publicKeyHex);
    assert Bytes(bs) by {
      EvenIsPaired(publicKeyHex, 32);
      HexThroughBytes(publicKeyHex);
    }
    EncodedDigits(bs);
    NoDotInLetters(Encoded(bs));
    key, service := EncodeKey(publicKeyHex).value, EncodeService(codec, endpoint).value;
    assert service[1..] == codec.encode(endpoint);
  }

  lemma ThreeSegments(a: string, b: string, c: string)
    requires '.' !in a && '.' !in b && '.' !in c && a != "" && b != "" && c != "" && a[0] == 'E' && b[0] == 'S'
    ensures
      var segments := NonEmpty(Split("." + a + "." + b + "." + c, '.'));
      && segments == [a, b, c]
      && KeySegments(segments) == (if KeyPurpose(c[0]) then [a, c] else [a])
      && ServiceSegments(segments) == (if c[0] == 'S' then [b, c] else [b])
  {
    hide Split, NonEmpty;
    PartsConcat("." + a + "." + b, c);
    PartsConcat("." + a, b);
    PartsConcat("", a);
    PartsConcat(a, "");
    PartsConcat(b, "");
    PartsConcat(c, "");
    assert "" + "." + a == "." + a;
    assert [a] + [b] + [c] == [a, b, c];
    assert [a, b, c][1..] == [b, c] && [b, c][1..] == [c] && [c][1..] == [];
    assert KeySegments([]) == [] && ServiceSegments([]) == [];
    assert KeySegments([c]) == (if KeyPurpose(c[0]) then [c] else []);
    assert KeySegments([b, c]) == KeySegments([c]);
    assert ServiceSegments([c]) == (if c[0] == 'S' then [c] else []);
    assert ServiceSegments([b, c]) == [b] + ServiceSegments([c]);
  }

  lemma NoDotInLetters(s: string)
    requires Valid(s)
    ensures '.' !in s
  {
    hide IndexFrom;
    if '.' in s {
      var i :| 0 <= i < |s| && s[i] == '.';
      assert IndexOf(s[i]).Some?;
      DotIsNoLetter();
    }
  }

  lemma DotIsNoLetter()
    ensures IndexOf('.').None?
  {
    hide IndexFrom, Letter;
    if IndexOf('.').Some? {
      LetterOfIndex('.');
      FirstLetter(IndexOf('.').value);
    }
  }

  lemma FirstLetter(d: nat)
    requires d < 58
    ensures Letter(d) >= '1'
  {
    AlphabetRises();
    if d > 0 {
      RisingApart(ALPHABET, 0, d);
    }
  }

  /** Two segments, one for the key and one for the service. */
  lemma TwoSegments(a: string, b: string)
    requires '.' !in a && '.' !in b && a != "" && b != "" && a[0] == 'E' && b[0] == 'S'
    ensures
      var segments := NonEmpty(Split("." + a + "." + b, '.'));
      segments == [a, b] && KeySegments(segments) == [a] && ServiceSegments(segments) == [b]
  {
    SplitAt("", a + "." + b, '.');
    SplitAt(a, b, '.');
    SplitWhole(b, '.');
    assert "." + a + "." + b == "" + ['.'] + (a + "." + b);
    assert a + "." + b == a + ['.'] + b;
    var all := ["", a, b];
    assert Split("." + a + "." + b, '.') == all;
    assert all[1..] == [a, b] && [a, b][1..] == [b] && [b][1..] == [];
    assert NonEmpty([]) == [] && NonEmpty([b]) == [b] && NonEmpty([a, b]) == [a, b];
    assert KeySegments([]) == [] && KeySegments([b]) == [];
    assert ServiceSegments([]) == [] && ServiceSegments([b]) == [b];
  }

  /** Resolving what was created gives the key in lower case and the endpoint, for every key of 64
      hexadecimal digits and every endpoint that is not empty. */
  lemma ResolveCreated(codec: ServiceCodec, publicKeyHex: string, endpoint: string)
    requires Faithful(codec) && |publicKeyHex| == 64 && IsHex(publicKeyHex) && endpoint != ""
    ensures Created(codec, publicKeyHex, endpoint).Some?
    ensures
      var did := Created(codec, publicKeyHex, endpoint).value;
      Resolve(codec, did) == Some(Resolved(Lower(publicKeyHex), endpoint, DocumentOf(did, EncodeKey(publicKeyHex).value, endpoint)))
  {
    hide IsHex, Encoded, HexToBytes, Split, NonEmpty, KeySegments, ServiceSegments, DecodeKey, Valid;
    var bs := [KEY_PREFIX] + HexToBytes(publicKeyHex);
    KeyRoundTrip(publicKeyHex);
    assert Bytes(bs);
    EncodedDigits(bs);
    NoDotInLetters(Encoded(bs));
    var key, service := EncodeKey(publicKeyHex).value, EncodeService(codec, endpoint).value;
    var a, did := "E" + key, Created(codec, publicKeyHex, endpoint).value;
    assert did == SCHEME + ("." + a + "." + service) by { assert "did:peer:2.E" == SCHEME + ".E"; }
    assert did[..10] == SCHEME && did[10..] == "." + a + "." + service;
    TwoSegments(a, service);
    assert a[1..] == key && service[1..] == codec.encode(endpoint);
  }
}
