/** IKEv1 SA bodies (core/ike_parser/ikev1.py, section 3.3 of RFC 2408): attributes in both the
    fixed-length (TV) and variable-length (TLV) encodings, and the first transform of the first
    proposal, with the encoder of tests/ike_parser/_build.py. */
module IkeV1Wire {
  import opened IkeBuild
  import opened IkeWire
  import opened Wrappers

  function BigEndian(b: Bytes): nat {
    if b == [] then 0 else BigEndian(b[..|b| - 1]) * 256 + At(b, |b| - 1)
  }

  /** What a TLV attribute with value bytes `v` adds: values of one to eight bytes only. */
  function Noted(acc: map<nat, nat>, atype: nat, v: Bytes): map<nat, nat> {
    if 0 < |v| <= 8 then acc[atype := BigEndian(v)] else acc
  }

  function V1Attributes(blob: Bytes, acc: map<nat, nat>): map<nat, nat>
    decreases |blob|
  {
    if |blob| < 4 then acc
    else
      var head, val := U16(blob, 0), U16(blob, 2);
      if head >= 0x8000 then V1Attributes(blob[4..], acc[head - 0x8000 := val])
      else V1Attributes(Drop(blob, 4 + val), Noted(acc, head, Slice(blob, 4, 4 + val)))
  }

  method ParseV1Attributes(blob: Bytes) returns (attrs: map<nat, nat>)
    ensures attrs == V1Attributes(blob, map[])
  {
    attrs := map[];
    var off := 0;
    while off + 4 <= |blob|
      invariant 0 <= off
      invariant V1Attributes(blob, map[]) == V1Attributes(Drop(blob, off), attrs)
      decreases |blob| - off
    {
      attrs, off := OneV1Attribute(blob, off, attrs);
    }
  }

  lemma ShortAttribute(blob: Bytes, off: nat, attrs: map<nat, nat>)
    requires off + 4 <= |blob| && U16(blob[off..], 0) >= 0x8000
    ensures var rest := blob[off..];
            V1Attributes(Drop(blob, off), attrs) ==
            V1Attributes(Drop(blob, off + 4), attrs[U16(rest, 0) - 0x8000 := U16(rest, 2)])
  {
    assert blob[off..][4..] == Drop(blob, off + 4);
  }

  lemma LongAttribute(blob: Bytes, off: nat, attrs: map<nat, nat>)
    requires off + 4 <= |blob| && U16(blob[off..], 0) < 0x8000
    ensures var rest := blob[off..];
            var val := U16(rest, 2);
            V1Attributes(Drop(blob, off), attrs) ==
            V1Attributes(Drop(blob, off + 4 + val), Noted(attrs, U16(rest, 0), Slice(rest, 4, 4 + val)))
  {
    assert Drop(blob[off..], 4 + U16(blob[off..], 2)) == Drop(blob, off + 4 + U16(blob[off..], 2));
  }

  /** One pass through the loop: the attribute at `off`, and where the next one starts. */
  method OneV1Attribute(blob: Bytes, off: nat, attrs: map<nat, nat>) returns (more: map<nat, nat>, next: nat)
    requires off + 4 <= |blob|
    ensures next > off
    ensures V1Attributes(Drop(blob, off), attrs) == V1Attributes(Drop(blob, next), more)
  {
    var rest := blob[off..];
    var head, val := U16(rest, 0), U16(rest, 2);
    if head >= 0x8000 {
      ShortAttribute(blob, off, attrs);
      more, next := attrs[head - 0x8000 := val], off + 4;
    } else {
      LongAttribute(blob, off, attrs);
      more, next := Noted(attrs, head, Slice(rest, 4, 4 + val)), off + 4 + val;
    }
  }

  datatype FirstTransformView = FirstTransformView(protocolId: nat, transformId: nat, attrs: map<nat, nat>)

  /** A transform whose attributes are still bytes. */
  datatype RawTransform = RawTransform(protocolId: nat, transformId: nat, attributes: Bytes)

  /** The first transform of a proposal, given the proposal after its generic header. */
  function RawTransformIn(prop: Bytes): Result<RawTransform>
    requires |prop| >= 4
  {
    var toff := 4 + At(prop, 2);
    if toff + 8 > |prop| then WireFormatError
    else
      var tfLen := U16(prop, toff + 2);
      if tfLen < 8 || toff + tfLen > |prop| then WireFormatError
      else
        var body := prop[toff + 4..toff + tfLen];
        Ok(RawTransform(prop[1], body[1], body[4..]))
  }

  function TransformIn(prop: Bytes): Result<FirstTransformView>
    requires |prop| >= 4
  {
    match RawTransformIn(prop)
    case WireFormatError => WireFormatError
    case Ok(t) => Ok(FirstTransformView(t.protocolId, t.transformId, V1Attributes(t.attributes, map[])))
  }

  /** Domain of interpretation and situation, then a proposal, then its first transform. */
  function FirstTransform(sa: Bytes): Result<FirstTransformView> {
    if |sa| < 16 then WireFormatError
    else
      var propLen := U16(sa, 10);
      if propLen < 8 || 8 + propLen > |sa| then WireFormatError
      else TransformIn(sa[12..8 + propLen])
  }

  // ---------------------------------------------------------------------------
  // Encoder
  // ---------------------------------------------------------------------------

  datatype Attribute = Tv(atype: nat, value: nat) | Tlv(atype: nat, bytes: Bytes)

  predicate FitsAttribute(a: Attribute) {
    && a.atype < 0x8000
    && (a.Tv? ==> a.value < 0x1_0000)
    && (a.Tlv? ==> |a.bytes| < 0x1_0000)
  }

  function AttributeBytes(a: Attribute): Bytes
    requires FitsAttribute(a)
  {
    match a
    case Tv(t, v) => [Hi(0x8000 + t), Lo(0x8000 + t), Hi(v), Lo(v)]
    case Tlv(t, b) => [Hi(t), Lo(t), Hi(|b|), Lo(|b|)] + b
  }

  function AttributesBytes(attrs: seq<Attribute>): Bytes
    requires forall a :: a in attrs ==> FitsAttribute(a)
  {
    if attrs == [] then [] else AttributeBytes(attrs[0]) + AttributesBytes(attrs[1..])
  }

  function Say(a: Attribute, acc: map<nat, nat>): map<nat, nat> {
    match a
    case Tv(t, v) => acc[t := v]
    case Tlv(t, b) => Noted(acc, t, b)
  }

  /** What a list of attributes says: later ones win, and a TLV value outside one to eight bytes
      says nothing. */
  function Meaning(attrs: seq<Attribute>, acc: map<nat, nat>): map<nat, nat>
    decreases |attrs|
  {
    if attrs == [] then acc
    else Meaning(attrs[1..], Say(attrs[0], acc))
  }

  function TransformBody(transformId: byte, ab: Bytes): Bytes {
    [1, transformId, 0, 0] + ab
  }

  function ProposalHead(protocolId: byte, spi: Bytes): Bytes
    requires |spi| < 256
  {
    [1, protocolId, |spi|, 1] + spi
  }

  /** One proposal with one transform, behind the IPsec DOI and an identity-only situation. */
  function V1SaBytes(protocolId: byte, spi: Bytes, transformId: byte, attrs: seq<Attribute>): Bytes
    requires |spi| < 256
    requires forall a :: a in attrs ==> FitsAttribute(a)
    requires 16 + |spi| + |AttributesBytes(attrs)| < 0x1_0000
  {
    var ab := AttributesBytes(attrs);
    var transform := Gph(0, TransformBody(transformId, ab), false);
    var proposal := Gph(0, ProposalHead(protocolId, spi) + transform, false);
    Pack32(1) + Pack32(1) + proposal
  }

  // ---------------------------------------------------------------------------
  // Round trips
  // ---------------------------------------------------------------------------

  lemma AttributeStep(a: Attribute, rest: Bytes, acc: map<nat, nat>)
    requires FitsAttribute(a)
    ensures V1Attributes(AttributeBytes(a) + rest, acc) ==
            V1Attributes(rest, Say(a, acc))
  {
    var blob := AttributeBytes(a) + rest;
    match a {
      case Tv(t, v) =>
        assert U16(blob, 0) == 0x8000 + t && U16(blob, 2) == v;
        assert blob[4..] == rest;
      case Tlv(t, b) =>
        assert U16(blob, 0) == t && U16(blob, 2) == |b|;
        assert Slice(blob, 4, 4 + |b|) == b;
        assert Drop(blob, 4 + |b|) == rest;
    }
  }

  lemma {:induction false} AttributesRoundTrip(attrs: seq<Attribute>, acc: map<nat, nat>)
    requires forall a :: a in attrs ==> FitsAttribute(a)
    ensures V1Attributes(AttributesBytes(attrs), acc) == Meaning(attrs, acc)
    decreases |attrs|
  {
    if attrs != [] {
      AttributeStep(attrs[0], AttributesBytes(attrs[1..]), acc);
      AttributesRoundTrip(attrs[1..], Say(attrs[0], acc));
    }
  }

  lemma TransformInRoundTrip(protocolId: byte, spi: Bytes, transformId: byte, ab: Bytes)
    requires |spi| < 256 && 8 + |ab| < 0x1_0000
    ensures TransformIn(ProposalHead(protocolId, spi) + Gph(0, TransformBody(transformId, ab), false)) ==
            Ok(FirstTransformView(protocolId, transformId, V1Attributes(ab, map[])))
  {
    var tbody := TransformBody(transformId, ab);
    var transform := Gph(0, tbody, false);
    GphDecode(0, tbody, false, []);
    assert transform + [] == transform;
    TransformInAt(ProposalHead(protocolId, spi), transform);
    assert tbody[1] == transformId && tbody[4..] == ab;
  }

  lemma TransformInAt(head: Bytes, transform: Bytes)
    requires |head| >= 4 && |head| == 4 + At(head, 2)
    requires |transform| >= 8 && U16(transform, 2) == |transform|
    ensures RawTransformIn(head + transform) == Ok(RawTransform(head[1], transform[5], transform[8..]))
  {
    TransformBytesAt(head, transform);
    TransformInShape(head + transform, |head|, |transform|);
  }

  lemma TransformBytesAt(head: Bytes, transform: Bytes)
    requires |head| >= 4 && |transform| >= 8
    ensures var prop := head + transform;
            && prop[1] == head[1] && At(prop, 2) == At(head, 2) && prop[|head| + 5] == transform[5]
            && U16(prop, |head| + 2) == U16(transform, 2)
            && prop[|head| + 8..|head| + |transform|] == transform[8..]
  {
    ReadsAfter(head, transform, 2, 8, |transform|);
    assert transform[8..|transform|] == transform[8..];
  }

  lemma TransformInShape(prop: Bytes, toff: nat, len: nat)
    requires |prop| >= 4 && toff == 4 + At(prop, 2)
    requires 8 <= len && toff + len <= |prop| && U16(prop, toff + 2) == len
    ensures RawTransformIn(prop) == Ok(RawTransform(prop[1], prop[toff + 5], prop[toff + 8..toff + len]))
  {
    var body := prop[toff + 4..toff + len];
    assert body[1] == prop[toff + 5] && body[4..] == prop[toff + 8..toff + len];
  }

  lemma FirstTransformAt(sa: Bytes, prop: Bytes)
    requires |sa| >= 16 && |prop| >= 4 && 12 + |prop| <= |sa|
    requires U16(sa, 10) == 4 + |prop|
    requires sa[12..12 + |prop|] == prop
    ensures FirstTransform(sa) == TransformIn(prop)
  {
  }

  /** Reading at an offset past a prefix is reading in what follows it. */
  lemma ReadsAfter(a: Bytes, b: Bytes, i: nat, lo: nat, hi: nat)
    requires i + 2 <= |b| && lo <= hi <= |b|
    ensures U16(a + b, |a| + i) == U16(b, i)
    ensures (a + b)[|a| + lo..|a| + hi] == b[lo..hi]
  {
    assert (a + b)[|a| + i] == b[i] && (a + b)[|a| + i + 1] == b[i + 1];
  }

  /** Decoding inverts encoding: protocol, transform id and the meaning of every attribute. */
  lemma V1SaRoundTrip(protocolId: byte, spi: Bytes, transformId: byte, attrs: seq<Attribute>)
    requires |spi| < 256
    requires forall a :: a in attrs ==> FitsAttribute(a)
    requires 16 + |spi| + |AttributesBytes(attrs)| < 0x1_0000
    ensures FirstTransform(V1SaBytes(protocolId, spi, transformId, attrs)) ==
            Ok(FirstTransformView(protocolId, transformId, Meaning(attrs, map[])))
  {
    var ab := AttributesBytes(attrs);
    var pbody := ProposalHead(protocolId, spi) + Gph(0, TransformBody(transformId, ab), false);
    var proposal := Gph(0, pbody, false);
    GphDecode(0, pbody, false, []);
    assert proposal + [] == proposal;
    ReadsAfter(Pack32(1) + Pack32(1), proposal, 2, 4, 4 + |pbody|);
    FirstTransformAt(V1SaBytes(protocolId, spi, transformId, attrs), pbody);
    TransformInRoundTrip(protocolId, spi, transformId, ab);
    AttributesRoundTrip(attrs, map[]);
  }

  const V1_ATTR_ENCRYPTION := 1
  const V1_ATTR_HASH := 2
  const V1_ATTR_AUTH_METHOD := 3
  const V1_ATTR_GROUP_DESC := 4
  const V1_ATTR_LIFE_TYPE := 11
  const V1_ATTR_LIFE_DURATION := 12
  const V1_ATTR_KEY_LENGTH := 14
  const V1_LIFE_TYPE_SECONDS := 1

  /** The attributes of a phase-1 SA: the lifetime travels as a four-byte TLV. */
  function Phase1Attributes(enc: nat, hash: nat, auth: nat, group: nat,
                            keyLength: Option<nat>, lifeSec: Option<nat>): seq<Attribute>
    requires lifeSec.Some? ==> lifeSec.value < 0x1_0000_0000
  {
    [Tv(V1_ATTR_ENCRYPTION, enc), Tv(V1_ATTR_HASH, hash), Tv(V1_ATTR_AUTH_METHOD, auth), Tv(V1_ATTR_GROUP_DESC, group)]
    + (if keyLength.Some? then [Tv(V1_ATTR_KEY_LENGTH, keyLength.value)] else [])
    + (if lifeSec.Some?
       then [Tv(V1_ATTR_LIFE_TYPE, V1_LIFE_TYPE_SECONDS), Tlv(V1_ATTR_LIFE_DURATION, Pack32(lifeSec.value))]
       else [])
  }

  function Phase1SaBytes(enc: nat, hash: nat, auth: nat, group: nat,
                         keyLength: Option<nat>, lifeSec: Option<nat>): Bytes
    requires enc < 0x1_0000 && hash < 0x1_0000 && auth < 0x1_0000 && group < 0x1_0000
    requires keyLength.Some? ==> keyLength.value < 0x1_0000
    requires lifeSec.Some? ==> lifeSec.value < 0x1_0000_0000
  {
    var attrs := Phase1Attributes(enc, hash, auth, group, keyLength, lifeSec);
    AttributesLength(attrs);
    V1SaBytes(1, [], 1, attrs)
  }

  lemma {:induction false} AttributesLength(attrs: seq<Attribute>)
    requires forall a :: a in attrs ==> FitsAttribute(a) && (a.Tlv? ==> |a.bytes| <= 4)
    ensures |AttributesBytes(attrs)| <= 8 * |attrs|
  {
    if attrs != [] {
      AttributesLength(attrs[1..]);
    }
  }

  lemma BigEndianOfPack32(n: nat)
    requires n < 0x1_0000_0000
    ensures BigEndian(Pack32(n)) == n
  {
    var b := Pack32(n);
    assert b[..3] == [b[0], b[1], b[2]];
    assert b[..3][..2] == [b[0], b[1]];
    assert b[..3][..2][..1] == [b[0]];
    assert b[..3][..2][..1][..0] == [];
    assert BigEndian(b[..3][..2][..1]) == At(b, 0);
    assert BigEndian(b[..3][..2]) == At(b, 0) * 256 + At(b, 1);
    assert BigEndian(b[..3]) == (At(b, 0) * 256 + At(b, 1)) * 256 + At(b, 2);
    assert BigEndian(b) == ((At(b, 0) * 256 + At(b, 1)) * 256 + At(b, 2)) * 256 + At(b, 3);
  }

  /** What a phase-1 SA says, as the analyser looks it up. */
  function Phase1Meaning(enc: nat, hash: nat, auth: nat, group: nat,
                         keyLength: Option<nat>, lifeSec: Option<nat>): map<nat, nat> {
    var suite := map[V1_ATTR_ENCRYPTION := enc, V1_ATTR_HASH := hash,
                     V1_ATTR_AUTH_METHOD := auth, V1_ATTR_GROUP_DESC := group];
    var keyed := if keyLength.Some? then suite[V1_ATTR_KEY_LENGTH := keyLength.value] else suite;
    if lifeSec.Some?
    then keyed[V1_ATTR_LIFE_TYPE := V1_LIFE_TYPE_SECONDS][V1_ATTR_LIFE_DURATION := lifeSec.value]
    else keyed
  }

  /** A phase-1 SA with or without a key length and a lifetime decodes to exactly those values. */
  lemma Phase1RoundTrip(enc: nat, hash: nat, auth: nat, group: nat, keyLength: Option<nat>, lifeSec: Option<nat>)
    requires enc < 0x1_0000 && hash < 0x1_0000 && auth < 0x1_0000 && group < 0x1_0000
    requires keyLength.Some? ==> keyLength.value < 0x1_0000
    requires lifeSec.Some? ==> lifeSec.value < 0x1_0000_0000
    ensures FirstTransform(Phase1SaBytes(enc, hash, auth, group, keyLength, lifeSec)) ==
            Ok(FirstTransformView(1, 1, Phase1Meaning(enc, hash, auth, group, keyLength, lifeSec)))
  {
    var attrs := Phase1Attributes(enc, hash, auth, group, keyLength, lifeSec);
    AttributesLength(attrs);
    V1SaRoundTrip(1, [], 1, attrs);
    MeaningOfPhase1(enc, hash, auth, group, keyLength, lifeSec);
  }

  lemma {:induction false} MeaningAppend(a: seq<Attribute>, b: seq<Attribute>, acc: map<nat, nat>)
    ensures Meaning(a + b, acc) == Meaning(b, Meaning(a, acc))
    decreases |a|
  {
    if a == [] {
      assert a + b == b;
    } else {
      assert (a + b)[1..] == a[1..] + b;
      MeaningAppend(a[1..], b, Say(a[0], acc));
    }
  }

  lemma MeaningOfTwo(a: Attribute, b: Attribute, acc: map<nat, nat>)
    ensures Meaning([a, b], acc) == Say(b, Say(a, acc))
    ensures Meaning([a], acc) == Say(a, acc)
  {
    assert [a, b][1..] == [b] && [b][1..] == [] && [a][1..] == [];
    assert Meaning([a, b], acc) == Meaning([b], Say(a, acc));
    assert Meaning([b], Say(a, acc)) == Meaning([], Say(b, Say(a, acc)));
    assert Meaning([a], acc) == Meaning([], Say(a, acc));
  }

  lemma MeaningOfPhase1(enc: nat, hash: nat, auth: nat, group: nat, keyLength: Option<nat>, lifeSec: Option<nat>)
    requires lifeSec.Some? ==> lifeSec.value < 0x1_0000_0000
    ensures Meaning(Phase1Attributes(enc, hash, auth, group, keyLength, lifeSec), map[]) ==
            Phase1Meaning(enc, hash, auth, group, keyLength, lifeSec)
  {
    var e, h := Tv(V1_ATTR_ENCRYPTION, enc), Tv(V1_ATTR_HASH, hash);
    var m, g := Tv(V1_ATTR_AUTH_METHOD, auth), Tv(V1_ATTR_GROUP_DESC, group);
    var suite := [e, h, m, g];
    var key := if keyLength.Some? then [Tv(V1_ATTR_KEY_LENGTH, keyLength.value)] else [];
    var life := if lifeSec.Some?
       then [Tv(V1_ATTR_LIFE_TYPE, V1_LIFE_TYPE_SECONDS), Tlv(V1_ATTR_LIFE_DURATION, Pack32(lifeSec.value))]
       else [];
    MeaningAppend(suite + key, life, map[]);
    MeaningAppend(suite, key, map[]);
    assert suite == [e, h] + [m, g];
    MeaningAppend([e, h], [m, g], map[]);
    MeaningOfTwo(e, h, map[]);
    MeaningOfTwo(m, g, Say(h, Say(e, map[])));
    var said := Meaning(suite, map[]);
    assert said == map[V1_ATTR_ENCRYPTION := enc, V1_ATTR_HASH := hash,
                       V1_ATTR_AUTH_METHOD := auth, V1_ATTR_GROUP_DESC := group];
    if keyLength.Some? {
      MeaningOfTwo(key[0], key[0], said);
    }
    if lifeSec.Some? {
      BigEndianOfPack32(lifeSec.value);
      MeaningOfTwo(life[0], life[1], Meaning(key, said));
    }
  }

  // ---------------------------------------------------------------------------
  // What the reader does with a body, byte by byte
  // ---------------------------------------------------------------------------

  lemma SliceOfSlice(s: Bytes, lo: nat, hi: nat, i: nat, j: nat)
    requires lo <= hi <= |s| && i <= j <= hi - lo
    ensures s[lo..hi][i..j] == s[lo + i..lo + j]
  {
    var part, whole := s[lo..hi][i..j], s[lo + i..lo + j];
    forall k | 0 <= k < j - i ensures part[k] == whole[k] {
      assert s[lo..hi][i + k] == s[lo + (i + k)];
    }
  }

  /** Where a transform stands in a proposal from byte 12 to `end` of the body, and what it is. */
  lemma TransformStands(sa: Bytes, end: nat, at: nat)
    requires 16 <= end <= |sa| && at == 16 + At(sa, 14)
    ensures var r := RawTransformIn(sa[12..end]);
            && (at + 8 > end ==> r == WireFormatError)
            && (at + 8 <= end && (U16(sa, at + 2) < 8 || at + U16(sa, at + 2) > end) ==> r == WireFormatError)
            && (at + 8 <= end && U16(sa, at + 2) >= 8 && at + U16(sa, at + 2) <= end ==>
                  r == Ok(RawTransform(sa[13], sa[at + 5], sa[at + 8..at + U16(sa, at + 2)])))
  {
    var prop := sa[12..end];
    assert At(prop, 2) == At(sa, 14) && prop[1] == sa[13];
    if at + 8 <= end {
      var len := U16(sa, at + 2);
      assert U16(prop, at - 12 + 2) == len;
      if len >= 8 && at + len <= end {
        SliceOfSlice(sa, 12, end, at - 12 + 4, at - 12 + len);
        SliceOfSlice(sa, at + 4, at + len, 4, len - 4);
        assert sa[at + 4..at + len][1] == sa[at + 5];
      }
    }
  }

  /** An SA body: eight bytes before the proposal, whose length is in bytes 10 and 11 and whose protocol and
      SPI size are in bytes 13 and 14; its first transform's length and identifier follow the SPI.  A length
      that does not fit is an error. */
  lemma FirstTransformErrors(sa: Bytes)
    ensures |sa| < 16 ==> FirstTransform(sa) == WireFormatError
    ensures |sa| >= 16 && (U16(sa, 10) < 8 || 8 + U16(sa, 10) > |sa|) ==> FirstTransform(sa) == WireFormatError
    ensures |sa| >= 16 && U16(sa, 10) >= 8 && 8 + U16(sa, 10) <= |sa| ==>
              var end, at := 8 + U16(sa, 10), 16 + At(sa, 14);
              (at + 8 > end || U16(sa, at + 2) < 8 || at + U16(sa, at + 2) > end ==>
                 FirstTransform(sa) == WireFormatError)
  {
    if |sa| >= 16 && U16(sa, 10) >= 8 && 8 + U16(sa, 10) <= |sa| {
      TransformStands(sa, 8 + U16(sa, 10), 16 + At(sa, 14));
    }
  }

  lemma FirstTransformReads(sa: Bytes, end: nat, at: nat)
    requires |sa| >= 16 && end == 8 + U16(sa, 10) && 16 <= end <= |sa| && at == 16 + At(sa, 14) && at + 8 <= end
    requires U16(sa, at + 2) >= 8 && at + U16(sa, at + 2) <= end
    ensures FirstTransform(sa) ==
            Ok(FirstTransformView(sa[13], sa[at + 5], V1Attributes(sa[at + 8..at + U16(sa, at + 2)], map[])))
  {
    TransformStands(sa, end, at);
  }

  /** Attributes of two bytes of value carry the top bit; longer ones their length, and count when it is from
      one to eight. */
  lemma AttributeMeans(blob: Bytes, acc: map<nat, nat>)
    ensures |blob| < 4 ==> V1Attributes(blob, acc) == acc
    ensures |blob| >= 4 && U16(blob, 0) >= 32768 ==>
              V1Attributes(blob, acc) == V1Attributes(blob[4..], acc[U16(blob, 0) - 32768 := U16(blob, 2)])
    ensures |blob| >= 4 && U16(blob, 0) < 32768 && 4 + U16(blob, 2) <= |blob| ==>
              var v := blob[4..4 + U16(blob, 2)];
              V1Attributes(blob, acc) ==
              V1Attributes(blob[4 + U16(blob, 2)..], if 1 <= |v| <= 8 then acc[U16(blob, 0) := BigEndian(v)] else acc)
  {
    if |blob| >= 4 && U16(blob, 0) < 32768 && 4 + U16(blob, 2) <= |blob| {
      assert Slice(blob, 4, 4 + U16(blob, 2)) == blob[4..4 + U16(blob, 2)];
      assert Drop(blob, 4 + U16(blob, 2)) == blob[4 + U16(blob, 2)..];
    }
  }
}
