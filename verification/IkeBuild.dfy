/** The independent message encoder (tests/ike_parser/_build.py) and the round trips through
    the decoder.  Where the encoder packs a value into a fixed-width field, the value must fit:
    the encoder itself fails otherwise. */
module IkeBuild {
  import opened IkeWire
  import opened Wrappers

  function Hi(n: nat): byte
    requires n < 0x1_0000
  {
    n / 256
  }

  function Lo(n: nat): byte {
    n % 256
  }

  function Pack32(n: nat): Bytes
    requires n < 0x1_0000_0000
  {
    [Hi(n / 0x1_0000), Lo(n / 0x1_0000), Hi(n % 0x1_0000), Lo(n % 0x1_0000)]
  }

  // ---------------------------------------------------------------------------
  // Encoder
  // ---------------------------------------------------------------------------

  predicate FitsTransform(t: Transform) {
    t.ttype < 256 && t.id < 0x1_0000 && (t.keyLength.Some? ==> t.keyLength.value < 0x1_0000)
  }

  function KeyLengthBytes(key: Option<nat>): Bytes
    requires key.Some? ==> key.value < 0x1_0000
  {
    match key
    case None => []
    case Some(n) => [0x80, ATTR_KEY_LENGTH, Hi(n), Lo(n)]
  }

  function TransformBytes(last: bool, t: Transform): Bytes
    requires FitsTransform(t)
  {
    var attrs := KeyLengthBytes(t.keyLength);
    [if last then 0 else 3, 0, Hi(8 + |attrs|), Lo(8 + |attrs|), t.ttype, 0, Hi(t.id), Lo(t.id)] + attrs
  }

  function TransformsBytes(ts: seq<Transform>): Bytes
    requires forall t :: t in ts ==> FitsTransform(t)
  {
    if ts == [] then [] else TransformBytes(|ts| == 1, ts[0]) + TransformsBytes(ts[1..])
  }

  predicate FitsProposal(p: Proposal) {
    && p.number < 256 && p.protocolId < 256 && |p.spi| < 256 && |p.transforms| < 256
    && (forall t :: t in p.transforms ==> FitsTransform(t))
    && 8 + |p.spi| + |TransformsBytes(p.transforms)| < 0x1_0000
  }

  function ProposalBytes(last: bool, p: Proposal): Bytes
    requires FitsProposal(p)
  {
    var tb := TransformsBytes(p.transforms);
    var len := 8 + |p.spi| + |tb|;
    [if last then 0 else 2, 0, Hi(len), Lo(len), p.number, p.protocolId, |p.spi|, |p.transforms|] + (p.spi + tb)
  }

  function SaBytes(ps: seq<Proposal>): Bytes
    requires forall p :: p in ps ==> FitsProposal(p)
  {
    if ps == [] then [] else ProposalBytes(|ps| == 1, ps[0]) + SaBytes(ps[1..])
  }

  /** A payload to send: its type and its body. */
  datatype Part = Part(ptype: byte, body: Bytes)

  predicate Fits(p: Part) {
    4 + |p.body| < 0x1_0000
  }

  function Gph(next: byte, body: Bytes, critical: bool): Bytes
    requires 4 + |body| < 0x1_0000
  {
    [next, if critical then 0x80 else 0, Hi(4 + |body|), Lo(4 + |body|)] + body
  }

  function First(ps: seq<Part>): byte {
    if ps == [] then 0 else ps[0].ptype
  }

  function ChainBytes(ps: seq<Part>): Bytes
    requires forall p :: p in ps ==> Fits(p)
  {
    if ps == [] then []
    else
      assert Fits(ps[0]);
      Gph(First(ps[1..]), ps[0].body, false) + ChainBytes(ps[1..])
  }

  /** Everything in the fixed header but the payload chain and its length. */
  datatype Envelope = Envelope(initiatorSpi: Bytes, responderSpi: Bytes, version: byte, exchangeType: byte,
                               flags: byte, messageId: nat)

  predicate FitsEnvelope(e: Envelope, bodyLen: nat) {
    |e.initiatorSpi| == 8 && |e.responderSpi| == 8 && e.messageId < 0x1_0000_0000 && 28 + bodyLen < 0x1_0000_0000
  }

  function Enveloped(e: Envelope, first: byte, body: Bytes): Bytes
    requires FitsEnvelope(e, |body|)
  {
    (e.initiatorSpi + e.responderSpi)
    + ([first, e.version, e.exchangeType, e.flags] + Pack32(e.messageId) + Pack32(28 + |body|))
    + body
  }

  function MessageBytes(e: Envelope, ps: seq<Part>): Bytes
    requires forall p :: p in ps ==> Fits(p)
    requires FitsEnvelope(e, |ChainBytes(ps)|)
  {
    Enveloped(e, First(ps), ChainBytes(ps))
  }

  /** A message whose only payload is an SK envelope around a chain left in the clear. */
  function MessageSkBytes(e: Envelope, inner: seq<Part>): Bytes
    requires forall p :: p in inner ==> Fits(p)
    requires 4 + |ChainBytes(inner)| < 0x1_0000
    requires FitsEnvelope(e, 4 + |ChainBytes(inner)|)
  {
    Enveloped(e, PAYLOAD_SK, Gph(First(inner), ChainBytes(inner), false))
  }

  // ---------------------------------------------------------------------------
  // SA payload
  // ---------------------------------------------------------------------------

  lemma TransformBytesDecode(last: bool, t: Transform, rest: Bytes)
    requires FitsTransform(t)
    ensures var r := TransformBytes(last, t) + rest;
            && |r| >= 8 && 8 <= U16(r, 2) <= |r|
            && (r[0] == 0 <==> last)
            && TransformAt(r) == t
            && r[U16(r, 2)..] == rest
  {
    var attrs := KeyLengthBytes(t.keyLength);
    var r := TransformBytes(last, t) + rest;
    assert U16(r, 2) == 8 + |attrs|;
    assert U16(r, 6) == t.id;
    assert r[8..8 + |attrs|] == attrs;
    if t.keyLength.Some? {
      assert U16(attrs, 0) == 0x8000 + ATTR_KEY_LENGTH && U16(attrs, 2) == t.keyLength.value;
      assert attrs[4..] == [];
      assert Attributes(attrs, map[]) == map[ATTR_KEY_LENGTH := t.keyLength.value];
    }
    assert r[8 + |attrs|..] == rest;
  }

  lemma TransformsStep(ts: seq<Transform>, rest: Bytes)
    requires ts != [] && FitsTransform(ts[0])
    requires Transforms(rest) == Ok(ts[1..])
    ensures Transforms(TransformBytes(|ts| == 1, ts[0]) + rest) == Ok(ts)
  {
    var r := TransformBytes(|ts| == 1, ts[0]) + rest;
    TransformBytesDecode(|ts| == 1, ts[0], rest);
    if |ts| == 1 {
      assert ts == [ts[0]];
      assert Transforms(r) == Ok([ts[0]]);
    } else {
      assert ts == [ts[0]] + ts[1..];
      assert Transforms(r) == After([ts[0]], Transforms(rest));
    }
  }

  lemma {:induction false} TransformsRoundTrip(ts: seq<Transform>)
    requires forall t :: t in ts ==> FitsTransform(t)
    ensures Transforms(TransformsBytes(ts)) == Ok(ts)
  {
    if ts != [] {
      TransformsRoundTrip(ts[1..]);
      TransformsStep(ts, TransformsBytes(ts[1..]));
    }
  }

  lemma ProposalBytesDecode(last: bool, p: Proposal, rest: Bytes)
    requires FitsProposal(p)
    ensures var b := ProposalBytes(last, p) + rest;
            && |b| >= 8 && 8 <= U16(b, 2) <= |b|
            && (b[0] == 0 <==> last)
            && b[4] == p.number && b[5] == p.protocolId
            && Slice(b, 8, 8 + At(b, 6)) == p.spi
            && TransformRegion(b) == TransformsBytes(p.transforms)
            && b[U16(b, 2)..] == rest
  {
    var tb := TransformsBytes(p.transforms);
    var b := ProposalBytes(last, p) + rest;
    var n := |p.spi|;
    var len := 8 + n + |tb|;
    assert U16(b, 2) == len;
    assert At(b, 6) == n;
    assert b[8..8 + n] == p.spi;
    assert b[8 + n..len] == tb;
    assert b[len..] == rest;
  }

  lemma ProposalsStep(ps: seq<Proposal>, rest: Bytes)
    requires ps != [] && FitsProposal(ps[0])
    requires Proposals(rest) == Ok(ps[1..])
    ensures Proposals(ProposalBytes(|ps| == 1, ps[0]) + rest) == Ok(ps)
  {
    var b := ProposalBytes(|ps| == 1, ps[0]) + rest;
    OneProposal(|ps| == 1, ps[0], rest);
    if |ps| == 1 {
      assert ps == [ps[0]];
    } else {
      assert ps == [ps[0]] + ps[1..];
    }
  }

  lemma OneProposal(last: bool, p: Proposal, rest: Bytes)
    requires FitsProposal(p)
    ensures Proposals(ProposalBytes(last, p) + rest) == if last then Ok([p]) else After([p], Proposals(rest))
  {
    ProposalBytesDecode(last, p, rest);
    TransformsRoundTrip(p.transforms);
    ProposalsOfOne(ProposalBytes(last, p) + rest, p, rest);
  }

  lemma ProposalsOfOne(b: Bytes, p: Proposal, rest: Bytes)
    requires |b| >= 8 && 8 <= U16(b, 2) <= |b| && b[U16(b, 2)..] == rest
    requires b[4] == p.number && b[5] == p.protocolId && Slice(b, 8, 8 + At(b, 6)) == p.spi
    requires Transforms(TransformRegion(b)) == Ok(p.transforms)
    ensures Proposals(b) == if b[0] == 0 then Ok([p]) else After([p], Proposals(rest))
  {
    assert Proposal(b[4], b[5], p.spi, p.transforms) == p;
  }

  /** Any number of proposals, each with any number of transforms and optional key lengths. */
  lemma {:induction false} SaRoundTrip(ps: seq<Proposal>)
    requires forall p :: p in ps ==> FitsProposal(p)
    ensures Proposals(SaBytes(ps)) == Ok(ps)
  {
    if ps != [] {
      var rest := SaBytes(ps[1..]);
      ProposalBytesDecode(|ps| == 1, ps[0], rest);
      SaRoundTrip(ps[1..]);
      ProposalsStep(ps, rest);
    }
  }

  // ---------------------------------------------------------------------------
  // Payload chains
  // ---------------------------------------------------------------------------

  lemma GphDecode(next: byte, body: Bytes, critical: bool, rest: Bytes)
    requires 4 + |body| < 0x1_0000
    ensures var data := Gph(next, body, critical) + rest;
            && HeaderFits(data) && U16(data, 2) == 4 + |body|
            && data[0] == next && (data[1] >= 0x80 <==> critical)
            && data[4..4 + |body|] == body
            && data[4 + |body|..] == rest
  {
    var data := Gph(next, body, critical) + rest;
    assert U16(data, 2) == 4 + |body|;
  }

  /** What a sent payload decodes to. */
  function Received(p: Part): Payload {
    Payload(p.ptype, false, p.body, ViewOrPlain(p.ptype, p.body), true, [])
  }

  function ReceivedAll(ps: seq<Part>): (r: seq<Payload>)
    ensures |r| == |ps|
    ensures forall i :: 0 <= i < |ps| ==> r[i] == Received(ps[i])
  {
    if ps == [] then [] else [Received(ps[0])] + ReceivedAll(ps[1..])
  }

  ghost predicate Sendable(ps: seq<Part>) {
    forall p :: p in ps ==> Fits(p) && p.ptype != 0
  }

  ghost predicate WellFormedBodies(ps: seq<Part>) {
    forall p :: p in ps ==> Decorate(p.ptype, p.body).Ok?
  }

  lemma {:induction false} LenientChainRoundTrip(ps: seq<Part>)
    requires Sendable(ps)
    requires forall p :: p in ps ==> p.ptype != PAYLOAD_SK
    ensures LenientChain(ChainBytes(ps), First(ps)) == Chain(ReceivedAll(ps), false)
  {
    if ps != [] {
      assert ps[0] in ps && forall p :: p in ps[1..] ==> p in ps;
      GphDecode(First(ps[1..]), ps[0].body, false, ChainBytes(ps[1..]));
      LenientChainRoundTrip(ps[1..]);
    }
  }

  /** The strict framer reads a sent chain back exactly when every body is well formed. */
  lemma {:induction false} FrameChainRoundTrip(ps: seq<Part>)
    requires Sendable(ps)
    ensures FrameChain(ChainBytes(ps), First(ps)) ==
            if WellFormedBodies(ps) then Ok(ReceivedAll(ps)) else WireFormatError
  {
    if ps != [] {
      assert ps[0] in ps && forall p :: p in ps[1..] ==> p in ps;
      assert WellFormedBodies(ps) <==> Decorate(ps[0].ptype, ps[0].body).Ok? && WellFormedBodies(ps[1..]) by {
        assert forall p :: p in ps ==> p == ps[0] || p in ps[1..];
      }
      GphDecode(First(ps[1..]), ps[0].body, false, ChainBytes(ps[1..]));
      FrameChainRoundTrip(ps[1..]);
    }
  }

  // ---------------------------------------------------------------------------
  // Whole messages
  // ---------------------------------------------------------------------------

  lemma Pack32Decode(a: Bytes, n: nat, b: Bytes)
    requires n < 0x1_0000_0000
    ensures U32(a + Pack32(n) + b, |a|) == n
  {
    var s := a + Pack32(n) + b;
    assert s[|a|] == Hi(n / 0x1_0000) && s[|a| + 1] == Lo(n / 0x1_0000);
    assert s[|a| + 2] == Hi(n % 0x1_0000) && s[|a| + 3] == Lo(n % 0x1_0000);
    assert U16(s, |a|) == n / 0x1_0000;
    assert U16(s, |a| + 2) == n % 0x1_0000;
  }

  lemma EnvelopeDecode(e: Envelope, first: byte, body: Bytes)
    requires FitsEnvelope(e, |body|)
    ensures var raw := Enveloped(e, first, body);
            && |raw| == 28 + |body|
            && Header(raw) == Message(e.initiatorSpi, e.responderSpi, first, e.version, e.exchangeType, e.flags,
                                      e.messageId, 28 + |body|, [], false, false)
            && raw[IKE_HEADER_LEN..] == body
  {
    var raw := Enveloped(e, first, body);
    var spis := e.initiatorSpi + e.responderSpi;
    var fixed := [first, e.version, e.exchangeType, e.flags];
    assert raw == (spis + fixed) + Pack32(e.messageId) + (Pack32(28 + |body|) + body);
    Pack32Decode(spis + fixed, e.messageId, Pack32(28 + |body|) + body);
    assert raw == (spis + fixed + Pack32(e.messageId)) + Pack32(28 + |body|) + body;
    Pack32Decode(spis + fixed + Pack32(e.messageId), 28 + |body|, body);
    assert raw[0..8] == e.initiatorSpi && raw[8..16] == e.responderSpi;
    assert raw[16] == first && raw[17] == e.version && raw[18] == e.exchangeType && raw[19] == e.flags;
  }

  predicate EncryptedV1(e: Envelope) {
    e.version == IKE_VERSION_1 && e.flags % 2 == 1
  }

  /** Decoding inverts encoding: header and payload chain. */
  lemma MessageRoundTrip(e: Envelope, ps: seq<Part>)
    requires Sendable(ps) && FitsEnvelope(e, |ChainBytes(ps)|)
    requires forall p :: p in ps ==> p.ptype != PAYLOAD_SK
    requires !EncryptedV1(e)
    ensures Decode(MessageBytes(e, ps)) ==
            Ok(Message(e.initiatorSpi, e.responderSpi, First(ps), e.version, e.exchangeType, e.flags, e.messageId,
                       28 + |ChainBytes(ps)|, ReceivedAll(ps), false, false))
  {
    EnvelopeDecode(e, First(ps), ChainBytes(ps));
    HeaderBytes(MessageBytes(e, ps));
    LenientChainRoundTrip(ps);
    DecodeInTheClear(MessageBytes(e, ps));
  }

  lemma DecodeInTheClear(raw: Bytes)
    requires |raw| >= IKE_HEADER_LEN && !V1Encrypted(raw)
    ensures var chain := LenientChain(raw[IKE_HEADER_LEN..], raw[16]);
            Decode(raw) == Ok(Header(raw).(payloads := chain.payloads,
                                           truncated := Header(raw).truncated || chain.truncated))
  {
  }

  lemma HeaderBytes(raw: Bytes)
    requires |raw| >= IKE_HEADER_LEN
    ensures Header(raw).nextPayload == raw[16] && Header(raw).version == raw[17] && Header(raw).flags == raw[19]
    ensures Header(raw).truncated == DeclaredTooLong(raw)
  {
  }

  /** A clear chain inside an SK envelope is recovered exactly when all its bodies are well
      formed; otherwise the envelope stays opaque, and nothing is invented. */
  lemma SkMessageRoundTrip(e: Envelope, inner: seq<Part>)
    requires Sendable(inner) && 4 + |ChainBytes(inner)| < 0x1_0000
    requires FitsEnvelope(e, 4 + |ChainBytes(inner)|)
    requires !EncryptedV1(e)
    ensures var sk := Payload(PAYLOAD_SK, false, ChainBytes(inner), Plain, !WellFormedBodies(inner),
                              if WellFormedBodies(inner) then ReceivedAll(inner) else []);
            Decode(MessageSkBytes(e, inner)) ==
            Ok(Message(e.initiatorSpi, e.responderSpi, PAYLOAD_SK, e.version, e.exchangeType, e.flags, e.messageId,
                       32 + |ChainBytes(inner)|, [sk], false, false))
  {
    var body := Gph(First(inner), ChainBytes(inner), false);
    EnvelopeDecode(e, PAYLOAD_SK, body);
    HeaderBytes(MessageSkBytes(e, inner));
    GphDecode(First(inner), ChainBytes(inner), false, []);
    assert body + [] == body;
    FrameChainRoundTrip(inner);
  }

  /** The readable body of an "encrypted" IKEv1 message, on the same terms. */
  lemma EncryptedV1RoundTrip(e: Envelope, ps: seq<Part>)
    requires Sendable(ps) && FitsEnvelope(e, |ChainBytes(ps)|)
    requires EncryptedV1(e)
    ensures Decode(MessageBytes(e, ps)) ==
            Ok(Message(e.initiatorSpi, e.responderSpi, First(ps), e.version, e.exchangeType, e.flags, e.messageId,
                       28 + |ChainBytes(ps)|, if WellFormedBodies(ps) then ReceivedAll(ps) else [],
                       false, !WellFormedBodies(ps)))
  {
    EnvelopeDecode(e, First(ps), ChainBytes(ps));
    HeaderBytes(MessageBytes(e, ps));
    FrameChainRoundTrip(ps);
  }

  // ---------------------------------------------------------------------------
  // Payload contents
  // ---------------------------------------------------------------------------

  /** What a payload says, before it is bytes. */
  datatype Content =
    | SaContent(proposals: seq<Proposal>)
    | KeContent(group: nat, publicValue: Bytes)
    | NotifyContent(ntype: nat, protocolId: byte, spi: Bytes, data: Bytes)
    | AuthContent(authMethod: byte, data: Bytes)
    | IdContent(responder: bool, idType: byte, data: Bytes)
    | OtherContent(ptype: byte, body: Bytes)

  predicate FitsContent(c: Content) {
    match c
    case SaContent(ps) => forall p :: p in ps ==> FitsProposal(p)
    case KeContent(group, _) => group < 0x1_0000
    case NotifyContent(ntype, _, spi, _) => ntype < 0x1_0000 && |spi| < 256
    case AuthContent(_, _) => true
    case IdContent(_, _, _) => true
    case OtherContent(t, _) =>
      t !in {0, PAYLOAD_SA, PAYLOAD_KE, PAYLOAD_IDI, PAYLOAD_IDR, PAYLOAD_AUTH, PAYLOAD_NOTIFY, PAYLOAD_SK}
  }

  function PartOf(c: Content): Part
    requires FitsContent(c)
  {
    match c
    case SaContent(ps) => Part(PAYLOAD_SA, SaBytes(ps))
    case KeContent(group, v) => Part(PAYLOAD_KE, [Hi(group), Lo(group), 0, 0] + v)
    case NotifyContent(n, protocolId, spi, data) =>
      Part(PAYLOAD_NOTIFY, [protocolId, |spi|, Hi(n), Lo(n)] + (spi + data))
    case AuthContent(m, data) => Part(PAYLOAD_AUTH, [m, 0, 0, 0] + data)
    case IdContent(responder, t, data) => Part(if responder then PAYLOAD_IDR else PAYLOAD_IDI, [t, 0, 0, 0] + data)
    case OtherContent(t, body) => Part(t, body)
  }

  /** The decoded form of the same content. */
  function ViewOf(c: Content): View {
    match c
    case SaContent(ps) => SaView(ps)
    case KeContent(group, _) => KeView(group)
    case NotifyContent(n, protocolId, spi, data) => NotifyView(n, protocolId, spi, data)
    case AuthContent(m, _) => AuthView(m)
    case IdContent(_, t, data) => IdView(t, data)
    case OtherContent(_, _) => Plain
  }

  lemma ContentReadsBack(c: Content)
    requires FitsContent(c)
    ensures Decorate(PartOf(c).ptype, PartOf(c).body) == Ok(ViewOf(c))
  {
    var body := PartOf(c).body;
    match c
    case SaContent(ps) => SaRoundTrip(ps);
    case KeContent(group, v) => assert U16(body, 0) == group;
    case NotifyContent(n, protocolId, spi, data) => NotifyReadsBack(n, protocolId, spi, data);
    case AuthContent(m, data) => assert body[0] == m;
    case IdContent(_, t, data) => assert body[4..] == data;
    case OtherContent(_, _) =>
  }

  lemma NotifyReadsBack(n: nat, protocolId: byte, spi: Bytes, data: Bytes)
    requires n < 0x1_0000 && |spi| < 256
    ensures Decorate(PAYLOAD_NOTIFY, [protocolId, |spi|, Hi(n), Lo(n)] + (spi + data)) ==
            Ok(NotifyView(n, protocolId, spi, data))
  {
    var head: Bytes := [protocolId, |spi|, Hi(n), Lo(n)];
    var body := head + (spi + data);
    assert U16(body, 2) == n && At(body, 1) == |spi|;
    assert body == (head + spi) + data;
    assert Slice(body, 4, 4 + |spi|) == spi;
    assert Drop(body, 4 + |spi|) == data;
  }

  predicate FitsContents(cs: seq<Content>) {
    forall i :: 0 <= i < |cs| ==> FitsContent(cs[i]) && Fits(PartOf(cs[i]))
  }

  function Parts(cs: seq<Content>): (ps: seq<Part>)
    requires FitsContents(cs)
    ensures |ps| == |cs| && forall i :: 0 <= i < |cs| ==> ps[i] == PartOf(cs[i])
  {
    seq(|cs|, i requires 0 <= i < |cs| => PartOf(cs[i]))
  }

  /** The decoded payloads say what was sent, in order. */
  ghost predicate Says(ps: seq<Payload>, cs: seq<Content>) {
    && |ps| == |cs|
    && forall i :: 0 <= i < |cs| && FitsContent(cs[i]) ==>
         ps[i].ptype == PartOf(cs[i]).ptype && ps[i].raw == PartOf(cs[i]).body && ps[i].view == ViewOf(cs[i])
  }

  lemma ContentsAreReceived(cs: seq<Content>)
    requires FitsContents(cs)
    ensures Sendable(Parts(cs)) && WellFormedBodies(Parts(cs))
    ensures forall p :: p in Parts(cs) ==> p.ptype != PAYLOAD_SK
    ensures Says(ReceivedAll(Parts(cs)), cs)
  {
    forall i | 0 <= i < |cs|
      ensures Decorate(Parts(cs)[i].ptype, Parts(cs)[i].body) == Ok(ViewOf(cs[i]))
    {
      ContentReadsBack(cs[i]);
    }
  }

  /** Main result.  Whatever list of contents is put into a message, decoding its bytes gives the
      same contents back. */
  lemma ContentsRoundTrip(e: Envelope, cs: seq<Content>)
    requires FitsContents(cs) && FitsEnvelope(e, |ChainBytes(Parts(cs))|)
    requires !EncryptedV1(e)
    ensures Decode(MessageBytes(e, Parts(cs))).Ok?
    ensures Says(Decode(MessageBytes(e, Parts(cs))).value.payloads, cs)
  {
    ContentsAreReceived(cs);
    MessageRoundTrip(e, Parts(cs));
  }

  /** The same for contents inside an SK envelope left in the clear. */
  lemma SealedContentsRoundTrip(e: Envelope, cs: seq<Content>)
    requires FitsContents(cs) && 4 + |ChainBytes(Parts(cs))| < 0x1_0000
    requires FitsEnvelope(e, 4 + |ChainBytes(Parts(cs))|)
    requires !EncryptedV1(e)
    ensures Decode(MessageSkBytes(e, Parts(cs))).Ok?
    ensures var sealed := Decode(MessageSkBytes(e, Parts(cs))).value.payloads;
            |sealed| == 1 && sealed[0].ptype == PAYLOAD_SK && !sealed[0].skOpaque && Says(sealed[0].inner, cs)
  {
    ContentsAreReceived(cs);
    SkMessageRoundTrip(e, Parts(cs));
  }
}
