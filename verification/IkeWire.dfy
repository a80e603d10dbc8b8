/** The IKE message decoder (core/ike_parser/_wire.py): fixed header, payload chain, SA
    proposals and transforms, and the best-effort reading of an SK payload or an encrypted
    IKEv1 body.  RFC 7296 sections 3.1 to 3.3.5 and 3.14.

    Each loop of the decoder is a method proved equal to a recursive function on what is left
    of the buffer; the functions carry the properties. */
module IkeWire {
  import opened Wrappers

  type byte = x: int | 0 <= x < 256
  type Bytes = seq<byte>

  datatype Result<+T> = Ok(value: T) | WireFormatError

  const IKE_HEADER_LEN := 28
  const IKE_VERSION_2: byte := 0x20
  const IKE_VERSION_1: byte := 0x10
  const PAYLOAD_SA: byte := 33
  const PAYLOAD_KE: byte := 34
  const PAYLOAD_IDI: byte := 35
  const PAYLOAD_IDR: byte := 36
  const PAYLOAD_AUTH: byte := 39
  const PAYLOAD_NOTIFY: byte := 41
  const PAYLOAD_SK: byte := 46
  const ATTR_KEY_LENGTH := 14
  const TRANSFORM_TYPE_DH := 4

  datatype Transform = Transform(ttype: nat, id: nat, keyLength: Option<nat>)

  datatype Proposal = Proposal(number: nat, protocolId: nat, spi: Bytes, transforms: seq<Transform>)

  /** The per-type fields a payload gains when its body is well formed. */
  datatype View =
    | Plain
    | SaView(proposals: seq<Proposal>)
    | KeView(group: nat)
    | NotifyView(ntype: nat, protocolId: nat, spi: Bytes, data: Bytes)
    | AuthView(authMethod: nat)
    | IdView(idType: nat, idData: Bytes)

  datatype Payload = Payload(ptype: byte, critical: bool, raw: Bytes, view: View, skOpaque: bool, inner: seq<Payload>)

  datatype Message = Message(
    initiatorSpi: Bytes, responderSpi: Bytes, nextPayload: byte, version: byte, exchangeType: byte,
    flags: byte, messageId: nat, length: nat, payloads: seq<Payload>, truncated: bool, encrypted: bool)

  function At(b: Bytes, i: nat): (n: nat)
    requires i < |b|
    ensures n < 256
  {
    b[i]
  }

  function U16(b: Bytes, off: nat): (n: nat)
    requires off + 2 <= |b|
    ensures n < 0x1_0000
  {
    At(b, off) * 256 + At(b, off + 1)
  }

  function U32(b: Bytes, off: nat): nat
    requires off + 4 <= |b|
  {
    U16(b, off) * 0x1_0000 + U16(b, off + 2)
  }

  /** A slice that stops at the end of the buffer, as the source language's does. */
  function Slice(b: Bytes, lo: nat, hi: nat): Bytes {
    if lo >= |b| || hi <= lo then [] else if hi > |b| then b[lo..] else b[lo..hi]
  }

  function Drop(b: Bytes, n: nat): (r: Bytes)
    ensures |r| <= |b|
  {
    if n >= |b| then [] else b[n..]
  }

  /** What a loop that has collected `done` returns, given what the rest of it would. */
  function After<T>(done: seq<T>, rest: Result<seq<T>>): Result<seq<T>> {
    match rest
    case Ok(more) => Ok(done + more)
    case WireFormatError => WireFormatError
  }

  lemma AfterNothing<T>(rest: Result<seq<T>>)
    ensures After([], rest) == rest
  {
    if rest.Ok? {
      assert [] + rest.value == rest.value;
    }
  }

  lemma AfterOneMore<T>(done: seq<T>, x: T, rest: Result<seq<T>>)
    ensures After(done, After([x], rest)) == After(done + [x], rest)
  {
    if rest.Ok? {
      assert done + ([x] + rest.value) == (done + [x]) + rest.value;
    }
  }

  lemma AfterStep<T>(whole: Result<seq<T>>, done: seq<T>, left: Result<seq<T>>, x: T, rest: Result<seq<T>>)
    requires whole == After(done, left) && left == After([x], rest)
    ensures whole == After(done + [x], rest)
  {
    AfterOneMore(done, x, rest);
  }

  lemma TakeSlices(s: Bytes, k: nat, i: nat, j: nat)
    requires i <= j <= k <= |s|
    ensures s[..k][i..j] == s[i..j]
    ensures s[..k][j..] == s[j..][..k - j]
  {
  }

  // ---------------------------------------------------------------------------
  // Specification: what each loop computes, on the bytes that are left
  // ---------------------------------------------------------------------------

  /** Fixed-length attributes only; a later attribute of the same type wins. */
  function Attributes(blob: Bytes, acc: map<nat, nat>): map<nat, nat>
    decreases |blob|
  {
    if |blob| < 4 then acc
    else
      var head, val := U16(blob, 0), U16(blob, 2);
      if head >= 0x8000 then Attributes(blob[4..], acc[head - 0x8000 := val])
      else Attributes(Drop(blob, 4 + val), acc)
  }

  function KeyLength(attrs: map<nat, nat>): Option<nat> {
    if ATTR_KEY_LENGTH in attrs then Some(attrs[ATTR_KEY_LENGTH]) else None
  }

  function TransformAt(r: Bytes): Transform
    requires |r| >= 8 && 8 <= U16(r, 2) <= |r|
  {
    Transform(r[4], U16(r, 6), KeyLength(Attributes(r[8..U16(r, 2)], map[])))
  }

  function Transforms(r: Bytes): Result<seq<Transform>>
    decreases |r|
  {
    if |r| < 8 then Ok([])
    else
      var len := U16(r, 2);
      if len < 8 || len > |r| then WireFormatError
      else if r[0] == 0 then Ok([TransformAt(r)])
      else After([TransformAt(r)], Transforms(r[len..]))
  }

  /** The part of a proposal after its fixed fields and SPI. */
  function TransformRegion(b: Bytes): Bytes
    requires |b| >= 8 && U16(b, 2) <= |b|
  {
    if 8 + At(b, 6) <= U16(b, 2) then b[8 + At(b, 6)..U16(b, 2)] else []
  }

  function Proposals(b: Bytes): Result<seq<Proposal>>
    decreases |b|
  {
    if |b| < 8 then Ok([])
    else
      var len := U16(b, 2);
      if len < 8 || len > |b| then WireFormatError
      else match Transforms(TransformRegion(b))
        case WireFormatError => WireFormatError
        case Ok(ts) =>
          var p := Proposal(b[4], b[5], Slice(b, 8, 8 + At(b, 6)), ts);
          if b[0] == 0 then Ok([p])
          else After([p], Proposals(b[len..]))
  }

  function Decorate(ptype: byte, raw: Bytes): Result<View> {
    if ptype == PAYLOAD_SA then
      match Proposals(raw)
      case Ok(ps) => Ok(SaView(ps))
      case WireFormatError => WireFormatError
    else if ptype == PAYLOAD_KE then
      if |raw| < 4 then WireFormatError else Ok(KeView(U16(raw, 0)))
    else if ptype == PAYLOAD_NOTIFY then
      if |raw| < 4 then WireFormatError
      else Ok(NotifyView(U16(raw, 2), raw[0], Slice(raw, 4, 4 + At(raw, 1)), Drop(raw, 4 + At(raw, 1))))
    else if ptype == PAYLOAD_AUTH then
      if |raw| < 4 then WireFormatError else Ok(AuthView(raw[0]))
    else if ptype == PAYLOAD_IDI || ptype == PAYLOAD_IDR then
      if |raw| < 4 then WireFormatError else Ok(IdView(raw[0], raw[4..]))
    else Ok(Plain)
  }

  predicate HeaderFits(data: Bytes) {
    |data| >= 4 && 4 <= U16(data, 2) <= |data|
  }

  function Framed(ptype: byte, data: Bytes, view: View): Payload
    requires HeaderFits(data)
  {
    Payload(ptype, data[1] >= 0x80, data[4..U16(data, 2)], view, true, [])
  }

  /** The strict framer: every byte belongs to a well-formed payload, or nothing is returned. */
  function FrameChain(data: Bytes, next: byte): Result<seq<Payload>>
    decreases |data|
  {
    if next == 0 then
      if data == [] then Ok([]) else WireFormatError
    else if !HeaderFits(data) then WireFormatError
    else
      var len := U16(data, 2);
      match Decorate(next, data[4..len])
      case WireFormatError => WireFormatError
      case Ok(view) => After([Framed(next, data, view)], FrameChain(data[len..], data[0]))
  }

  function SkPayload(data: Bytes): Payload
    requires HeaderFits(data)
  {
    var raw := data[4..U16(data, 2)];
    match FrameChain(raw, data[0])
    case Ok(inner) => Payload(PAYLOAD_SK, data[1] >= 0x80, raw, Plain, false, inner)
    case WireFormatError => Payload(PAYLOAD_SK, data[1] >= 0x80, raw, Plain, true, [])
  }

  datatype Chain = Chain(payloads: seq<Payload>, truncated: bool)

  function AfterChain(done: seq<Payload>, rest: Chain): Chain {
    rest.(payloads := done + rest.payloads)
  }

  lemma AfterChainOneMore(done: seq<Payload>, p: Payload, rest: Chain)
    ensures AfterChain([], rest) == rest
    ensures AfterChain(done, AfterChain([p], rest)) == AfterChain(done + [p], rest)
  {
    assert [] + rest.payloads == rest.payloads;
    assert done + ([p] + rest.payloads) == (done + [p]) + rest.payloads;
  }

  function ViewOrPlain(ptype: byte, raw: Bytes): View {
    match Decorate(ptype, raw)
    case Ok(view) => view
    case WireFormatError => Plain
  }

  /** The lenient decoder's chain: it keeps what it could frame and stops at an SK payload. */
  function LenientChain(body: Bytes, next: byte): Chain
    decreases |body|
  {
    if next == 0 then Chain([], false)
    else if !HeaderFits(body) then Chain([], true)
    else if next == PAYLOAD_SK then Chain([SkPayload(body)], false)
    else
      var len := U16(body, 2);
      AfterChain([Framed(next, body, ViewOrPlain(next, body[4..len]))], LenientChain(body[len..], body[0]))
  }

  predicate V1Encrypted(raw: Bytes)
    requires |raw| >= IKE_HEADER_LEN
  {
    raw[17] == IKE_VERSION_1 && raw[19] % 2 == 1
  }

  predicate DeclaredTooLong(raw: Bytes)
    requires |raw| >= IKE_HEADER_LEN
  {
    U32(raw, 24) > |raw|
  }

  function Header(raw: Bytes): Message
    requires |raw| >= IKE_HEADER_LEN
  {
    Message(raw[0..8], raw[8..16], raw[16], raw[17], raw[18], raw[19], U32(raw, 20), U32(raw, 24),
            [], DeclaredTooLong(raw), false)
  }

  function Decode(raw: Bytes): Result<Message> {
    if |raw| < IKE_HEADER_LEN then WireFormatError
    else
      var msg := Header(raw);
      var body := raw[IKE_HEADER_LEN..];
      if V1Encrypted(raw) then
        match FrameChain(body, raw[16])
        case Ok(ps) => Ok(msg.(payloads := ps))
        case WireFormatError => Ok(msg.(encrypted := true))
      else
        var chain := LenientChain(body, raw[16]);
        Ok(msg.(payloads := chain.payloads, truncated := msg.truncated || chain.truncated))
  }

  // ---------------------------------------------------------------------------
  // The decoder's loops
  // ---------------------------------------------------------------------------

  method ParseTransformAttributes(blob: Bytes) returns (attrs: map<nat, nat>)
    ensures attrs == Attributes(blob, map[])
  {
    attrs := map[];
    var off := 0;
    while off + 4 <= |blob|
      invariant 0 <= off
      invariant Attributes(blob, map[]) == Attributes(Drop(blob, off), attrs)
      decreases |blob| - off
    {
      var rest := blob[off..];
      var head, val := U16(rest, 0), U16(rest, 2);
      if head >= 0x8000 {
        attrs := attrs[head - 0x8000 := val];
        off := off + 4;
        assert rest[4..] == Drop(blob, off);
      } else {
        off := off + 4 + val;
        assert Drop(rest, 4 + val) == Drop(blob, off);
      }
    }
  }

  /** The transforms of one proposal: `end` is the proposal's end within `body`. */
  method ParseTransforms(body: Bytes, start: nat, end: nat) returns (r: Result<seq<Transform>>)
    requires end <= |body|
    ensures r == Transforms(if start <= end then body[start..end] else [])
  {
    if start > end {
      return Ok([]);
    }
    var ts: seq<Transform> := [];
    var toff, over := start, false;
    ghost var whole := Transforms(body[start..end]);
    AfterNothing(whole);
    while toff + 8 <= end
      invariant start <= toff <= end
      invariant whole == After(ts, Transforms(body[toff..end]))
      decreases end - toff
    {
      over, r, ts, toff := TransformStep(whole, body, toff, end, ts);
      if over {
        return;
      }
    }
    assert ts + [] == ts;
    r := Ok(ts);
  }

  /** One pass through the loop: it returns, or moves past one transform. */
  method TransformStep(ghost whole: Result<seq<Transform>>, body: Bytes, toff: nat, end: nat, ts: seq<Transform>)
    returns (over: bool, r: Result<seq<Transform>>, more: seq<Transform>, next: nat)
    requires toff + 8 <= end <= |body| && whole == After(ts, Transforms(body[toff..end]))
    ensures over ==> r == whole
    ensures !over ==> toff < next <= end && whole == After(more, Transforms(body[next..end]))
  {
    r, more, next := WireFormatError, ts, toff;
    var t, len := ParseTransform(body, toff, end);
    if t.WireFormatError? {
      return true, r, more, next;
    }
    more, next := ts + [t.value], toff + len;
    if body[toff] == 0 {
      return true, Ok(more), more, next;
    }
    AfterStep(whole, ts, Transforms(body[toff..end]), t.value, Transforms(body[next..end]));
    over := false;
  }

  /** The transform at `toff`, and its length. */
  method ParseTransform(body: Bytes, toff: nat, end: nat) returns (r: Result<Transform>, len: nat)
    requires toff + 8 <= end <= |body|
    ensures r.WireFormatError? ==> Transforms(body[toff..end]).WireFormatError?
    ensures r.Ok? ==> 8 <= len <= end - toff
                      && Transforms(body[toff..end]) ==
                         if body[toff] == 0 then Ok([r.value]) else After([r.value], Transforms(body[toff + len..end]))
  {
    var rest := body[toff..end];
    len := U16(rest, 2);
    if len < 8 || toff + len > end {
      return WireFormatError, len;
    }
    assert rest[len..] == body[toff + len..end];
    var attrs := ParseTransformAttributes(rest[8..len]);
    r := Ok(Transform(rest[4], U16(rest, 6), KeyLength(attrs)));
  }

  method ParseSa(body: Bytes) returns (r: Result<seq<Proposal>>)
    ensures r == Proposals(body)
  {
    var ps: seq<Proposal> := [];
    var off, over := 0, false;
    assert body[off..] == body;
    AfterNothing(Proposals(body));
    while off + 8 <= |body|
      invariant 0 <= off <= |body|
      invariant Proposals(body) == After(ps, Proposals(body[off..]))
      decreases |body| - off
    {
      over, r, ps, off := SaStep(Proposals(body), body, off, ps);
      if over {
        return;
      }
    }
    assert ps + [] == ps;
    r := Ok(ps);
  }

  /** One pass through the loop: it returns, or moves past one proposal. */
  method SaStep(ghost whole: Result<seq<Proposal>>, body: Bytes, off: nat, ps: seq<Proposal>)
    returns (over: bool, r: Result<seq<Proposal>>, more: seq<Proposal>, next: nat)
    requires off + 8 <= |body| && whole == After(ps, Proposals(body[off..]))
    ensures over ==> r == whole
    ensures !over ==> off < next <= |body| && whole == After(more, Proposals(body[next..]))
  {
    r, more, next := WireFormatError, ps, off;
    var p, len := ParseProposal(body, off);
    if p.WireFormatError? {
      return true, r, more, next;
    }
    more, next := ps + [p.value], off + len;
    if body[off] == 0 {
      return true, Ok(more), more, next;
    }
    AfterStep(whole, ps, Proposals(body[off..]), p.value, Proposals(body[next..]));
    over := false;
  }

  /** The proposal at `off`, and its length. */
  method ParseProposal(body: Bytes, off: nat) returns (r: Result<Proposal>, len: nat)
    requires off + 8 <= |body|
    ensures r.WireFormatError? ==> Proposals(body[off..]).WireFormatError?
    ensures r.Ok? ==> 8 <= len <= |body| - off
                      && Proposals(body[off..]) ==
                         if body[off] == 0 then Ok([r.value]) else After([r.value], Proposals(body[off + len..]))
  {
    var rest := body[off..];
    len := U16(rest, 2);
    if len < 8 || off + len > |body| {
      return WireFormatError, len;
    }
    assert rest[len..] == body[off + len..];
    var spiSize: nat := rest[6];
    var ts := ParseTransforms(rest, 8 + spiSize, len);
    if ts.WireFormatError? {
      return WireFormatError, len;
    }
    r := Ok(Proposal(rest[4], rest[5], Slice(rest, 8, 8 + spiSize), ts.value));
  }

  method DecoratePayload(ptype: byte, raw: Bytes) returns (r: Result<View>)
    ensures r == Decorate(ptype, raw)
  {
    if ptype == PAYLOAD_SA {
      var ps := ParseSa(raw);
      r := if ps.Ok? then Ok(SaView(ps.value)) else WireFormatError;
    } else {
      r := Decorate(ptype, raw);
    }
  }

  method FramePayloads(data: Bytes, first: byte) returns (r: Result<seq<Payload>>)
    ensures r == FrameChain(data, first)
  {
    var payloads: seq<Payload> := [];
    var next, off, ok := first, 0, true;
    assert data[off..] == data;
    AfterNothing(FrameChain(data, first));
    while next != 0
      invariant 0 <= off <= |data|
      invariant FrameChain(data, first) == After(payloads, FrameChain(data[off..], next))
      decreases |data| - off
    {
      ok, payloads, next, off := FrameStep(FrameChain(data, first), data, off, next, payloads);
      if !ok {
        return WireFormatError;
      }
    }
    if off != |data| {
      return WireFormatError;
    }
    assert payloads + [] == payloads;
    r := Ok(payloads);
  }

  /** One pass through the loop: it fails, or moves past one payload. */
  method FrameStep(ghost whole: Result<seq<Payload>>, data: Bytes, off: nat, next: byte, payloads: seq<Payload>)
    returns (ok: bool, more: seq<Payload>, after: byte, end: nat)
    requires next != 0 && off <= |data| && whole == After(payloads, FrameChain(data[off..], next))
    ensures !ok ==> whole.WireFormatError?
    ensures ok ==> off < end <= |data| && whole == After(more, FrameChain(data[end..], after))
  {
    more, after, end := payloads, next, off;
    var step, len := FrameOne(data, off, next);
    if step.WireFormatError? {
      return false, more, after, end;
    }
    ok, more, after, end := true, payloads + [step.value], data[off], off + len;
    AfterStep(whole, payloads, FrameChain(data[off..], next), step.value, FrameChain(data[end..], after));
  }

  /** The payload at `off`, when its header and body are well formed, and its length. */
  method FrameOne(data: Bytes, off: nat, next: byte) returns (r: Result<Payload>, len: nat)
    requires next != 0 && off <= |data|
    ensures r.WireFormatError? ==> FrameChain(data[off..], next).WireFormatError?
    ensures r.Ok? ==> 4 <= len <= |data| - off
                      && FrameChain(data[off..], next) == After([r.value], FrameChain(data[off + len..], data[off]))
  {
    var rest := data[off..];
    len := 0;
    if off + 4 > |data| {
      return WireFormatError, len;
    }
    len := U16(rest, 2);
    if len < 4 || off + len > |data| {
      return WireFormatError, len;
    }
    assert rest[len..] == data[off + len..];
    var view := DecoratePayload(next, rest[4..len]);
    if view.WireFormatError? {
      return WireFormatError, len;
    }
    r := Ok(Payload(next, rest[1] >= 0x80, rest[4..len], view.value, true, []));
  }

  /** Only a buffer shorter than the fixed header is an error. */
  method DecodeMessage(raw: Bytes) returns (r: Result<Message>)
    ensures r == Decode(raw)
    ensures r.Ok? <==> |raw| >= IKE_HEADER_LEN
  {
    if |raw| < IKE_HEADER_LEN {
      return WireFormatError;
    }
    var msg := Header(raw);
    var body := raw[IKE_HEADER_LEN..];
    var first := raw[16];
    if raw[17] == IKE_VERSION_1 && raw[19] % 2 == 1 {
      var recovered := FramePayloads(body, first);
      return if recovered.Ok? then Ok(msg.(payloads := recovered.value)) else Ok(msg.(encrypted := true));
    }
    var chain := DecodeChain(body, first);
    r := Ok(msg.(payloads := chain.payloads, truncated := msg.truncated || chain.truncated));
  }

  method DecodeChain(body: Bytes, first: byte) returns (chain: Chain)
    ensures chain == LenientChain(body, first)
  {
    var next, off, over := first, 0, false;
    var payloads: seq<Payload> := [];
    assert body[off..] == body;
    assert AfterChain([], LenientChain(body, first)).payloads == LenientChain(body, first).payloads;
    while next != 0
      invariant 0 <= off <= |body|
      invariant LenientChain(body, first) == AfterChain(payloads, LenientChain(body[off..], next))
      decreases |body| - off
    {
      over, chain, payloads, next, off := DecodeStep(LenientChain(body, first), body, off, next, payloads);
      if over {
        return;
      }
    }
    assert payloads + [] == payloads;
    chain := Chain(payloads, false);
  }

  /** One pass through the loop: it ends the chain (cut short, or at an SK payload), or moves past
      one payload. */
  method DecodeStep(ghost whole: Chain, body: Bytes, off: nat, next: byte, payloads: seq<Payload>)
    returns (over: bool, chain: Chain, more: seq<Payload>, after: byte, end: nat)
    requires next != 0 && off <= |body| && whole == AfterChain(payloads, LenientChain(body[off..], next))
    ensures over ==> chain == whole
    ensures !over ==> off < end <= |body| && whole == AfterChain(more, LenientChain(body[end..], after))
  {
    var rest := body[off..];
    over, chain, more, after, end := true, Chain(payloads, true), payloads, next, off;
    assert payloads + [] == payloads;
    if off + 4 > |body| {
      return;
    }
    var len := U16(rest, 2);
    if len < 4 || off + len > |body| {
      return;
    }
    if next == PAYLOAD_SK {
      var sk := DecodeSk(rest);
      chain := Chain(payloads + [sk], false);
      return;
    }
    var view := DecoratePayload(next, rest[4..len]);
    var p := Payload(next, rest[1] >= 0x80, rest[4..len], if view.Ok? then view.value else Plain, true, []);
    assert p == Framed(next, rest, ViewOrPlain(next, rest[4..len]));
    over, more, after, end := false, payloads + [p], rest[0], off + len;
    assert rest[len..] == body[end..];
    AfterChainOneMore(payloads, p, LenientChain(rest[len..], rest[0]));
  }

  method DecodeSk(rest: Bytes) returns (sk: Payload)
    requires HeaderFits(rest)
    ensures sk == SkPayload(rest)
  {
    var len := U16(rest, 2);
    var inner := FramePayloads(rest[4..len], rest[0]);
    sk := Payload(PAYLOAD_SK, rest[1] >= 0x80, rest[4..len], Plain,
                  !inner.Ok?, if inner.Ok? then inner.value else []);
  }

  // ---------------------------------------------------------------------------
  // The two framers
  // ---------------------------------------------------------------------------

  /** `data` is exactly these payloads end to end: each header names the next payload's type,
      gives its own length, and is followed by the payload's body. */
  ghost predicate Tiles(data: Bytes, next: byte, ps: seq<Payload>)
    decreases |ps|
  {
    if ps == [] then next == 0 && data == []
    else
      && next != 0
      && HeaderFits(data)
      && U16(data, 2) == 4 + |ps[0].raw|
      && data[4..U16(data, 2)] == ps[0].raw
      && ps[0].ptype == next
      && ps[0].critical == (data[1] >= 0x80)
      && Tiles(data[U16(data, 2)..], data[0], ps[1..])
  }

  /** Every payload has a well-formed body. */
  ghost predicate AllDecorated(ps: seq<Payload>) {
    forall p :: p in ps ==> Decorate(p.ptype, p.raw) == Ok(p.view) && p.skOpaque && p.inner == []
  }

  /** The strict framer accepts a buffer exactly when payloads with well-formed bodies tile it. */
  lemma {:induction false} StrictFramerTiles(data: Bytes, next: byte)
    ensures FrameChain(data, next).Ok? ==>
              Tiles(data, next, FrameChain(data, next).value) && AllDecorated(FrameChain(data, next).value)
    decreases |data|
  {
    if FrameChain(data, next).Ok? && next != 0 {
      var len := U16(data, 2);
      StrictFramerTiles(data[len..], data[0]);
      var ps := FrameChain(data, next).value;
      var rest := FrameChain(data[len..], data[0]).value;
      assert ps == [Framed(next, data, Decorate(next, data[4..len]).value)] + rest;
      assert ps[1..] == rest;
    }
  }

  lemma {:induction false} TilingIsAccepted(data: Bytes, next: byte, ps: seq<Payload>)
    requires Tiles(data, next, ps) && AllDecorated(ps)
    ensures FrameChain(data, next) == Ok(ps)
    decreases |ps|
  {
    if ps != [] {
      var len := U16(data, 2);
      assert ps[0] in ps;
      assert AllDecorated(ps[1..]);
      TilingIsAccepted(data[len..], data[0], ps[1..]);
      assert ps == [ps[0]] + ps[1..];
    }
  }

  ghost predicate NoSk(ps: seq<Payload>) {
    forall p :: p in ps ==> p.ptype != PAYLOAD_SK
  }

  /** Where the strict framer accepts a chain without an SK payload, the lenient decoder returns
      the same payloads and reports nothing lost. */
  lemma {:induction false} FramersAgree(data: Bytes, next: byte)
    requires FrameChain(data, next).Ok? && NoSk(FrameChain(data, next).value)
    ensures LenientChain(data, next) == Chain(FrameChain(data, next).value, false)
    decreases |data|
  {
    if next != 0 {
      var len := U16(data, 2);
      var ps := FrameChain(data, next).value;
      var rest := FrameChain(data[len..], data[0]).value;
      assert ps == [ps[0]] + rest && ps[0] in ps;
      assert forall p :: p in rest ==> p in ps;
      FramersAgree(data[len..], data[0]);
    }
  }

  // ---------------------------------------------------------------------------
  // Truncation
  // ---------------------------------------------------------------------------

  ghost predicate Prefix(a: seq<Payload>, b: seq<Payload>) {
    |a| <= |b| && a == b[..|a|]
  }

  /** The cut chain is a prefix of the full one and admits to any loss. */
  ghost predicate CutOf(cut: Chain, full: Chain) {
    && Prefix(cut.payloads, full.payloads)
    && (|cut.payloads| < |full.payloads| || full.truncated ==> cut.truncated)
  }

  lemma CutOfAfter(p: Payload, cut: Chain, full: Chain)
    requires CutOf(cut, full)
    ensures CutOf(AfterChain([p], cut), AfterChain([p], full))
  {
    var n := |cut.payloads|;
    assert ([p] + full.payloads)[..n + 1] == [p] + full.payloads[..n];
  }

  lemma CutHeader(data: Bytes, k: nat)
    requires k <= |data| && HeaderFits(data[..k])
    ensures HeaderFits(data) && U16(data[..k], 2) == U16(data, 2) <= k
    ensures data[..k][0] == data[0] && data[..k][1] == data[1]
    ensures data[..k][4..U16(data, 2)] == data[4..U16(data, 2)]
    ensures data[..k][U16(data, 2)..] == data[U16(data, 2)..][..k - U16(data, 2)]
  {
    var part := data[..k];
    assert part[0] == data[0] && part[1] == data[1] && part[2] == data[2] && part[3] == data[3];
    TakeSlices(data, k, 4, U16(data, 2));
  }

  lemma {:induction false} LenientCut(body: Bytes, next: byte, k: nat)
    requires k <= |body|
    ensures CutOf(LenientChain(body[..k], next), LenientChain(body, next))
    decreases |body|
  {
    var part := body[..k];
    if next != 0 && HeaderFits(part) {
      CutHeader(body, k);
      if next == PAYLOAD_SK {
        assert SkPayload(part) == SkPayload(body);
      } else {
        var len := U16(body, 2);
        LenientCut(body[len..], body[0], k - len);
        CutOfAfter(Framed(next, body, ViewOrPlain(next, body[4..len])),
                   LenientChain(body[len..][..k - len], body[0]), LenientChain(body[len..], body[0]));
      }
    }
  }

  /** Cutting a message anywhere after its header, unless it is an encrypted IKEv1 message:
      the payloads are a prefix of the full message's, and whenever one is lost, or the full
      message was itself truncated, the cut message says so. */
  lemma CutMessageIsPrefix(raw: Bytes, k: nat)
    requires IKE_HEADER_LEN <= k <= |raw| && !V1Encrypted(raw)
    ensures var full, cut := Decode(raw).value, Decode(raw[..k]).value;
            && Prefix(cut.payloads, full.payloads)
            && (|cut.payloads| < |full.payloads| || full.truncated ==> cut.truncated)
            && cut == full.(payloads := cut.payloads, truncated := cut.truncated)
  {
    var part := raw[..k];
    assert part[IKE_HEADER_LEN..] == raw[IKE_HEADER_LEN..][..k - IKE_HEADER_LEN];
    LenientCut(raw[IKE_HEADER_LEN..], raw[16], k - IKE_HEADER_LEN);
    assert part[0..8] == raw[0..8] && part[8..16] == raw[8..16];
  }

  /** Where the strict chain that starts `data` ends, whatever follows it. */
  function ChainEnd(data: Bytes, next: byte): Option<nat>
    decreases |data|
  {
    if next == 0 then Some(0)
    else if !HeaderFits(data) then None
    else
      var len := U16(data, 2);
      if Decorate(next, data[4..len]).WireFormatError? then None
      else match ChainEnd(data[len..], data[0])
        case None => None
        case Some(k) => Some(len + k)
  }

  lemma {:induction false} FramesExactlyAtEnd(data: Bytes, next: byte, k: nat)
    requires k <= |data|
    ensures FrameChain(data[..k], next).Ok? <==> ChainEnd(data, next) == Some(k)
    decreases |data|
  {
    if next != 0 {
      if HeaderFits(data[..k]) {
        CutHeader(data, k);
        var len := U16(data, 2);
        FramesExactlyAtEnd(data[len..], data[0], k - len);
      } else if HeaderFits(data) {
        CutInsidePayload(data, next, k);
      }
    }
  }

  lemma CutInsidePayload(data: Bytes, next: byte, k: nat)
    requires next != 0 && k <= |data| && HeaderFits(data) && !HeaderFits(data[..k])
    ensures FrameChain(data[..k], next).WireFormatError? && ChainEnd(data, next) != Some(k)
  {
    assert k < U16(data, 2);
  }

  /** An encrypted IKEv1 message: the cut invents payloads if and only if it falls exactly where
      a non-empty readable chain ends, short of the full message; otherwise what it yields is a
      prefix of the full message's payloads. */
  lemma EncryptedCutInventsIff(raw: Bytes, k: nat)
    requires IKE_HEADER_LEN <= k <= |raw| && V1Encrypted(raw)
    ensures var full, cut := Decode(raw).value, Decode(raw[..k]).value;
            Prefix(cut.payloads, full.payloads) <==>
            !(raw[16] != 0 && k < |raw| && ChainEnd(raw[IKE_HEADER_LEN..], raw[16]) == Some(k - IKE_HEADER_LEN))
  {
    var body := raw[IKE_HEADER_LEN..];
    var part := raw[..k];
    assert part[IKE_HEADER_LEN..] == body[..k - IKE_HEADER_LEN];
    FramesExactlyAtEnd(body, raw[16], k - IKE_HEADER_LEN);
    FramesExactlyAtEnd(body, raw[16], |body|);
    assert body[..|body|] == body;
    if k == |raw| {
      assert part == raw;
    } else if ChainEnd(body, raw[16]) == Some(k - IKE_HEADER_LEN) {
      assert FrameChain(body, raw[16]).WireFormatError?;
      assert raw[16] != 0 ==> |FrameChain(body[..k - IKE_HEADER_LEN], raw[16]).value| > 0;
    }
  }

  /** One such message: a chain of one empty Nonce payload followed by a stray byte. */
  lemma EncryptedCutCanInvent() returns (raw: Bytes, k: nat)
    ensures IKE_HEADER_LEN <= k < |raw| && V1Encrypted(raw)
    ensures Decode(raw).value.payloads == [] && |Decode(raw[..k]).value.payloads| == 1
  {
    var chain: Bytes := [0, 0, 0, 4];
    raw := [0, 0, 0, 0, 0, 0, 0, 0, 0, 0, 0, 0, 0, 0, 0, 0, 10, 0x10, 32, 1, 0, 0, 0, 0, 0, 0, 0, 33] + chain + [7];
    k := 32;
    var body := raw[IKE_HEADER_LEN..];
    assert body == chain + [7];
    assert body[4..] == [7];
    assert FrameChain([7], 0).WireFormatError?;
    assert FrameChain(body, 10).WireFormatError?;
    assert raw[..k][IKE_HEADER_LEN..] == chain;
    assert chain[4..] == [] && FrameChain([], 0) == Ok([]);
    assert FrameChain(chain, 10).Ok?;
  }
}
