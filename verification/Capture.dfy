/** The one read of a capture (core/capture.py): which packet becomes an IKE frame, which an ESP
    frame, and which nothing.  A packet is what the capture library hands over: addresses,
    protocol number, IP payload, and the UDP ports and payload if it is UDP. */
module Capture {
  import opened IkeBuild
  import opened IkeWire
  import opened Ingestion
  import opened Wrappers

  const PROTO_ESP := 50
  const PROTO_AH := 51
  const NON_ESP_MARKER: Bytes := [0, 0, 0, 0]

  datatype Udp = Udp(sport: nat, dport: nat, payload: Bytes)

  datatype Packet =
    | NotIp(time: real, size: nat)
    | Ip(time: real, size: nat, v6: bool, src: string, dst: string, proto: nat, body: Bytes, udp: Option<Udp>)

  /** SPI and sequence number; AH carries them after a four-byte preamble. */
  function SpiSeq(body: Bytes, proto: nat): (Option<nat>, Option<nat>) {
    var offset := if proto == PROTO_AH then 4 else 0;
    if |body| < offset + 8 then (if |body| >= offset + 4 then Some(U32(body, offset)) else None, None)
    else (Some(U32(body, offset)), Some(U32(body, offset + 4)))
  }

  predicate OnPort(u: Udp, port: nat) {
    u.sport == port || u.dport == port
  }

  predicate Marked(payload: Bytes) {
    Slice(payload, 0, 4) == NON_ESP_MARKER
  }

  datatype Seen = AsIke(ike: IkeFrame) | AsEsp(esp: EspFrame) | Skipped

  predicate KnownVersion(m: Message) {
    m.version == IKE_VERSION_2 || m.version == IKE_VERSION_1
  }

  function IkeSeen(m: Message, p: Packet, number: nat, port: nat): Seen
    requires p.Ip?
  {
    AsIke(IkeFrame(m, p.src, p.dst, number, p.v6, port, p.time))
  }

  function ReadMessage(raw: Bytes, p: Packet, number: nat, port: nat): Seen
    requires p.Ip?
  {
    match Decode(raw)
    case WireFormatError => Skipped
    case Ok(msg) => if KnownVersion(msg) then IkeSeen(msg, p, number, port) else Skipped
  }

  function EspSeen(spi: Option<nat>, seqNo: Option<nat>, p: Packet, number: nat): Seen
    requires p.Ip?
  {
    AsEsp(EspFrame(spi, seqNo, p.src, p.dst, number, p.time, p.size))
  }

  function ReadEsp(body: Bytes, proto: nat, p: Packet, number: nat): Seen
    requires p.Ip?
  {
    var ss := SpiSeq(body, proto);
    EspSeen(ss.0, ss.1, p, number)
  }

  function ReadUdp(u: Udp, p: Packet, number: nat): Seen
    requires p.Ip?
  {
    if (!OnPort(u, 500) && !OnPort(u, 4500)) || u.payload == [] then Skipped
    else if OnPort(u, 4500) && !Marked(u.payload) then
      if |u.payload| >= 8 then ReadEsp(u.payload, PROTO_ESP, p, number) else Skipped
    else if OnPort(u, 4500) then ReadMessage(Drop(u.payload, 4), p, number, 4500)
    else ReadMessage(u.payload, p, number, 500)
  }

  /** What one packet is, given its frame number. */
  function Classified(p: Packet, number: nat): Seen {
    if p.NotIp? then Skipped
    else if p.proto == PROTO_ESP || p.proto == PROTO_AH then ReadEsp(p.body, p.proto, p, number)
    else if p.udp.None? then Skipped
    else ReadUdp(p.udp.value, p, number)
  }

  function IkeIn(packets: seq<Packet>): seq<IkeFrame> {
    if packets == [] then []
    else
      var n := |packets|;
      var seen := Classified(packets[n - 1], n);
      IkeIn(packets[..n - 1]) + if seen.AsIke? then [seen.ike] else []
  }

  function EspIn(packets: seq<Packet>): seq<EspFrame> {
    if packets == [] then []
    else
      var n := |packets|;
      var seen := Classified(packets[n - 1], n);
      EspIn(packets[..n - 1]) + if seen.AsEsp? then [seen.esp] else []
  }

  /** The time of the first packet, and of the last. */
  function FirstTime(packets: seq<Packet>): Option<real> {
    if packets == [] then None else Some(packets[0].time)
  }

  function LastTime(packets: seq<Packet>): Option<real> {
    if packets == [] then None else Some(packets[|packets| - 1].time)
  }

  datatype Read = Read(ike: seq<IkeFrame>, esp: seq<EspFrame>, packetsSeen: nat,
                       firstTime: Option<real>, lastTime: Option<real>)

  /** The loop over the capture's packets. */
  method ReadCapture(packets: seq<Packet>) returns (read: Read)
    ensures read.ike == IkeIn(packets) && read.esp == EspIn(packets) && read.packetsSeen == |packets|
    ensures read.firstTime == FirstTime(packets) && read.lastTime == LastTime(packets)
  {
    var ike: seq<IkeFrame>, esp: seq<EspFrame> := [], [];
    var first: Option<real>, last: Option<real> := None, None;
    var number := 0;
    while number < |packets|
      invariant 0 <= number <= |packets|
      invariant ike == IkeIn(packets[..number]) && esp == EspIn(packets[..number])
      invariant first == FirstTime(packets[..number]) && last == LastTime(packets[..number])
    {
      var p := packets[number];
      assert packets[..number + 1][..number] == packets[..number];
      number := number + 1;
      if first.None? {
        first := Some(p.time);
      }
      last := Some(p.time);
      var seen := Classify(p, number);
      match seen {
        case AsIke(f) => ike := ike + [f];
        case AsEsp(e) => esp := esp + [e];
        case Skipped =>
      }
    }
    assert packets[..number] == packets;
    read := Read(ike, esp, number, first, last);
  }

  /** One pass through the loop, branch by branch. */
  method Classify(p: Packet, number: nat) returns (seen: Seen)
    ensures seen == Classified(p, number)
  {
    if p.NotIp? {
      return Skipped;
    }
    if p.proto == PROTO_ESP || p.proto == PROTO_AH {
      var ss := SpiSeq(p.body, p.proto);
      return AsEsp(EspFrame(ss.0, ss.1, p.src, p.dst, number, p.time, p.size));
    }
    if p.udp.None? {
      return Skipped;
    }
    var u := p.udp.value;
    if !(u.sport in {500, 4500}) && !(u.dport in {500, 4500}) {
      return Skipped;
    }
    if u.payload == [] {
      return Skipped;
    }
    var on4500 := u.sport == 4500 || u.dport == 4500;
    if on4500 && Slice(u.payload, 0, 4) != NON_ESP_MARKER {
      if |u.payload| >= 8 {
        var ss := SpiSeq(u.payload, PROTO_ESP);
        return AsEsp(EspFrame(ss.0, ss.1, p.src, p.dst, number, p.time, p.size));
      }
      return Skipped;
    }
    var msg := DecodeMessage(if on4500 then Drop(u.payload, 4) else u.payload);
    if msg.WireFormatError? {
      return Skipped;
    }
    if msg.value.version != IKE_VERSION_2 && msg.value.version != IKE_VERSION_1 {
      return Skipped;
    }
    seen := AsIke(IkeFrame(msg.value, p.src, p.dst, number, p.v6, if on4500 then 4500 else 500, p.time));
  }

  // ---------------------------------------------------------------------------
  // Frame numbers
  // ---------------------------------------------------------------------------

  function EspNumbers(frames: seq<EspFrame>): seq<nat> {
    seq(|frames|, i requires 0 <= i < |frames| => frames[i].number)
  }

  ghost predicate UpTo(ns: seq<nat>, n: nat) {
    forall i :: 0 <= i < |ns| ==> 1 <= ns[i] <= n
  }

  lemma {:induction false} FramesAreNumbered(packets: seq<Packet>)
    ensures Increasing(Numbers(IkeIn(packets))) && UpTo(Numbers(IkeIn(packets)), |packets|)
    ensures Increasing(EspNumbers(EspIn(packets))) && UpTo(EspNumbers(EspIn(packets)), |packets|)
    decreases |packets|
  {
    if packets != [] {
      var n := |packets|;
      FramesAreNumbered(packets[..n - 1]);
      var seen := Classified(packets[n - 1], n);
      if seen.AsIke? {
        assert Numbers(IkeIn(packets)) == Numbers(IkeIn(packets[..n - 1])) + [n];
      } else {
        assert IkeIn(packets) == IkeIn(packets[..n - 1]);
      }
      if seen.AsEsp? {
        assert EspNumbers(EspIn(packets)) == EspNumbers(EspIn(packets[..n - 1])) + [n];
      } else {
        assert EspIn(packets) == EspIn(packets[..n - 1]);
      }
    }
  }

  /** The frame with number `n` is exactly what the capture's `n`-th packet is: every packet is
      read once, in one list or none. */
  lemma {:induction false} EveryPacketOnce(packets: seq<Packet>, n: nat)
    requires 1 <= n <= |packets|
    ensures n in Numbers(IkeIn(packets)) <==> Classified(packets[n - 1], n).AsIke?
    ensures n in EspNumbers(EspIn(packets)) <==> Classified(packets[n - 1], n).AsEsp?
    ensures Classified(packets[n - 1], n).AsIke? ==> Classified(packets[n - 1], n).ike in IkeIn(packets)
    ensures Classified(packets[n - 1], n).AsEsp? ==> Classified(packets[n - 1], n).esp in EspIn(packets)
    decreases |packets|
  {
    var last := |packets|;
    var rest := packets[..last - 1];
    FramesAreNumbered(rest);
    var seen := Classified(packets[last - 1], last);
    assert Numbers(IkeIn(packets)) == Numbers(IkeIn(rest)) + if seen.AsIke? then [last] else [];
    assert EspNumbers(EspIn(packets)) == EspNumbers(EspIn(rest)) + if seen.AsEsp? then [last] else [];
    if n < last {
      EveryPacketOnce(rest, n);
    }
  }

  /** For every capture the sessions' evidence lists partition the numbers of the IKE frames read
      from it. */
  lemma CaptureEvidencePartitions(packets: seq<Packet>)
    ensures var ike := IkeIn(packets);
            && (forall k :: k in Keys(ike) ==> Increasing(Numbers(FramesOf(ike, k))))
            && (forall n :: n in Numbers(ike) <==> exists k :: k in Keys(ike) && Evidences(ike, k, n))
            && forall j, k, n :: Evidences(ike, j, n) && Evidences(ike, k, n) ==> j == k
  {
    FramesAreNumbered(packets);
    EvidencePartitionsFrames(IkeIn(packets));
  }

  // ---------------------------------------------------------------------------
  // What is sent is what is read
  // ---------------------------------------------------------------------------

  /** The bytes of an IKE message as they travel: as they are on port 500, behind the marker on 4500. */
  predicate CarriesBytes(u: Udp, raw: Bytes) {
    if OnPort(u, 4500) then u.payload == NON_ESP_MARKER + raw else OnPort(u, 500) && u.payload == raw
  }

  /** Whatever bytes are sent, they are read as the message they decode to exactly when they hold a
      header of a known version; otherwise the packet is skipped, and never taken for ESP. */
  lemma SentBytesAreReadIff(u: Udp, p: Packet, number: nat, raw: Bytes)
    requires p.Ip? && CarriesBytes(u, raw)
    ensures ReadUdp(u, p, number) ==
            if |raw| >= IKE_HEADER_LEN && KnownVersion(Decode(raw).value)
            then IkeSeen(Decode(raw).value, p, number, if OnPort(u, 4500) then 4500 else 500)
            else Skipped
  {
    if OnPort(u, 4500) {
      assert u.payload[0..4] == NON_ESP_MARKER;
      assert Drop(u.payload, 4) == raw;
    }
  }

  /** So every message the encoder builds is read as sent: in the clear, inside an SK envelope, or
      with a readable encrypted IKEv1 body. */
  lemma SentMessageIsRead(u: Udp, p: Packet, number: nat, e: Envelope, ps: seq<Part>)
    requires p.Ip? && Sendable(ps) && FitsEnvelope(e, |ChainBytes(ps)|)
    requires e.version == IKE_VERSION_2 || e.version == IKE_VERSION_1
    requires CarriesBytes(u, MessageBytes(e, ps))
    requires EncryptedV1(e) || forall q :: q in ps ==> q.ptype != PAYLOAD_SK
    ensures var readable := !EncryptedV1(e) || WellFormedBodies(ps);
            ReadUdp(u, p, number) ==
            IkeSeen(Message(e.initiatorSpi, e.responderSpi, First(ps), e.version, e.exchangeType, e.flags, e.messageId,
                            28 + |ChainBytes(ps)|, if readable then ReceivedAll(ps) else [], false, !readable),
                    p, number, if OnPort(u, 4500) then 4500 else 500)
  {
    SentBytesAreReadIff(u, p, number, MessageBytes(e, ps));
    if EncryptedV1(e) {
      EncryptedV1RoundTrip(e, ps);
    } else {
      MessageRoundTrip(e, ps);
    }
  }

  lemma SentSkMessageIsRead(u: Udp, p: Packet, number: nat, e: Envelope, inner: seq<Part>)
    requires p.Ip? && Sendable(inner) && 4 + |ChainBytes(inner)| < 0x1_0000
    requires FitsEnvelope(e, 4 + |ChainBytes(inner)|)
    requires !EncryptedV1(e) && (e.version == IKE_VERSION_2 || e.version == IKE_VERSION_1)
    requires CarriesBytes(u, MessageSkBytes(e, inner))
    ensures var sk := Payload(PAYLOAD_SK, false, ChainBytes(inner), Plain, !WellFormedBodies(inner),
                              if WellFormedBodies(inner) then ReceivedAll(inner) else []);
            ReadUdp(u, p, number) ==
            IkeSeen(Message(e.initiatorSpi, e.responderSpi, PAYLOAD_SK, e.version, e.exchangeType, e.flags, e.messageId,
                            32 + |ChainBytes(inner)|, [sk], false, false),
                    p, number, if OnPort(u, 4500) then 4500 else 500)
  {
    SentBytesAreReadIff(u, p, number, MessageSkBytes(e, inner));
    SkMessageRoundTrip(e, inner);
  }

  lemma SpiSeqReadsBack(lead: Bytes, spi: nat, seqNo: nat, rest: Bytes)
    requires spi < 0x1_0000_0000 && seqNo < 0x1_0000_0000
    ensures var body := lead + Pack32(spi) + (Pack32(seqNo) + rest);
            U32(body, |lead|) == spi && U32(body, |lead| + 4) == seqNo
  {
    Pack32Decode(lead, spi, Pack32(seqNo) + rest);
    assert lead + Pack32(spi) + (Pack32(seqNo) + rest) == (lead + Pack32(spi)) + Pack32(seqNo) + rest;
    Pack32Decode(lead + Pack32(spi), seqNo, rest);
  }

  /** Native ESP and AH: SPI and sequence number are read from where each protocol puts them. */
  lemma SentEspIsRead(p: Packet, number: nat, lead: Bytes, spi: nat, seqNo: nat, rest: Bytes)
    requires p.Ip? && spi < 0x1_0000_0000 && seqNo < 0x1_0000_0000
    requires (p.proto == PROTO_ESP && lead == []) || (p.proto == PROTO_AH && |lead| == 4)
    requires p.body == lead + Pack32(spi) + (Pack32(seqNo) + rest)
    ensures Classified(p, number) == EspSeen(Some(spi), Some(seqNo), p, number)
  {
    SpiSeqReadsBack(lead, spi, seqNo, rest);
  }

  lemma PackedReads(n: nat)
    requires n < 0x1_0000_0000
    ensures U32(Pack32(n), 0) == n
  {
    Pack32Decode([], n, []);
    assert [] + Pack32(n) + [] == Pack32(n);
  }

  lemma ZeroRead(b: Bytes)
    requires |b| == 4
    ensures b == NON_ESP_MARKER <==> U32(b, 0) == 0
  {
  }

  lemma ZeroPacked(n: nat)
    requires n < 0x1_0000_0000
    ensures Pack32(n) == NON_ESP_MARKER <==> n == 0
  {
    PackedReads(n);
    ZeroRead(Pack32(n));
  }

  lemma Port4500Cases(u: Udp, p: Packet, number: nat)
    requires p.Ip? && OnPort(u, 4500) && |u.payload| >= 8
    ensures ReadUdp(u, p, number).AsEsp? <==> !Marked(u.payload)
    ensures !Marked(u.payload) ==> ReadUdp(u, p, number) == ReadEsp(u.payload, PROTO_ESP, p, number)
  {
  }

  /** ESP inside UDP 4500 is told from IKE by its SPI alone: it is read as ESP exactly when the SPI
      is not zero. */
  lemma NatEspIsReadIff(u: Udp, p: Packet, number: nat, spi: nat, seqNo: nat, rest: Bytes)
    requires spi < 0x1_0000_0000 && seqNo < 0x1_0000_0000
    requires p.Ip? && OnPort(u, 4500) && u.payload == [] + Pack32(spi) + (Pack32(seqNo) + rest)
    ensures ReadUdp(u, p, number).AsEsp? <==> spi != 0
    ensures spi != 0 ==> ReadUdp(u, p, number) == EspSeen(Some(spi), Some(seqNo), p, number)
  {
    Port4500Cases(u, p, number);
    SpiSeqReadsBack([], spi, seqNo, rest);
    assert Slice(u.payload, 0, 4) == Pack32(spi);
    ZeroPacked(spi);
  }
}
