/** What each kind of packet becomes, port by port and byte by byte (core/capture.py; RFC 4303, RFC 4302
    and section 2.2 of RFC 3948). */
module CaptureMeaning {
  import opened Capture
  import opened IkeWire
  import opened Ingestion
  import opened Wrappers

  /** Native ESP is protocol 50 and native AH 51; anything else counts only as UDP. */
  lemma PacketMeans(p: Packet, number: nat)
    ensures p.NotIp? ==> Classified(p, number) == Skipped
    ensures p.Ip? && p.proto in {50, 51} ==>
              Classified(p, number) ==
              AsEsp(EspFrame(SpiSeq(p.body, p.proto).0, SpiSeq(p.body, p.proto).1, p.src, p.dst, number,
                             p.time, p.size))
    ensures p.Ip? && p.proto !in {50, 51} && p.udp.None? ==> Classified(p, number) == Skipped
    ensures p.Ip? && p.proto !in {50, 51} && p.udp.Some? ==> Classified(p, number) == ReadUdp(p.udp.value, p, number)
  {
  }

  predicate Uses(u: Udp, port: nat) {
    u.sport == port || u.dport == port
  }

  /** UDP counts on ports 500 and 4500.  On 4500 four zero bytes mark IKE, and an unmarked payload of eight
      bytes or more is ESP; on 500 alone every payload is IKE. */
  lemma UdpMeans(u: Udp, p: Packet, number: nat)
    requires p.Ip?
    ensures (!Uses(u, 500) && !Uses(u, 4500)) || u.payload == [] ==> ReadUdp(u, p, number) == Skipped
    ensures Uses(u, 4500) && |u.payload| >= 4 && u.payload[..4] == [0, 0, 0, 0] ==>
              ReadUdp(u, p, number) == ReadMessage(u.payload[4..], p, number, 4500)
    ensures Uses(u, 4500) && 0 < |u.payload| < 4 ==> ReadUdp(u, p, number) == Skipped
    ensures Uses(u, 4500) && 4 <= |u.payload| < 8 && u.payload[..4] != [0, 0, 0, 0] ==>
              ReadUdp(u, p, number) == Skipped
    ensures Uses(u, 4500) && |u.payload| >= 8 && u.payload[..4] != [0, 0, 0, 0] ==>
              ReadUdp(u, p, number) ==
              AsEsp(EspFrame(SpiSeq(u.payload, 50).0, SpiSeq(u.payload, 50).1, p.src, p.dst, number, p.time, p.size))
    ensures Uses(u, 500) && !Uses(u, 4500) && u.payload != [] ==>
              ReadUdp(u, p, number) == ReadMessage(u.payload, p, number, 500)
  {
    if |u.payload| >= 4 {
      assert Slice(u.payload, 0, 4) == u.payload[..4];
    } else if u.payload != [] {
      assert |Slice(u.payload, 0, 4)| < 4;
    }
  }

  /** An IKE payload is kept when it decodes and its version byte is 1.0 or 2.0. */
  lemma MessageMeans(raw: Bytes, p: Packet, number: nat, port: nat)
    requires p.Ip?
    ensures ReadMessage(raw, p, number, port) ==
            if Decode(raw).Ok? && Decode(raw).value.version in {0x10, 0x20}
            then AsIke(IkeFrame(Decode(raw).value, p.src, p.dst, number, p.v6, port, p.time)) else Skipped
  {
  }

  /** ESP carries its SPI in bytes 0 to 3 and its sequence number in bytes 4 to 7; AH four bytes later; a
      body too short for one of them leaves it out. */
  lemma SpiSeqMeans(body: Bytes, proto: nat)
    requires proto in {50, 51}
    ensures var at := if proto == 51 then 4 else 0;
            && (|body| >= at + 8 ==> SpiSeq(body, proto) == (Some(U32(body, at)), Some(U32(body, at + 4))))
            && (at + 4 <= |body| < at + 8 ==> SpiSeq(body, proto) == (Some(U32(body, at)), None))
            && (|body| < at + 4 ==> SpiSeq(body, proto) == (None, None))
  {
  }

  /** The times kept are those of the first and the last packet of any kind. */
  lemma TimesMean(packets: seq<Packet>)
    ensures FirstTime(packets) == if packets == [] then None else Some(packets[0].time)
    ensures LastTime(packets) == if packets == [] then None else Some(packets[|packets| - 1].time)
  {
  }
}
