/** What the decoder reads where, byte by byte and in the protocol's own numbers (RFC 7296 sections 3.1
    to 3.14, RFC 2408 section 3.1), apart from the encoder it is the inverse of. */
module WireMeaning {
  import opened IkeWire
  import opened Wrappers

  /** Two bytes, big-endian. */
  function Two(b: Bytes, k: nat): nat
    requires k + 2 <= |b|
  {
    (b[k] as int) * 256 + b[k + 1] as int
  }

  /** The fixed header: two SPIs of eight bytes, four single bytes, message id and length big-endian. */
  lemma HeaderMeans(raw: Bytes)
    ensures Decode(raw).Ok? <==> |raw| >= 28
    ensures |raw| >= 28 ==>
              var m := Decode(raw).value;
              && m.initiatorSpi == raw[..8] && m.responderSpi == raw[8..16]
              && m.nextPayload == raw[16] && m.version == raw[17] && m.exchangeType == raw[18] && m.flags == raw[19]
              && m.messageId == Two(raw, 20) * 65536 + Two(raw, 22)
              && m.length == Two(raw, 24) * 65536 + Two(raw, 26)
  {
    if |raw| >= 28 {
      HeaderFields(raw);
    }
  }

  lemma HeaderFields(raw: Bytes)
    requires |raw| >= 28
    ensures var h, m := Header(raw), Decode(raw).value;
            && m.initiatorSpi == h.initiatorSpi && m.responderSpi == h.responderSpi
            && m.nextPayload == h.nextPayload && m.version == h.version && m.exchangeType == h.exchangeType
            && m.flags == h.flags && m.messageId == h.messageId && m.length == h.length
  {
  }

  /** A message declared longer than its bytes is flagged; with the IKEv1 encryption bit set nothing else
      flags it, and otherwise a chain that does not end in the buffer does. */
  lemma TruncationMeans(raw: Bytes)
    requires |raw| >= 28
    ensures var m := Decode(raw).value;
            && (m.length > |raw| ==> m.truncated)
            && (raw[17] == 0x10 && raw[19] % 2 == 1 ==> (m.truncated <==> m.length > |raw|))
            && (!(raw[17] == 0x10 && raw[19] % 2 == 1) ==>
                  (m.truncated <==> m.length > |raw| || LenientChain(raw[28..], raw[16]).truncated))
  {
    HeaderFields(raw);
  }

  /** A message is left encrypted only under the IKEv1 encryption bit, and then exactly when its body does
      not frame; it has no payloads then. */
  lemma EncryptedMeans(raw: Bytes)
    requires |raw| >= 28
    ensures var m := Decode(raw).value;
            && (m.encrypted <==>
                raw[17] == 0x10 && raw[19] % 2 == 1 && FrameChain(raw[28..], raw[16]) == WireFormatError)
            && (m.encrypted ==> m.payloads == [])
  {
  }

  /** A generic payload header: next type, critical bit, length over all of it; the body follows. */
  lemma PayloadMeans(data: Bytes, next: byte)
    requires |data| >= 4 && 4 <= Two(data, 2) <= |data| && next != 0
    ensures var len := Two(data, 2);
            var chain := LenientChain(data, next);
            && chain.payloads != []
            && chain.payloads[0].ptype == next
            && (chain.payloads[0].critical <==> data[1] >= 128)
            && chain.payloads[0].raw == data[4..len]
            && (next == 46 ==> |chain.payloads| == 1 && !chain.truncated)
            && (next != 46 ==>
                  && chain.payloads[1..] == LenientChain(data[len..], data[0]).payloads
                  && chain.truncated == LenientChain(data[len..], data[0]).truncated)
  {
    assert U16(data, 2) == Two(data, 2);
    if next != 46 {
      var head := Framed(next, data, ViewOrPlain(next, data[4..U16(data, 2)]));
      var rest := LenientChain(data[U16(data, 2)..], data[0]);
      assert ([head] + rest.payloads)[1..] == rest.payloads;
    }
  }

  /** A header that does not fit ends the chain and flags it; type zero ends it cleanly. */
  lemma ChainEnds(data: Bytes, next: byte)
    ensures next == 0 ==> LenientChain(data, next) == Chain([], false)
    ensures next != 0 && (|data| < 4 || Two(data, 2) < 4 || Two(data, 2) > |data|) ==>
              LenientChain(data, next) == Chain([], true)
  {
    if |data| >= 4 {
      assert U16(data, 2) == Two(data, 2);
    }
  }

  /** The structured bodies: SA is payload 33, KE 34, IDi and IDr 35 and 36, AUTH 39, notify 41; any other
      type has none. */
  lemma SaBodyMeans(raw: Bytes)
    ensures Decorate(33, raw) == if Proposals(raw).Ok? then Ok(SaView(Proposals(raw).value)) else WireFormatError
  {
  }

  lemma KeyBodyMeans(raw: Bytes)
    ensures Decorate(34, raw) == if |raw| < 4 then WireFormatError else Ok(KeView(Two(raw, 0)))
  {
  }

  lemma IdBodyMeans(raw: Bytes)
    ensures Decorate(35, raw) == if |raw| < 4 then WireFormatError else Ok(IdView(raw[0], raw[4..]))
    ensures Decorate(36, raw) == if |raw| < 4 then WireFormatError else Ok(IdView(raw[0], raw[4..]))
  {
  }

  lemma AuthBodyMeans(raw: Bytes)
    ensures Decorate(39, raw) == if |raw| < 4 then WireFormatError else Ok(AuthView(raw[0]))
  {
  }

  /** A notify body: protocol, SPI size, type, then the SPI and the data. */
  lemma NotifyBodyMeans(raw: Bytes)
    ensures |raw| < 4 ==> Decorate(41, raw) == WireFormatError
    ensures |raw| >= 4 ==> Decorate(41, raw).Ok? && Decorate(41, raw).value.NotifyView?
    ensures |raw| >= 4 ==>
              var v, n := Decorate(41, raw).value, 4 + raw[1] as int;
              && v.protocolId == raw[0] && v.ntype == Two(raw, 2)
              && (n <= |raw| ==> v.spi == raw[4..n] && v.data == raw[n..])
  {
    if |raw| >= 4 {
      assert U16(raw, 2) == Two(raw, 2) && At(raw, 1) == raw[1];
    }
  }

  lemma OtherBodyMeans(ptype: byte, raw: Bytes)
    requires ptype !in {33, 34, 35, 36, 39, 41}
    ensures Decorate(ptype, raw) == Ok(Plain)
  {
  }

  /** A transform substructure: type in byte 4, identifier in bytes 6 and 7, and the key length in the
      fixed-length attribute 14. */
  lemma TransformMeans(last: byte, ttype: byte, hi: byte, lo: byte, keyHi: byte, keyLo: byte)
    ensures TransformAt([last, 0, 0, 12, ttype, 0, hi, lo, 0x80, 14, keyHi, keyLo]) ==
            Transform(ttype, (hi as int) * 256 + lo as int, Some((keyHi as int) * 256 + keyLo as int))
    ensures TransformAt([last, 0, 0, 8, ttype, 0, hi, lo]) == Transform(ttype, (hi as int) * 256 + lo as int, None)
  {
    var r: Bytes := [last, 0, 0, 12, ttype, 0, hi, lo, 0x80, 14, keyHi, keyLo];
    var blob: Bytes := [0x80, 14, keyHi, keyLo];
    assert U16(r, 2) == 12 && U16(r, 6) == (hi as int) * 256 + lo as int && r[8..12] == blob;
    assert U16(blob, 0) == 0x8000 + 14 && U16(blob, 2) == (keyHi as int) * 256 + keyLo as int && blob[4..] == [];
    assert Attributes(blob, map[]) == map[14 := (keyHi as int) * 256 + keyLo as int];
    var s: Bytes := [last, 0, 0, 8, ttype, 0, hi, lo];
    assert U16(s, 2) == 8 && U16(s, 6) == (hi as int) * 256 + lo as int && s[8..8] == [];
  }

  /** A proposal substructure: number, protocol, SPI size and, after that many SPI bytes, the transforms. */
  lemma ProposalMeans(b: Bytes, len: nat, n: nat)
    requires |b| >= 8 && len == Two(b, 2) && 8 <= len <= |b| && n == 8 + b[6] as int && n <= len
    requires Transforms(b[n..len]).Ok?
    ensures Proposals(b).Ok? ==> Proposals(b).value != []
    ensures Proposals(b).Ok? ==>
              Proposals(b).value[0] == Proposal(b[4], b[5], b[8..n], Transforms(b[n..len]).value)
    ensures b[0] == 0 ==> Proposals(b).Ok? && |Proposals(b).value| == 1
  {
    assert U16(b, 2) == len && At(b, 6) == b[6];
    assert TransformRegion(b) == b[n..len];
    assert Slice(b, 8, 8 + At(b, 6)) == b[8..n];
  }

  /** A list of transforms ends below eight bytes, fails on a length that does not fit, and stops after the
      one marked last. */
  lemma TransformListMeans(r: Bytes)
    ensures |r| < 8 ==> Transforms(r) == Ok([])
    ensures |r| >= 8 && (Two(r, 2) < 8 || Two(r, 2) > |r|) ==> Transforms(r) == WireFormatError
    ensures |r| >= 8 && 8 <= Two(r, 2) <= |r| && r[0] == 0 ==> Transforms(r) == Ok([TransformAt(r)])
    ensures |r| >= 8 && 8 <= Two(r, 2) <= |r| && r[0] != 0 ==>
              var rest := Transforms(r[Two(r, 2)..]);
              Transforms(r) == if rest.Ok? then Ok([TransformAt(r)] + rest.value) else WireFormatError
  {
    if |r| >= 8 {
      assert U16(r, 2) == Two(r, 2);
    }
  }

  /** So does a list of proposals, which fails too when a proposal's transforms do. */
  lemma ProposalListMeans(b: Bytes)
    ensures |b| < 8 ==> Proposals(b) == Ok([])
    ensures |b| >= 8 && (Two(b, 2) < 8 || Two(b, 2) > |b|) ==> Proposals(b) == WireFormatError
    ensures |b| >= 8 && 8 <= Two(b, 2) <= |b| && 8 + b[6] as int <= Two(b, 2) ==>
              (Transforms(b[8 + b[6] as int..Two(b, 2)]) == WireFormatError ==> Proposals(b) == WireFormatError)
    ensures |b| >= 8 && 8 <= Two(b, 2) <= |b| && b[0] != 0 && Proposals(b[Two(b, 2)..]) == WireFormatError ==>
              Proposals(b) == WireFormatError
  {
    if |b| >= 8 {
      assert U16(b, 2) == Two(b, 2) && At(b, 6) == b[6];
    }
  }
}
