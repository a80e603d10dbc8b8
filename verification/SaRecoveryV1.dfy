/** From negotiated IKEv1 parameters to bytes and back: the record that the analysis of
    core/ike_parser/ikev1.py builds holds the parameters that tests/ike_parser/_build.py encoded. */
module SaRecoveryV1 {
  import IkeBuild
  import opened IkeV1Wire
  import opened IkeWire
  import opened SaAnalysisV1
  import opened SaCommon
  import opened Wrappers

  datatype Phase1 = Phase1(enc: nat, hash: nat, auth: nat, group: nat, keyLength: Option<nat>, lifeSec: Option<nat>)

  datatype Phase2 = Phase2(espId: byte, authAlg: nat, encap: nat,
                           keyLength: Option<nat>, group: Option<nat>, lifeSec: Option<nat>)

  predicate Fits16(o: Option<nat>) {
    o.Some? ==> o.value < 0x1_0000
  }

  predicate Fits32(o: Option<nat>) {
    o.Some? ==> o.value < 0x1_0000_0000
  }

  predicate FitsPhase1(p: Phase1) {
    && p.enc < 0x1_0000 && p.hash < 0x1_0000 && p.auth < 0x1_0000 && p.group < 0x1_0000
    && Fits16(p.keyLength) && Fits32(p.lifeSec)
  }

  predicate FitsPhase2(p: Phase2) {
    p.authAlg < 0x1_0000 && p.encap < 0x1_0000 && Fits16(p.keyLength) && Fits16(p.group) && Fits32(p.lifeSec)
  }

  function Phase1Body(p: Phase1): Bytes
    requires FitsPhase1(p)
  {
    Phase1SaBytes(p.enc, p.hash, p.auth, p.group, p.keyLength, p.lifeSec)
  }

  // ---------------------------------------------------------------------------
  // Phase-2 bodies
  // ---------------------------------------------------------------------------

  function TvIf(t: nat, o: Option<nat>): seq<Attribute> {
    if o.Some? then [Tv(t, o.value)] else []
  }

  function LifeIf(o: Option<nat>): seq<Attribute>
    requires Fits32(o)
  {
    if o.Some? then [Tv(P2_LIFE_TYPE, V1_LIFE_TYPE_SECONDS), Tlv(P2_LIFE_DURATION, IkeBuild.Pack32(o.value))] else []
  }

  function Phase2Attributes(p: Phase2): seq<Attribute>
    requires FitsPhase2(p)
  {
    [Tv(P2_AUTH_ALG, p.authAlg), Tv(P2_ENCAP_MODE, p.encap)]
    + (TvIf(P2_KEY_LENGTH, p.keyLength) + (TvIf(P2_GROUP_DESC, p.group) + LifeIf(p.lifeSec)))
  }

  const ESP_SPI: Bytes := [0xde, 0xad, 0xbe, 0xef]

  function Phase2Body(p: Phase2): Bytes
    requires FitsPhase2(p)
  {
    AttributesLength(Phase2Attributes(p));
    V1SaBytes(3, ESP_SPI, p.espId, Phase2Attributes(p))
  }

  function With(acc: map<nat, nat>, t: nat, o: Option<nat>): map<nat, nat> {
    if o.Some? then acc[t := o.value] else acc
  }

  function Phase2Meaning(p: Phase2): map<nat, nat> {
    var start := map[P2_AUTH_ALG := p.authAlg, P2_ENCAP_MODE := p.encap];
    var said := With(With(start, P2_KEY_LENGTH, p.keyLength), P2_GROUP_DESC, p.group);
    if p.lifeSec.Some? then said[P2_LIFE_TYPE := V1_LIFE_TYPE_SECONDS][P2_LIFE_DURATION := p.lifeSec.value] else said
  }

  lemma TvIfMeans(t: nat, o: Option<nat>, acc: map<nat, nat>)
    ensures Meaning(TvIf(t, o), acc) == With(acc, t, o)
  {
    if o.Some? {
      MeaningOfTwo(Tv(t, o.value), Tv(t, o.value), acc);
    }
  }

  lemma LifeIfMeans(o: Option<nat>, acc: map<nat, nat>)
    requires Fits32(o)
    ensures Meaning(LifeIf(o), acc) ==
            if o.Some? then acc[P2_LIFE_TYPE := V1_LIFE_TYPE_SECONDS][P2_LIFE_DURATION := o.value] else acc
  {
    if o.Some? {
      BigEndianOfPack32(o.value);
      MeaningOfTwo(LifeIf(o)[0], LifeIf(o)[1], acc);
    }
  }

  lemma MeaningOfPhase2(p: Phase2)
    requires FitsPhase2(p)
    ensures Meaning(Phase2Attributes(p), map[]) == Phase2Meaning(p)
  {
    var start := [Tv(P2_AUTH_ALG, p.authAlg), Tv(P2_ENCAP_MODE, p.encap)];
    var key, group, life := TvIf(P2_KEY_LENGTH, p.keyLength), TvIf(P2_GROUP_DESC, p.group), LifeIf(p.lifeSec);
    MeaningAppend(start, key + (group + life), map[]);
    MeaningOfTwo(start[0], start[1], map[]);
    var said := Meaning(start, map[]);
    MeaningAppend(key, group + life, said);
    TvIfMeans(P2_KEY_LENGTH, p.keyLength, said);
    MeaningAppend(group, life, With(said, P2_KEY_LENGTH, p.keyLength));
    TvIfMeans(P2_GROUP_DESC, p.group, With(said, P2_KEY_LENGTH, p.keyLength));
    LifeIfMeans(p.lifeSec, With(With(said, P2_KEY_LENGTH, p.keyLength), P2_GROUP_DESC, p.group));
  }

  lemma Phase2RoundTrip(p: Phase2)
    requires FitsPhase2(p)
    ensures FirstTransform(Phase2Body(p)) == Ok(FirstTransformView(3, p.espId, Phase2Meaning(p)))
  {
    AttributesLength(Phase2Attributes(p));
    V1SaRoundTrip(3, ESP_SPI, p.espId, Phase2Attributes(p));
    MeaningOfPhase2(p);
  }

  // ---------------------------------------------------------------------------
  // What the record holds
  // ---------------------------------------------------------------------------

  /** The first SA payload of a message has this body. */
  ghost predicate SaBodyIs(m: Message, body: Bytes) {
    var sa := FirstOfType(m.payloads, V1_PAYLOAD_SA);
    sa.Some? && sa.value.raw == body
  }

  /** The message whose SA the analysis reads as phase 1. */
  function Phase1Message(ms: seq<Message>): Option<Message> {
    Or(First(ms, OpensPhase1), First(ms, CarriesPhase1Sa))
  }

  function Phase1Record(p: Phase1): Ike {
    Ike(Some(Phase1Cipher(p.enc, p.keyLength)), Some(Phase1Hash(p.hash)), Some(p.hash), Some(p.auth),
        Some(p.group), p.lifeSec, UnknownMode, UnknownPfs)
  }

  lemma Phase1Applied(ms: seq<Message>, p: Phase1)
    requires FitsPhase1(p)
    requires Phase1Message(ms).Some? && SaBodyIs(Phase1Message(ms).value, Phase1Body(p))
    ensures WithPhase1(ms) == Phase1Record(p)
  {
    Phase1RoundTrip(p.enc, p.hash, p.auth, p.group, p.keyLength, p.lifeSec);
  }

  /** Phase 1 negotiated `p` and no Quick Mode was seen: the record is `p`, mode and PFS unknown. */
  lemma Phase1IsRecovered(ms: seq<Message>, natPort: bool, p: Phase1)
    requires ms != [] && FitsPhase1(p)
    requires Phase1Message(ms).Some? && SaBodyIs(Phase1Message(ms).value, Phase1Body(p))
    requires First(ms, IsQuickOffer) == None
    ensures Analysed(ms, natPort).ike == Phase1Record(p)
  {
    Phase1Applied(ms, p);
  }

  function ModeOf(encap: nat): Mode {
    if encap == 1 || encap == 3 then Tunnel else if encap == 2 || encap == 4 then Transport else UnknownMode
  }

  lemma Phase2Lookups(q: Phase2)
    ensures var a := Phase2Meaning(q);
            && Lookup(a, P2_AUTH_ALG) == Some(q.authAlg) && Lookup(a, P2_ENCAP_MODE) == Some(q.encap)
            && Lookup(a, P2_KEY_LENGTH) == q.keyLength && Lookup(a, P2_GROUP_DESC) == q.group
            && LifetimeFrom(a, P2_LIFE_TYPE, P2_LIFE_DURATION) == q.lifeSec
  {
  }

  /** The record after phase 1 negotiated `p` and Quick Mode `q`: the data plane's cipher and
      integrity are `q`'s, its group and lifetime too when it names them, and authentication and
      PRF stay phase 1's. */
  function QuickModeRecord(p: Phase1, q: Phase2, hasKe: bool): Ike {
    var own := q.group.Some? && q.group.value != 0;
    Ike(Some(EspCipher(q.espId, q.keyLength)), Some(EspAuth(q.authAlg)), Some(p.hash), Some(p.auth),
        Some(if own then q.group.value else p.group), Or(q.lifeSec, p.lifeSec), ModeOf(q.encap),
        if own || hasKe then Enabled else Disabled)
  }

  lemma QuickModeApplied(p: Phase1, q: Phase2, a: map<nat, nat>, hasKe: bool)
    requires Lookup(a, P2_AUTH_ALG) == Some(q.authAlg) && Lookup(a, P2_ENCAP_MODE) == Some(q.encap)
    requires Lookup(a, P2_KEY_LENGTH) == q.keyLength && Lookup(a, P2_GROUP_DESC) == q.group
    requires LifetimeFrom(a, P2_LIFE_TYPE, P2_LIFE_DURATION) == q.lifeSec
    ensures ApplyQuickMode(Phase1Record(p), FirstTransformView(3, q.espId, a), hasKe) == QuickModeRecord(p, q, hasKe)
  {
  }

  lemma QuickModeIsRecovered(ms: seq<Message>, natPort: bool, p: Phase1, q: Phase2)
    requires ms != [] && FitsPhase1(p) && FitsPhase2(q)
    requires Phase1Message(ms).Some? && SaBodyIs(Phase1Message(ms).value, Phase1Body(p))
    requires First(ms, IsQuickOffer).Some? && SaBodyIs(First(ms, IsQuickOffer).value, Phase2Body(q))
    ensures Analysed(ms, natPort).ike ==
            QuickModeRecord(p, q, HasType(First(ms, IsQuickOffer).value.payloads, V1_PAYLOAD_KE))
  {
    var offer := First(ms, IsQuickOffer).value;
    Phase1Applied(ms, p);
    QuickOfferRead(offer, q);
    Phase2Lookups(q);
    QuickModeApplied(p, q, Phase2Meaning(q), HasType(offer.payloads, V1_PAYLOAD_KE));
  }

  lemma QuickOfferRead(m: Message, q: Phase2)
    requires FitsPhase2(q) && SaBodyIs(m, Phase2Body(q))
    ensures SaTransform(m) == Some(FirstTransformView(3, q.espId, Phase2Meaning(q)))
  {
    Phase2RoundTrip(q);
  }
}
