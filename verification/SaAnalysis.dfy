/** What an IKEv2 handshake reveals (core/ike_parser/ikev2.py): the fold over an SA's messages,
    and what of its outcome depends only on which messages were seen.

    Fields hold the identifiers on the wire; SaNames gives the names a record holds for them. */
module SaAnalysis {
  import opened IkeWire
  import opened SaCommon
  import opened Wrappers

  const EXCHANGE_IKE_SA_INIT: byte := 34
  const EXCHANGE_IKE_AUTH: byte := 35
  const EXCHANGE_CREATE_CHILD_SA: byte := 36
  const PAYLOAD_EAP: byte := 48
  const NOTIFY_USE_TRANSPORT_MODE := 16391
  const TRANSFORM_TYPE_ENCR := 1
  const TRANSFORM_TYPE_PRF := 2
  const TRANSFORM_TYPE_INTEG := 3
  const AEAD_CIPHERS := {14, 15, 16, 18, 19, 20, 28}
  const ZERO_SPI: Bytes := [0, 0, 0, 0, 0, 0, 0, 0]

  // ---------------------------------------------------------------------------
  // Queries on one message
  // ---------------------------------------------------------------------------

  predicate IsResponse(m: Message) {
    (m.flags / 0x20) % 2 == 1
  }

  /** Top-level payloads, each readable SK envelope followed by what it holds. */
  function Flattened(ps: seq<Payload>): seq<Payload> {
    if ps == [] then []
    else
      [ps[0]]
      + (if ps[0].ptype == PAYLOAD_SK && !ps[0].skOpaque then ps[0].inner else [])
      + Flattened(ps[1..])
  }

  function AllPayloads(m: Message): seq<Payload> {
    Flattened(m.payloads)
  }

  function ProposalsOf(p: Payload): seq<Proposal> {
    if p.view.SaView? then p.view.proposals else []
  }

  function FirstTransformOf(ts: seq<Transform>, ttype: nat): Option<Transform> {
    if ts == [] then None
    else if ts[0].ttype == ttype then Some(ts[0])
    else FirstTransformOf(ts[1..], ttype)
  }

  predicate HasDh(p: Proposal) {
    var t := FirstTransformOf(p.transforms, TRANSFORM_TYPE_DH);
    t.Some? && t.value.id != 0
  }

  predicate NotifiesTransport(m: Message) {
    exists p :: p in AllPayloads(m) && p.ptype == PAYLOAD_NOTIFY
                && p.view.NotifyView? && p.view.ntype == NOTIFY_USE_TRANSPORT_MODE
  }

  predicate IsChildSa(p: Payload) {
    p.ptype == PAYLOAD_SA && ProposalsOf(p) != [] && ProposalsOf(p)[0].protocolId in {2, 3}
  }

  function FirstChildSa(ps: seq<Payload>): Option<Payload> {
    if ps == [] then None else if IsChildSa(ps[0]) then Some(ps[0]) else FirstChildSa(ps[1..])
  }

  lemma {:induction false} FirstChildSaIsOne(ps: seq<Payload>)
    ensures FirstChildSa(ps).Some? ==> IsChildSa(FirstChildSa(ps).value)
  {
    if ps != [] {
      FirstChildSaIsOne(ps[1..]);
    }
  }

  // ---------------------------------------------------------------------------
  // The fold
  // ---------------------------------------------------------------------------

  datatype Integrity = Implicit | Integ(id: nat)
  datatype Auth = Eap | Method(id: nat)

  /** The accumulator: a field is None until the handshake shows it. */
  datatype Ike = Ike(
    encryption: Option<(nat, Option<nat>)>, integrity: Option<Integrity>, prf: Option<nat>,
    dhGroup: Option<nat>, additionalKeyExchanges: seq<nat>, authMethod: Option<Auth>, transport: bool)

  datatype Negotiation = Negotiation(rekey: bool, hasKe: bool, dhOk: bool)

  datatype State = State(
    ike: Ike, sawInit: bool, sawReadableAuth: bool, sawInitResponse: bool, appliedFromResponse: bool,
    negotiations: seq<Negotiation>)

  const START := State(Ike(None, None, None, None, [], None, false), false, false, false, false, [])

  function Deduplicated(xs: seq<nat>): seq<nat> {
    if xs == [] then []
    else
      var n := |xs| - 1;
      var rest := Deduplicated(xs[..n]);
      if xs[n] in rest then rest else rest + [xs[n]]
  }

  function AdditionalGroups(ts: seq<Transform>): seq<nat> {
    if ts == [] then []
    else (if 6 <= ts[0].ttype < 13 && ts[0].id != 0 then [ts[0].id] else []) + AdditionalGroups(ts[1..])
  }

  function ApplyProposal(ike: Ike, p: Proposal): Ike {
    var encr := FirstTransformOf(p.transforms, TRANSFORM_TYPE_ENCR);
    var integ := FirstTransformOf(p.transforms, TRANSFORM_TYPE_INTEG);
    var prf := FirstTransformOf(p.transforms, TRANSFORM_TYPE_PRF);
    var dh := FirstTransformOf(p.transforms, TRANSFORM_TYPE_DH);
    var aead := encr.Some? && encr.value.id in AEAD_CIPHERS;
    ike.(
      encryption := if encr.Some? then Some((encr.value.id, encr.value.keyLength)) else ike.encryption,
      integrity := if aead then Some(Implicit)
                   else if integ.Some? && integ.value.id != 0 then Some(Integ(integ.value.id))
                   else ike.integrity,
      prf := if prf.Some? then Some(prf.value.id) else ike.prf,
      dhGroup := if dh.Some? && dh.value.id != 0 then Some(dh.value.id) else ike.dhGroup,
      additionalKeyExchanges := Deduplicated(AdditionalGroups(p.transforms)))
  }

  function OfferedIn(m: Message): seq<Proposal> {
    var sa := FirstOfType(AllPayloads(m), PAYLOAD_SA);
    if sa.Some? then ProposalsOf(sa.value) else []
  }

  function KeGroup(m: Message): Option<nat> {
    var ke := FirstOfType(AllPayloads(m), PAYLOAD_KE);
    if ke.Some? && ke.value.view.KeView? then Some(ke.value.view.group) else None
  }

  function OnInit(st: State, m: Message): State {
    var offered := OfferedIn(m);
    var applies := offered != [] && (IsResponse(m) || !st.appliedFromResponse);
    var ike := if applies then ApplyProposal(st.ike, offered[0]) else st.ike;
    var fromResponse := offered != [] && IsResponse(m);
    var withKe := if ike.dhGroup.None? then ike.(dhGroup := KeGroup(m)) else ike;
    st.(ike := withKe, sawInit := true,
        appliedFromResponse := st.appliedFromResponse || fromResponse,
        sawInitResponse := st.sawInitResponse || fromResponse)
  }

  function NegotiationIn(m: Message, rekey: bool): seq<Negotiation> {
    var child := FirstChildSa(AllPayloads(m));
    FirstChildSaIsOne(AllPayloads(m));
    if child.None? then []
    else [Negotiation(rekey, HasType(AllPayloads(m), PAYLOAD_KE), HasDh(ProposalsOf(child.value)[0]))]
  }

  predicate ReadableAuth(m: Message) {
    || FirstOfType(AllPayloads(m), PAYLOAD_AUTH).Some?
    || HasType(AllPayloads(m), PAYLOAD_EAP)
    || FirstChildSa(AllPayloads(m)).Some?
  }

  function AuthOf(m: Message): Option<Auth> {
    var auth := FirstOfType(AllPayloads(m), PAYLOAD_AUTH);
    if HasType(AllPayloads(m), PAYLOAD_EAP) then Some(Eap)
    else if auth.Some? && auth.value.view.AuthView? then Some(Method(auth.value.view.authMethod))
    else None
  }

  function OnAuth(st: State, m: Message): State {
    var auth := AuthOf(m);
    st.(ike := st.ike.(authMethod := if auth.Some? then auth else st.ike.authMethod,
                       transport := st.ike.transport || NotifiesTransport(m)),
        sawReadableAuth := st.sawReadableAuth || ReadableAuth(m),
        negotiations := st.negotiations + NegotiationIn(m, false))
  }

  function OnMessage(st: State, m: Message): State {
    if m.exchangeType == EXCHANGE_IKE_SA_INIT then OnInit(st, m)
    else if m.exchangeType == EXCHANGE_IKE_AUTH then OnAuth(st, m)
    else if m.exchangeType == EXCHANGE_CREATE_CHILD_SA then
      st.(negotiations := st.negotiations + NegotiationIn(m, true))
    else st
  }

  function Folded(ms: seq<Message>): State {
    if ms == [] then START else OnMessage(Folded(ms[..|ms| - 1]), ms[|ms| - 1])
  }

  /** The record built from one SA's messages. */
  datatype Session = Session(initiatorSpi: Bytes, responderSpi: Bytes, ike: Ike, mode: Mode, pfs: Pfs, complete: bool)

  function ResponderSpi(ms: seq<Message>): Bytes {
    if ms == [] then ZERO_SPI
    else if ms[0].responderSpi != ZERO_SPI then ms[0].responderSpi
    else ResponderSpi(ms[1..])
  }

  predicate Complete(st: State) {
    st.sawInitResponse || (st.sawInit && st.ike.encryption.Some?)
  }

  function ModeOf(st: State): Mode {
    if st.ike.transport then Transport else if st.sawReadableAuth then Tunnel else UnknownMode
  }

  function PfsOf(st: State): Pfs {
    if exists c :: c in st.negotiations && (c.hasKe || c.dhOk) then Enabled
    else if exists c :: c in st.negotiations && c.rekey then Disabled
    else if Complete(st) && exists c :: c in st.negotiations && !c.rekey then Disabled
    else UnknownPfs
  }

  function Analysed(ms: seq<Message>): Session
    requires ms != []
  {
    var st := Folded(ms);
    Session(ms[0].initiatorSpi, ResponderSpi(ms), st.ike, ModeOf(st), PfsOf(st), Complete(st))
  }

  method Analyse(ms: seq<Message>) returns (s: Session)
    requires ms != []
    ensures s == Analysed(ms)
  {
    var st := START;
    var i := 0;
    while i < |ms|
      invariant 0 <= i <= |ms|
      invariant st == Folded(ms[..i])
    {
      assert ms[..i + 1][..i] == ms[..i];
      st := OnMessage(st, ms[i]);
      i := i + 1;
    }
    assert ms[..|ms|] == ms;
    s := Session(ms[0].initiatorSpi, ResponderSpi(ms), st.ike, ModeOf(st), PfsOf(st), Complete(st));
  }

  // ---------------------------------------------------------------------------
  // What the outcome means: conditions on the set of messages
  // ---------------------------------------------------------------------------

  predicate InitWithProposals(m: Message) {
    m.exchangeType == EXCHANGE_IKE_SA_INIT && OfferedIn(m) != []
  }

  predicate IsInit(m: Message) {
    m.exchangeType == EXCHANGE_IKE_SA_INIT
  }

  predicate InitAnswered(m: Message) {
    InitWithProposals(m) && IsResponse(m)
  }

  predicate OffersCipher(m: Message) {
    InitWithProposals(m) && FirstTransformOf(OfferedIn(m)[0].transforms, TRANSFORM_TYPE_ENCR).Some?
  }

  predicate Establishes(m: Message) {
    InitAnswered(m) || OffersCipher(m)
  }

  predicate InAuth(m: Message) {
    m.exchangeType == EXCHANGE_IKE_AUTH
  }

  predicate NegotiatesChild(m: Message) {
    (InAuth(m) || m.exchangeType == EXCHANGE_CREATE_CHILD_SA) && FirstChildSa(AllPayloads(m)).Some?
  }

  predicate AuthWithTransport(m: Message) {
    InAuth(m) && NotifiesTransport(m)
  }

  predicate AuthInTheClear(m: Message) {
    InAuth(m) && ReadableAuth(m)
  }

  predicate Rekeys(m: Message) {
    NegotiatesChild(m) && !InAuth(m)
  }

  predicate AuthChild(m: Message) {
    NegotiatesChild(m) && InAuth(m)
  }

  predicate FreshKeys(m: Message) {
    FirstChildSaIsOne(AllPayloads(m));
    && NegotiatesChild(m)
    && (HasType(AllPayloads(m), PAYLOAD_KE) || HasDh(ProposalsOf(FirstChildSa(AllPayloads(m)).value)[0]))
  }

  ghost predicate Some1(ms: seq<Message>, p: Message -> bool) {
    exists m :: m in ms && p(m)
  }

  /** The outcome as the documentation words it, with no order and no counting in it. */
  ghost predicate IsComplete(ms: seq<Message>) {
    Some1(ms, Establishes)
  }

  ghost function ModeMeaning(ms: seq<Message>): Mode {
    if Some1(ms, AuthWithTransport) then Transport
    else if Some1(ms, AuthInTheClear) then Tunnel
    else UnknownMode
  }

  ghost function PfsMeaning(ms: seq<Message>): Pfs {
    if Some1(ms, FreshKeys) then Enabled
    else if Some1(ms, Rekeys) then Disabled
    else if IsComplete(ms) && Some1(ms, AuthChild) then Disabled
    else UnknownPfs
  }

  lemma SomeSnoc(ms: seq<Message>, p: Message -> bool)
    requires ms != []
    ensures Some1(ms, p) <==> Some1(ms[..|ms| - 1], p) || p(ms[|ms| - 1])
  {
    var n := |ms| - 1;
    assert ms == ms[..n] + [ms[n]];
  }

  ghost predicate InitFlagsMean(st: State, ms: seq<Message>) {
    && (st.sawInit <==> Some1(ms, IsInit))
    && (st.sawInitResponse <==> Some1(ms, InitAnswered))
    && (st.appliedFromResponse <==> st.sawInitResponse)
    && (st.ike.encryption.Some? ==> Some1(ms, OffersCipher))
    && (!st.sawInitResponse && Some1(ms, OffersCipher) ==> st.ike.encryption.Some?)
  }

  ghost predicate AuthFlagsMean(st: State, ms: seq<Message>) {
    && (st.ike.transport <==> Some1(ms, AuthWithTransport))
    && (st.sawReadableAuth <==> Some1(ms, AuthInTheClear))
  }

  ghost predicate NegotiationsMean(st: State, ms: seq<Message>) {
    && ((exists c :: c in st.negotiations && (c.hasKe || c.dhOk)) <==> Some1(ms, FreshKeys))
    && ((exists c :: c in st.negotiations && c.rekey) <==> Some1(ms, Rekeys))
    && ((exists c :: c in st.negotiations && !c.rekey) <==> Some1(ms, AuthChild))
  }

  lemma InitFlagsStep(st: State, m: Message)
    ensures var st' := OnMessage(st, m);
            && st'.sawInit == (st.sawInit || IsInit(m))
            && st'.sawInitResponse == (st.sawInitResponse || InitAnswered(m))
            && st'.appliedFromResponse == (st.appliedFromResponse || InitAnswered(m))
            && (st.ike.encryption.Some? ==> st'.ike.encryption.Some?)
            && (st'.ike.encryption.Some? ==> st.ike.encryption.Some? || OffersCipher(m))
            && (OffersCipher(m) && !st.appliedFromResponse ==> st'.ike.encryption.Some?)
  {
  }

  lemma {:induction false} FoldMeansInitFlags(ms: seq<Message>)
    ensures InitFlagsMean(Folded(ms), ms)
    decreases |ms|
  {
    if ms != [] {
      var n := |ms| - 1;
      FoldMeansInitFlags(ms[..n]);
      SomeSnoc(ms, IsInit);
      SomeSnoc(ms, InitAnswered);
      SomeSnoc(ms, OffersCipher);
      InitFlagsStep(Folded(ms[..n]), ms[n]);
    }
  }

  lemma AuthFlagsStep(st: State, m: Message)
    ensures var st' := OnMessage(st, m);
            && st'.ike.transport == (st.ike.transport || AuthWithTransport(m))
            && st'.sawReadableAuth == (st.sawReadableAuth || AuthInTheClear(m))
  {
  }

  lemma {:induction false} FoldMeansAuthFlags(ms: seq<Message>)
    ensures AuthFlagsMean(Folded(ms), ms)
    decreases |ms|
  {
    if ms != [] {
      var n := |ms| - 1;
      FoldMeansAuthFlags(ms[..n]);
      SomeSnoc(ms, AuthWithTransport);
      SomeSnoc(ms, AuthInTheClear);
      AuthFlagsStep(Folded(ms[..n]), ms[n]);
    }
  }

  lemma {:induction false} FoldMeansNegotiations(ms: seq<Message>)
    ensures NegotiationsMean(Folded(ms), ms)
    decreases |ms|
  {
    if ms != [] {
      var n := |ms| - 1;
      FoldMeansNegotiations(ms[..n]);
      SomeSnoc(ms, FreshKeys);
      SomeSnoc(ms, Rekeys);
      SomeSnoc(ms, AuthChild);
      NegotiationsSnoc(Folded(ms[..n]), ms[n]);
    }
  }

  lemma NegotiationsSnoc(st: State, m: Message)
    ensures var st' := OnMessage(st, m);
            && ((exists c :: c in st'.negotiations && (c.hasKe || c.dhOk)) <==>
                  (exists c :: c in st.negotiations && (c.hasKe || c.dhOk)) || FreshKeys(m))
            && ((exists c :: c in st'.negotiations && c.rekey) <==>
                  (exists c :: c in st.negotiations && c.rekey) || (NegotiatesChild(m) && !InAuth(m)))
            && ((exists c :: c in st'.negotiations && !c.rekey) <==>
                  (exists c :: c in st.negotiations && !c.rekey) || (NegotiatesChild(m) && InAuth(m)))
  {
    FirstChildSaIsOne(AllPayloads(m));
    var st' := OnMessage(st, m);
    var added := if InAuth(m) then NegotiationIn(m, false)
                 else if m.exchangeType == EXCHANGE_CREATE_CHILD_SA then NegotiationIn(m, true) else [];
    assert st'.negotiations == st.negotiations + added;
    if NegotiatesChild(m) {
      assert added[0] in st'.negotiations;
    } else {
      assert added == [];
    }
  }

  /** Mode, PFS and completeness are exactly what the documentation says about the messages. */
  lemma OutcomeMeans(ms: seq<Message>)
    requires ms != []
    ensures Analysed(ms).complete == IsComplete(ms)
    ensures Analysed(ms).mode == ModeMeaning(ms)
    ensures Analysed(ms).pfs == PfsMeaning(ms)
  {
    CompleteMeans(ms);
    FoldMeansAuthFlags(ms);
    FoldMeansNegotiations(ms);
  }

  lemma CompleteMeans(ms: seq<Message>)
    ensures Complete(Folded(ms)) == IsComplete(ms)
  {
    FoldMeansInitFlags(ms);
    EstablishedBy(ms);
  }

  lemma EstablishedBy(ms: seq<Message>)
    ensures IsComplete(ms) <==> Some1(ms, InitAnswered) || (Some1(ms, IsInit) && Some1(ms, OffersCipher))
  {
    forall m | m in ms ensures Establishes(m) <==> InitAnswered(m) || OffersCipher(m) {
    }
    forall m | m in ms && OffersCipher(m) ensures IsInit(m) {
    }
  }

  function ModeRank(m: Mode): nat {
    match m case UnknownMode => 0 case Tunnel => 1 case Transport => 2
  }

  function PfsRank(p: Pfs): nat {
    match p case UnknownPfs => 0 case Disabled => 1 case Enabled => 2
  }

  /** Seeing more messages never lowers what is known. */
  lemma MoreMessagesKnowMore(ms: seq<Message>, more: seq<Message>)
    requires ms != [] && more != []
    requires forall m :: m in ms ==> m in more
    ensures PfsRank(Analysed(ms).pfs) <= PfsRank(Analysed(more).pfs)
    ensures ModeRank(Analysed(ms).mode) <= ModeRank(Analysed(more).mode)
    ensures Analysed(ms).complete ==> Analysed(more).complete
  {
    OutcomeMeans(ms);
    OutcomeMeans(more);
    forall p: Message -> bool | Some1(ms, p) ensures Some1(more, p) {
      var m :| m in ms && p(m);
      assert m in more;
    }
  }

  /** Order and repetition do not matter: mode, PFS and completeness depend on the set of messages. */
  lemma OutcomeForgetsOrder(ms: seq<Message>, other: seq<Message>)
    requires ms != [] && other != []
    requires forall m :: m in ms <==> m in other
    ensures Analysed(ms).pfs == Analysed(other).pfs
    ensures Analysed(ms).mode == Analysed(other).mode
    ensures Analysed(ms).complete == Analysed(other).complete
  {
    MoreMessagesKnowMore(ms, other);
    MoreMessagesKnowMore(other, ms);
  }

  /** As an SA's messages are extended its identity changes at most once: the initiator half
      never, the responder half only from zero. */
  lemma {:induction false} IdentityChangesOnce(ms: seq<Message>, more: seq<Message>)
    ensures ResponderSpi(ms + more) == ResponderSpi(ms) || ResponderSpi(ms) == ZERO_SPI
    decreases |ms|
  {
    if ms != [] {
      assert (ms + more)[1..] == ms[1..] + more;
      IdentityChangesOnce(ms[1..], more);
    }
  }

  // ---------------------------------------------------------------------------
  // Which message each field of the suite comes from
  // ---------------------------------------------------------------------------

  /** Message `i` opens with a proposal that counts: a response's, or a request's before any response's. */
  ghost predicate Applies(ms: seq<Message>, i: nat)
    requires i < |ms|
  {
    InitWithProposals(ms[i]) && (IsResponse(ms[i]) || forall m :: m in ms[..i] ==> !InitAnswered(m))
  }

  function CipherIn(p: Proposal): Option<(nat, Option<nat>)> {
    var t := FirstTransformOf(p.transforms, TRANSFORM_TYPE_ENCR);
    if t.Some? then Some((t.value.id, t.value.keyLength)) else None
  }

  function PrfIn(p: Proposal): Option<nat> {
    var t := FirstTransformOf(p.transforms, TRANSFORM_TYPE_PRF);
    if t.Some? then Some(t.value.id) else None
  }

  function DhIn(p: Proposal): Option<nat> {
    var t := FirstTransformOf(p.transforms, TRANSFORM_TYPE_DH);
    if t.Some? && t.value.id != 0 then Some(t.value.id) else None
  }

  /** An authenticating cipher carries its own integrity. */
  function IntegrityIn(p: Proposal): Option<Integrity> {
    var cipher := CipherIn(p);
    var t := FirstTransformOf(p.transforms, TRANSFORM_TYPE_INTEG);
    if cipher.Some? && cipher.value.0 in AEAD_CIPHERS then Some(Implicit)
    else if t.Some? && t.value.id != 0 then Some(Integ(t.value.id))
    else None
  }

  /** Message `i` is the last one that counts and carries the field `f`. */
  ghost predicate LastToCarry<T>(ms: seq<Message>, i: nat, f: Proposal -> Option<T>)
    requires i < |ms|
  {
    && Applies(ms, i)
    && f(OfferedIn(ms[i])[0]).Some?
    && forall j :: i < j < |ms| && Applies(ms, j) ==> f(OfferedIn(ms[j])[0]).None?
  }

  ghost predicate NoneCarries<T>(ms: seq<Message>, f: Proposal -> Option<T>) {
    forall j :: 0 <= j < |ms| && Applies(ms, j) ==> f(OfferedIn(ms[j])[0]).None?
  }

  lemma {:induction false} AppliesInPrefix(ms: seq<Message>, n: nat, i: nat)
    requires i < n <= |ms|
    ensures Applies(ms[..n], i) <==> Applies(ms, i)
  {
    assert ms[..n][..i] == ms[..i];
  }

  lemma LastToCarryInPrefix<T>(ms: seq<Message>, i: nat, f: Proposal -> Option<T>)
    requires i + 1 < |ms| && LastToCarry(ms, i, f)
    ensures LastToCarry(ms[..|ms| - 1], i, f)
  {
    var n := |ms| - 1;
    forall j | 0 <= j < n ensures Applies(ms[..n], j) <==> Applies(ms, j) {
      AppliesInPrefix(ms, n, j);
    }
  }

  /** The group an SA_INIT message's KE payload names. */
  function OwnGroup(m: Message): Option<nat> {
    if IsInit(m) then KeGroup(m) else None
  }

  /** `after` is `before` with every field `m`'s first proposal carries taken from it. */
  ghost predicate Took(before: Ike, after: Ike, m: Message)
    requires OfferedIn(m) != []
  {
    var p := OfferedIn(m)[0];
    && after.encryption == (if CipherIn(p).Some? then CipherIn(p) else before.encryption)
    && after.integrity == (if IntegrityIn(p).Some? then IntegrityIn(p) else before.integrity)
    && after.prf == (if PrfIn(p).Some? then PrfIn(p) else before.prf)
    && after.dhGroup == (if DhIn(p).Some? then DhIn(p)
                         else if before.dhGroup.Some? then before.dhGroup else OwnGroup(m))
  }

  /** The suite stands, except that a missing group may be learned from a KE payload. */
  ghost predicate Kept(before: Ike, after: Ike, m: Message) {
    && after.encryption == before.encryption && after.integrity == before.integrity && after.prf == before.prf
    && after.dhGroup == (if before.dhGroup.Some? then before.dhGroup else OwnGroup(m))
  }

  lemma ApplyTakes(ike: Ike, p: Proposal)
    ensures var after := ApplyProposal(ike, p);
            && after.encryption == (if CipherIn(p).Some? then CipherIn(p) else ike.encryption)
            && after.integrity == (if IntegrityIn(p).Some? then IntegrityIn(p) else ike.integrity)
            && after.prf == (if PrfIn(p).Some? then PrfIn(p) else ike.prf)
            && after.dhGroup == (if DhIn(p).Some? then DhIn(p) else ike.dhGroup)
  {
  }

  predicate Counts(st: State, m: Message) {
    InitWithProposals(m) && (IsResponse(m) || !st.appliedFromResponse)
  }

  lemma MessageTakes(st: State, m: Message)
    ensures if Counts(st, m) then Took(st.ike, OnMessage(st, m).ike, m) else Kept(st.ike, OnMessage(st, m).ike, m)
  {
    if Counts(st, m) {
      ApplyTakes(st.ike, OfferedIn(m)[0]);
    }
  }

  /** One message's effect on the suite, field by field. */
  lemma SuiteStep(ms: seq<Message>)
    requires ms != []
    ensures var n := |ms| - 1;
            if Applies(ms, n) then Took(Folded(ms[..n]).ike, Folded(ms).ike, ms[n])
            else Kept(Folded(ms[..n]).ike, Folded(ms).ike, ms[n])
  {
    var n := |ms| - 1;
    FoldMeansInitFlags(ms[..n]);
    MessageTakes(Folded(ms[..n]), ms[n]);
    assert Applies(ms, n) <==> Counts(Folded(ms[..n]), ms[n]);
  }

  /** Each field of the suite is the one in the last proposal that counts and carries it. */
  lemma {:induction false} SuiteComesFromLastProposal(ms: seq<Message>, i: nat)
    requires i < |ms|
    ensures LastToCarry(ms, i, CipherIn) ==> Analysed(ms).ike.encryption == CipherIn(OfferedIn(ms[i])[0])
    ensures LastToCarry(ms, i, IntegrityIn) ==> Analysed(ms).ike.integrity == IntegrityIn(OfferedIn(ms[i])[0])
    ensures LastToCarry(ms, i, PrfIn) ==> Analysed(ms).ike.prf == PrfIn(OfferedIn(ms[i])[0])
    ensures LastToCarry(ms, i, DhIn) ==> Analysed(ms).ike.dhGroup == DhIn(OfferedIn(ms[i])[0])
    decreases |ms|
  {
    SuiteStep(ms);
    if i + 1 < |ms| {
      SuiteComesFromLastProposal(ms[..|ms| - 1], i);
      if LastToCarry(ms, i, CipherIn) {
        LastToCarryInPrefix(ms, i, CipherIn);
      }
      if LastToCarry(ms, i, IntegrityIn) {
        LastToCarryInPrefix(ms, i, IntegrityIn);
      }
      if LastToCarry(ms, i, PrfIn) {
        LastToCarryInPrefix(ms, i, PrfIn);
      }
      if LastToCarry(ms, i, DhIn) {
        LastToCarryInPrefix(ms, i, DhIn);
      }
    }
  }

  /** The first group any SA_INIT message's KE payload names. */
  function FirstOwnGroup(ms: seq<Message>): Option<nat> {
    if ms == [] then None
    else
      var n := |ms| - 1;
      var before := FirstOwnGroup(ms[..n]);
      if before.Some? then before else OwnGroup(ms[n])
  }

  /** A field no proposal that counts carries stays unknown; the group is then the first KE payload's. */
  lemma {:induction false} UnseenStaysUnknown(ms: seq<Message>)
    requires ms != []
    ensures NoneCarries(ms, CipherIn) ==> Analysed(ms).ike.encryption == None
    ensures NoneCarries(ms, IntegrityIn) ==> Analysed(ms).ike.integrity == None
    ensures NoneCarries(ms, PrfIn) ==> Analysed(ms).ike.prf == None
    ensures NoneCarries(ms, DhIn) ==> Analysed(ms).ike.dhGroup == FirstOwnGroup(ms)
    decreases |ms|
  {
    var n := |ms| - 1;
    SuiteStep(ms);
    forall j | 0 <= j < n ensures Applies(ms[..n], j) <==> Applies(ms, j) {
      AppliesInPrefix(ms, n, j);
    }
    if n > 0 {
      UnseenStaysUnknown(ms[..n]);
    }
  }

  // ---------------------------------------------------------------------------
  // Where the other fields come from
  // ---------------------------------------------------------------------------

  /** The authentication an IKE_AUTH message shows: an EAP payload, or an AUTH payload that could be read. */
  predicate ShowsEap(m: Message) {
    m.exchangeType == 35 && exists p :: p in AllPayloads(m) && p.ptype == 48
  }

  predicate ShowsMethod(m: Message, scheme: nat) {
    m.exchangeType == 35
    && exists k :: 0 <= k < |AllPayloads(m)| && AllPayloads(m)[k].ptype == 39
                   && (forall j :: 0 <= j < k ==> AllPayloads(m)[j].ptype != 39)
                   && AllPayloads(m)[k].view.AuthView? && AllPayloads(m)[k].view.authMethod == scheme
  }

  predicate Shows(m: Message, a: Auth) {
    match a
    case Eap => ShowsEap(m)
    case Method(scheme) => !ShowsEap(m) && ShowsMethod(m, scheme)
  }

  ghost predicate ShowsNoAuth(m: Message) {
    forall a :: !Shows(m, a)
  }

  lemma AuthStep(st: State, m: Message)
    ensures forall a :: Shows(m, a) ==> OnMessage(st, m).ike.authMethod == Some(a)
    ensures ShowsNoAuth(m) ==> OnMessage(st, m).ike.authMethod == st.ike.authMethod
  {
    AuthOfShows(m);
  }

  lemma AuthOfShows(m: Message)
    ensures m.exchangeType == 35 ==> forall a :: Shows(m, a) ==> AuthOf(m) == Some(a)
    ensures m.exchangeType == 35 && ShowsNoAuth(m) ==> AuthOf(m) == None
    ensures m.exchangeType != 35 ==> ShowsNoAuth(m)
  {
    var ps := AllPayloads(m);
    FirstOfTypeMeans(ps, PAYLOAD_EAP);
    FirstOfTypeMeans(ps, PAYLOAD_AUTH);
    if m.exchangeType == 35 && ShowsNoAuth(m) {
      assert !Shows(m, Eap);
      if FirstOfType(ps, PAYLOAD_AUTH).Some? {
        var k := FirstIndex(ps, PAYLOAD_AUTH);
        if ps[k].view.AuthView? {
          assert Shows(m, Method(ps[k].view.authMethod));
        }
      }
    }
  }

  lemma {:induction false} FirstIndex(ps: seq<Payload>, ptype: byte) returns (k: nat)
    requires exists p :: p in ps && p.ptype == ptype
    ensures k < |ps| && ps[k].ptype == ptype && forall j :: 0 <= j < k ==> ps[j].ptype != ptype
  {
    k := 0;
    while ps[k].ptype != ptype
      invariant k < |ps| && forall j :: 0 <= j < k ==> ps[j].ptype != ptype
      invariant exists l :: k <= l < |ps| && ps[l].ptype == ptype
      decreases |ps| - k
    {
      k := k + 1;
    }
  }

  /** The recorded method is that of the last IKE_AUTH message that shows one, EAP winning over AUTH
      within a message. */
  lemma {:induction false} AuthComesFromLast(ms: seq<Message>, i: nat, a: Auth)
    requires i < |ms| && Shows(ms[i], a) && forall j :: i < j < |ms| ==> ShowsNoAuth(ms[j])
    ensures Analysed(ms).ike.authMethod == Some(a)
    decreases |ms|
  {
    var n := |ms| - 1;
    AuthStep(Folded(ms[..n]), ms[n]);
    if i < n {
      AuthComesFromLast(ms[..n], i, a);
    }
  }

  lemma {:induction false} NoAuthFolded(ms: seq<Message>)
    requires forall i :: 0 <= i < |ms| ==> ShowsNoAuth(ms[i])
    ensures Folded(ms).ike.authMethod == None
    decreases |ms|
  {
    if ms != [] {
      var n := |ms| - 1;
      NoAuthFolded(ms[..n]);
      AuthStep(Folded(ms[..n]), ms[n]);
    }
  }

  /** And none is recorded when no message shows one. */
  lemma UnseenAuthStaysUnknown(ms: seq<Message>)
    requires ms != [] && forall i :: 0 <= i < |ms| ==> ShowsNoAuth(ms[i])
    ensures Analysed(ms).ike.authMethod == None
  {
    NoAuthFolded(ms);
  }

  function IndexOf(xs: seq<nat>, x: nat): nat {
    if xs == [] || xs[0] == x then 0 else 1 + IndexOf(xs[1..], x)
  }

  /** `d` lists the values of `xs` once each, in the order of their first occurrences. */
  ghost predicate OnceEach(d: seq<nat>, xs: seq<nat>) {
    && (forall x :: x in d <==> x in xs)
    && (forall a, b :: 0 <= a < b < |d| ==> IndexOf(xs, d[a]) < IndexOf(xs, d[b]))
  }

  lemma {:induction false} IndexSnoc(xs: seq<nat>, y: nat, x: nat)
    ensures x in xs ==> IndexOf(xs + [y], x) == IndexOf(xs, x) < |xs|
    ensures x !in xs && x == y ==> IndexOf(xs + [y], x) == |xs|
  {
    if xs != [] {
      assert (xs + [y])[1..] == xs[1..] + [y];
      if xs[0] != x {
        IndexSnoc(xs[1..], y, x);
      }
    }
  }

  lemma {:induction false} DeduplicatedIsOnceEach(xs: seq<nat>)
    ensures OnceEach(Deduplicated(xs), xs)
    decreases |xs|
  {
    if xs != [] {
      var n := |xs| - 1;
      var rest := Deduplicated(xs[..n]);
      DeduplicatedIsOnceEach(xs[..n]);
      assert xs == xs[..n] + [xs[n]];
      forall x ensures x in xs[..n] ==> IndexOf(xs, x) == IndexOf(xs[..n], x) < n {
        IndexSnoc(xs[..n], xs[n], x);
      }
      IndexSnoc(xs[..n], xs[n], xs[n]);
    }
  }

  /** The groups some transforms name for additional key exchanges, in order. */
  function ExtraIds(ts: seq<Transform>): seq<nat> {
    if ts == [] then []
    else
      var n := |ts| - 1;
      ExtraIds(ts[..n]) + (if ts[n].ttype in {6, 7, 8, 9, 10, 11, 12} && ts[n].id > 0 then [ts[n].id] else [])
  }

  lemma {:induction false} AdditionalSnoc(ts: seq<Transform>, t: Transform)
    ensures AdditionalGroups(ts + [t]) ==
            AdditionalGroups(ts) + if 6 <= t.ttype < 13 && t.id != 0 then [t.id] else []
  {
    if ts == [] {
      assert [t][1..] == [] && ts + [t] == [t];
    } else {
      assert (ts + [t])[1..] == ts[1..] + [t];
      AdditionalSnoc(ts[1..], t);
    }
  }

  lemma {:induction false} AdditionalAreExtra(ts: seq<Transform>)
    ensures AdditionalGroups(ts) == ExtraIds(ts)
    decreases |ts|
  {
    if ts != [] {
      var n := |ts| - 1;
      AdditionalAreExtra(ts[..n]);
      AdditionalSnoc(ts[..n], ts[n]);
      assert ts == ts[..n] + [ts[n]];
    }
  }

  lemma AdditionalStep(st: State, m: Message)
    ensures var after := OnMessage(st, m).ike.additionalKeyExchanges;
            if Counts(st, m) then OnceEach(after, ExtraIds(OfferedIn(m)[0].transforms))
            else after == st.ike.additionalKeyExchanges
  {
    if Counts(st, m) {
      AdditionalAreExtra(OfferedIn(m)[0].transforms);
      DeduplicatedIsOnceEach(AdditionalGroups(OfferedIn(m)[0].transforms));
    }
  }

  lemma AdditionalSteps(ms: seq<Message>)
    requires ms != []
    ensures var n := |ms| - 1;
            var after := Folded(ms).ike.additionalKeyExchanges;
            if Applies(ms, n) then OnceEach(after, ExtraIds(OfferedIn(ms[n])[0].transforms))
            else after == Folded(ms[..n]).ike.additionalKeyExchanges
  {
    var n := |ms| - 1;
    FoldMeansInitFlags(ms[..n]);
    AdditionalStep(Folded(ms[..n]), ms[n]);
    assert Applies(ms, n) <==> Counts(Folded(ms[..n]), ms[n]);
  }

  /** The additional key exchanges are those of the last proposal that counts, each once, in order. */
  lemma {:induction false} AdditionalComeFromLast(ms: seq<Message>, i: nat)
    requires i < |ms| && Applies(ms, i) && forall j :: i < j < |ms| ==> !Applies(ms, j)
    ensures OnceEach(Analysed(ms).ike.additionalKeyExchanges, ExtraIds(OfferedIn(ms[i])[0].transforms))
    decreases |ms|
  {
    var n := |ms| - 1;
    AdditionalSteps(ms);
    if i < n {
      forall j | 0 <= j < n ensures Applies(ms[..n], j) <==> Applies(ms, j) {
        AppliesInPrefix(ms, n, j);
      }
      AdditionalComeFromLast(ms[..n], i);
    }
  }

  /** And none when no proposal counts. */
  lemma {:induction false} NoProposalNoAdditional(ms: seq<Message>)
    requires forall i :: 0 <= i < |ms| ==> !Applies(ms, i)
    ensures Folded(ms).ike.additionalKeyExchanges == []
    decreases |ms|
  {
    if ms != [] {
      var n := |ms| - 1;
      AdditionalSteps(ms);
      forall j | 0 <= j < n ensures Applies(ms[..n], j) <==> Applies(ms, j) {
        AppliesInPrefix(ms, n, j);
      }
      NoProposalNoAdditional(ms[..n]);
    }
  }

  /** An SA is named after its first message's initiator half and the first responder half that is not
      zero. */
  lemma {:induction false} IdentityMeans(ms: seq<Message>)
    requires ms != []
    ensures Analysed(ms).initiatorSpi == ms[0].initiatorSpi
    ensures Analysed(ms).responderSpi == ResponderSpi(ms)
    ensures forall k :: 0 <= k < |ms| && ms[k].responderSpi != seq(8, _ => 0)
                        && (forall j :: 0 <= j < k ==> ms[j].responderSpi == seq(8, _ => 0)) ==>
              ResponderSpi(ms) == ms[k].responderSpi
    ensures (forall m :: m in ms ==> m.responderSpi == seq(8, _ => 0)) ==> ResponderSpi(ms) == seq(8, _ => 0)
  {
    assert ZERO_SPI == seq(8, _ => 0);
    FirstNonZero(ms);
  }

  lemma {:induction false} FirstNonZero(ms: seq<Message>)
    ensures forall k :: 0 <= k < |ms| && ms[k].responderSpi != ZERO_SPI
                        && (forall j :: 0 <= j < k ==> ms[j].responderSpi == ZERO_SPI) ==>
              ResponderSpi(ms) == ms[k].responderSpi
    ensures (forall m :: m in ms ==> m.responderSpi == ZERO_SPI) ==> ResponderSpi(ms) == ZERO_SPI
  {
    if ms != [] && ms[0].responderSpi == ZERO_SPI {
      var rest := ms[1..];
      FirstNonZero(rest);
      forall k | 0 <= k < |ms| && ms[k].responderSpi != ZERO_SPI
                 && (forall j :: 0 <= j < k ==> ms[j].responderSpi == ZERO_SPI)
        ensures ResponderSpi(ms) == ms[k].responderSpi
      {
        assert rest[k - 1] == ms[k];
        assert forall j :: 0 <= j < k - 1 ==> rest[j] == ms[j + 1];
      }
      assert forall m :: m in rest ==> m in ms;
    }
  }
}
