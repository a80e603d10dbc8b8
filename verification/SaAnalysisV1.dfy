/** What an IKEv1 exchange reveals (core/ike_parser/ikev1.py), and its independence from
    retransmission: every output listed here is a function of the first occurrences alone. */
module SaAnalysisV1 {
  import opened IkeV1Wire
  import opened IkeWire
  import opened SaCommon
  import opened Wrappers

  const EXCHANGE_V1_AGGRESSIVE: byte := 4
  const EXCHANGE_V1_QUICK: byte := 32
  const V1_PAYLOAD_SA: byte := 1
  const V1_PAYLOAD_KE: byte := 4
  const V1_PAYLOAD_ID: byte := 5
  const V1_PAYLOAD_NAT_D: byte := 20
  const V1_PAYLOAD_NAT_D_DRAFT: byte := 130
  const ZERO_COOKIE: Bytes := [0, 0, 0, 0, 0, 0, 0, 0]

  const P2_LIFE_TYPE := 1
  const P2_LIFE_DURATION := 2
  const P2_GROUP_DESC := 3
  const P2_ENCAP_MODE := 4
  const P2_AUTH_ALG := 5
  const P2_KEY_LENGTH := 6

  datatype Cipher = Phase1Cipher(enc: nat, keyLength: Option<nat>) | EspCipher(transformId: nat, keyLength: Option<nat>)
  datatype Hash = Phase1Hash(id: nat) | EspAuth(id: nat)

  datatype Ike = Ike(encryption: Option<Cipher>, integrity: Option<Hash>, prf: Option<nat>, authMethod: Option<nat>,
                     dhGroup: Option<nat>, lifetimeSec: Option<nat>, mode: Mode, pfs: Pfs)

  const NOTHING := Ike(None, None, None, None, None, None, UnknownMode, UnknownPfs)

  datatype Session = Session(initiatorCookie: Bytes, responderCookie: Bytes, aggressive: bool, ike: Ike,
                             natTraversal: bool, complete: bool)

  function Lookup(attrs: map<nat, nat>, atype: nat): Option<nat> {
    if atype in attrs then Some(attrs[atype]) else None
  }

  function Or<T>(a: Option<T>, b: Option<T>): Option<T> {
    if a.Some? then a else b
  }

  /** The first message satisfying `p`, in capture order. */
  function First(ms: seq<Message>, p: Message -> bool): Option<Message> {
    if ms == [] then None else if p(ms[0]) then Some(ms[0]) else First(ms[1..], p)
  }

  predicate OpensPhase1(m: Message) {
    m.messageId == 0 && HasType(m.payloads, V1_PAYLOAD_SA)
  }

  predicate CarriesPhase1Sa(m: Message) {
    m.exchangeType != EXCHANGE_V1_QUICK && HasType(m.payloads, V1_PAYLOAD_SA)
  }

  predicate IsQuickOffer(m: Message) {
    m.exchangeType == EXCHANGE_V1_QUICK && HasType(m.payloads, V1_PAYLOAD_SA)
  }

  predicate IsAggressive(m: Message) {
    m.exchangeType == EXCHANGE_V1_AGGRESSIVE
  }

  predicate HasNatD(m: Message) {
    HasType(m.payloads, V1_PAYLOAD_NAT_D) || HasType(m.payloads, V1_PAYLOAD_NAT_D_DRAFT)
  }

  predicate NamesResponder(m: Message) {
    m.responderSpi != ZERO_COOKIE
  }

  function LifetimeFrom(attrs: map<nat, nat>, lifeType: nat, duration: nat): Option<nat> {
    if lifeType in attrs && attrs[lifeType] != V1_LIFE_TYPE_SECONDS then None else Lookup(attrs, duration)
  }

  function ApplyPhase1(ike: Ike, a: map<nat, nat>): Ike {
    var enc, hash := Lookup(a, V1_ATTR_ENCRYPTION), Lookup(a, V1_ATTR_HASH);
    ike.(
      encryption := if enc.Some? then Some(Phase1Cipher(enc.value, Lookup(a, V1_ATTR_KEY_LENGTH))) else ike.encryption,
      integrity := if hash.Some? then Some(Phase1Hash(hash.value)) else ike.integrity,
      prf := Or(hash, ike.prf),
      authMethod := Or(Lookup(a, V1_ATTR_AUTH_METHOD), ike.authMethod),
      dhGroup := Or(Lookup(a, V1_ATTR_GROUP_DESC), ike.dhGroup),
      lifetimeSec := Or(LifetimeFrom(a, V1_ATTR_LIFE_TYPE, V1_ATTR_LIFE_DURATION), ike.lifetimeSec))
  }

  /** The IPsec SA overrides the phase-1 suite: it is what protects the data. */
  function ApplyQuickMode(ike: Ike, t: FirstTransformView, hasKe: bool): Ike {
    var a := t.attrs;
    var group := Lookup(a, P2_GROUP_DESC);
    var grouped := group.Some? && group.value != 0;
    var encap := Lookup(a, P2_ENCAP_MODE);
    var alg := Lookup(a, P2_AUTH_ALG);
    ike.(
      encryption := Some(EspCipher(t.transformId, Lookup(a, P2_KEY_LENGTH))),
      integrity := if alg.Some? then Some(EspAuth(alg.value)) else ike.integrity,
      dhGroup := if grouped then group else ike.dhGroup,
      mode := if encap == Some(2) || encap == Some(4) then Transport
              else if encap == Some(1) || encap == Some(3) then Tunnel else ike.mode,
      lifetimeSec := Or(LifetimeFrom(a, P2_LIFE_TYPE, P2_LIFE_DURATION), ike.lifetimeSec),
      pfs := if hasKe || grouped then Enabled else Disabled)
  }

  /** The first transform of a message's SA payload, when it can be read. */
  function SaTransform(m: Message): Option<FirstTransformView> {
    match FirstOfType(m.payloads, V1_PAYLOAD_SA)
    case None => None
    case Some(p) => match FirstTransform(p.raw)
      case Ok(t) => Some(t)
      case WireFormatError => None
  }

  function WithPhase1(ms: seq<Message>): Ike {
    var m := Or(First(ms, OpensPhase1), First(ms, CarriesPhase1Sa));
    if m.None? then NOTHING
    else
      var t := SaTransform(m.value);
      if t.None? then NOTHING else ApplyPhase1(NOTHING, t.value.attrs)
  }

  function WithQuickMode(ike: Ike, ms: seq<Message>): Ike {
    var m := First(ms, IsQuickOffer);
    if m.None? then ike
    else
      var t := SaTransform(m.value);
      if t.None? then ike else ApplyQuickMode(ike, t.value, HasType(m.value.payloads, V1_PAYLOAD_KE))
  }

  function Analysed(ms: seq<Message>, natPort: bool): Session
    requires ms != []
  {
    var opening := First(ms, OpensPhase1);
    var named := First(ms, NamesResponder);
    Session(
      ms[0].initiatorSpi,
      if named.Some? then named.value.responderSpi else ZERO_COOKIE,
      if opening.Some?
      then HasType(opening.value.payloads, V1_PAYLOAD_ID) || opening.value.exchangeType == EXCHANGE_V1_AGGRESSIVE
      else First(ms, IsAggressive).Some?,
      WithQuickMode(WithPhase1(ms), ms),
      natPort || First(ms, HasNatD).Some?,
      opening.Some?)
  }

  /** The search every query makes: the first message that satisfies `p`. */
  method FindFirst(ms: seq<Message>, p: Message -> bool) returns (found: Option<Message>)
    ensures found == First(ms, p)
  {
    var i := 0;
    while i < |ms|
      invariant 0 <= i <= |ms|
      invariant First(ms, p) == First(ms[i..], p)
    {
      assert ms[i..][1..] == ms[i + 1..];
      if p(ms[i]) {
        return Some(ms[i]);
      }
      i := i + 1;
    }
    found := None;
  }

  method SawNatD(ms: seq<Message>, natPort: bool) returns (traversal: bool)
    ensures traversal == (natPort || First(ms, HasNatD).Some?)
  {
    traversal := natPort;
    var i := 0;
    while i < |ms|
      invariant 0 <= i <= |ms|
      invariant (natPort || First(ms, HasNatD).Some?) == (traversal || First(ms[i..], HasNatD).Some?)
    {
      assert ms[i..][1..] == ms[i + 1..];
      if HasNatD(ms[i]) {
        traversal := true;
      }
      i := i + 1;
    }
  }

  /** Phase 1 from the opening message, or from the first other one with an SA; then Quick Mode. */
  method ReadParameters(ms: seq<Message>, opening: Option<Message>) returns (ike: Ike)
    requires opening == First(ms, OpensPhase1)
    ensures ike == WithQuickMode(WithPhase1(ms), ms)
  {
    ike := NOTHING;
    var saMessage := opening;
    if saMessage.None? {
      saMessage := FindFirst(ms, CarriesPhase1Sa);
    }
    if saMessage.Some? {
      var t := SaTransform(saMessage.value);
      if t.Some? {
        ike := ApplyPhase1(ike, t.value.attrs);
      }
    }
    var quick := FindFirst(ms, IsQuickOffer);
    if quick.Some? {
      var t := SaTransform(quick.value);
      if t.Some? {
        ike := ApplyQuickMode(ike, t.value, HasType(quick.value.payloads, V1_PAYLOAD_KE));
      }
    }
  }

  method Analyse(ms: seq<Message>, natPort: bool) returns (s: Session)
    requires ms != []
    ensures s == Analysed(ms, natPort)
  {
    var named := FindFirst(ms, NamesResponder);
    var responder := if named.Some? then named.value.responderSpi else ZERO_COOKIE;
    var opening := FindFirst(ms, OpensPhase1);
    var aggressive: bool;
    if opening.Some? {
      aggressive := HasType(opening.value.payloads, V1_PAYLOAD_ID)
                    || opening.value.exchangeType == EXCHANGE_V1_AGGRESSIVE;
    } else {
      var byType := FindFirst(ms, IsAggressive);
      aggressive := byType.Some?;
    }
    var ike := ReadParameters(ms, opening);
    var traversal := SawNatD(ms, natPort);
    s := Session(ms[0].initiatorSpi, responder, aggressive, ike, traversal, opening.Some?);
  }

  // ---------------------------------------------------------------------------
  // Retransmission
  // ---------------------------------------------------------------------------

  /** The messages without their later copies. */
  function FirstOccurrences(ms: seq<Message>): seq<Message> {
    if ms == [] then []
    else
      var n := |ms| - 1;
      FirstOccurrences(ms[..n]) + (if ms[n] in ms[..n] then [] else [ms[n]])
  }

  lemma {:induction false} FirstAppend(a: seq<Message>, b: seq<Message>, p: Message -> bool)
    ensures First(a + b, p) == Or(First(a, p), First(b, p))
    decreases |a|
  {
    if a == [] {
      assert a + b == b;
    } else {
      assert (a + b)[1..] == a[1..] + b;
      FirstAppend(a[1..], b, p);
    }
  }

  lemma {:induction false} FirstSomeIff(ms: seq<Message>, p: Message -> bool)
    ensures First(ms, p).Some? <==> exists m :: m in ms && p(m)
    decreases |ms|
  {
    if ms != [] && !p(ms[0]) {
      FirstSomeIff(ms[1..], p);
    }
  }

  /** Every first-match query gives the same answer with and without later copies. */
  lemma {:induction false} FirstIgnoresCopies(ms: seq<Message>, p: Message -> bool)
    ensures First(FirstOccurrences(ms), p) == First(ms, p)
    decreases |ms|
  {
    if ms != [] {
      var n := |ms| - 1;
      FirstIgnoresCopies(ms[..n], p);
      var added := if ms[n] in ms[..n] then [] else [ms[n]];
      FirstAppend(FirstOccurrences(ms[..n]), added, p);
      assert ms == ms[..n] + [ms[n]];
      FirstAppend(ms[..n], [ms[n]], p);
      FirstSomeIff(ms[..n], p);
    }
  }

  lemma {:induction false} FirstOccurrencesStart(ms: seq<Message>)
    requires ms != []
    ensures FirstOccurrences(ms) != [] && FirstOccurrences(ms)[0] == ms[0]
    decreases |ms|
  {
    var n := |ms| - 1;
    if n > 0 {
      FirstOccurrencesStart(ms[..n]);
    }
  }

  /** Main result.  The whole record is that of the first occurrences. */
  lemma AnalysisIgnoresCopies(ms: seq<Message>, natPort: bool)
    requires ms != []
    ensures FirstOccurrences(ms) != []
    ensures Analysed(FirstOccurrences(ms), natPort) == Analysed(ms, natPort)
  {
    FirstOccurrencesStart(ms);
    FirstIgnoresCopies(ms, OpensPhase1);
    FirstIgnoresCopies(ms, CarriesPhase1Sa);
    FirstIgnoresCopies(ms, IsQuickOffer);
    FirstIgnoresCopies(ms, IsAggressive);
    FirstIgnoresCopies(ms, HasNatD);
    FirstIgnoresCopies(ms, NamesResponder);
  }

  lemma {:induction false} OccurrencesAfterCopy(before: seq<Message>, m: Message, after: seq<Message>)
    requires m in before
    ensures FirstOccurrences(before + [m] + after) == FirstOccurrences(before + after)
    decreases |after|
  {
    if after == [] {
      assert before + after == before;
      assert before + [m] + after == before + [m];
      assert (before + [m])[..|before|] == before;
    } else {
      var n := |after| - 1;
      OccurrencesAfterCopy(before, m, after[..n]);
      var s, t := before + [m] + after, before + after;
      assert s[..|s| - 1] == before + [m] + after[..n];
      assert t[..|t| - 1] == before + after[..n];
      assert after[n] in before + [m] + after[..n] <==> after[n] in before + after[..n];
    }
  }

  /** A retransmission inserted anywhere after the original changes nothing in the record. */
  lemma RetransmissionChangesNothing(before: seq<Message>, m: Message, after: seq<Message>, natPort: bool)
    requires m in before
    ensures Analysed(before + [m] + after, natPort) == Analysed(before + after, natPort)
  {
    OccurrencesAfterCopy(before, m, after);
    AnalysisIgnoresCopies(before + [m] + after, natPort);
    AnalysisIgnoresCopies(before + after, natPort);
  }

  // ---------------------------------------------------------------------------
  // What the record means, in the protocol's numbers (RFC 2408, RFC 2409 appendix A, RFC 2407)
  // ---------------------------------------------------------------------------

  /** Message `k` is the first that satisfies `p`. */
  ghost predicate FirstAt(ms: seq<Message>, k: nat, p: Message -> bool) {
    k < |ms| && p(ms[k]) && forall j :: 0 <= j < k ==> !p(ms[j])
  }

  lemma {:induction false} FirstMeans(ms: seq<Message>, p: Message -> bool)
    ensures forall k: nat :: FirstAt(ms, k, p) ==> First(ms, p) == Some(ms[k])
    ensures (forall m :: m in ms ==> !p(m)) ==> First(ms, p) == None
    ensures First(ms, p).Some? ==> exists k: nat :: FirstAt(ms, k, p)
  {
    if ms != [] {
      var rest := ms[1..];
      FirstMeans(rest, p);
      assert ms[0] in ms && forall m :: m in rest ==> m in ms;
      if p(ms[0]) {
        assert FirstAt(ms, 0, p);
      } else {
        forall k: nat | FirstAt(ms, k, p) ensures First(ms, p) == Some(ms[k]) {
          assert forall j :: 0 <= j < k - 1 ==> rest[j] == ms[j + 1];
          assert FirstAt(rest, k - 1, p);
        }
        if First(rest, p).Some? {
          var k: nat :| FirstAt(rest, k, p);
          assert forall j :: 0 < j <= k ==> ms[j] == rest[j - 1];
          assert FirstAt(ms, k + 1, p);
        }
      }
    }
  }

  predicate Holds(m: Message, ptype: byte) {
    exists p :: p in m.payloads && p.ptype == ptype
  }

  /** A message with id zero and an SA payload (1). */
  predicate Opening(m: Message) {
    m.messageId == 0 && Holds(m, 1)
  }

  /** Main mode or aggressive mode is read off the opening message, by an ID payload (5) or the exchange
      type (4); without one, off any message's exchange type. */
  lemma AggressiveMeans(ms: seq<Message>, natPort: bool)
    requires ms != []
    ensures forall k: nat :: FirstAt(ms, k, Opening) ==>
              (Analysed(ms, natPort).aggressive <==> Holds(ms[k], 5) || ms[k].exchangeType == 4)
    ensures (forall m :: m in ms ==> !Opening(m)) ==>
              (Analysed(ms, natPort).aggressive <==> exists m :: m in ms && m.exchangeType == 4)
  {
    OpeningIsFirst(ms);
    FirstSomeIff(ms, IsAggressive);
  }

  lemma OpeningIsFirst(ms: seq<Message>)
    ensures forall k: nat :: FirstAt(ms, k, Opening) ==> First(ms, OpensPhase1) == Some(ms[k])
    ensures First(ms, OpensPhase1).Some? <==> exists m :: m in ms && Opening(m)
  {
    forall m ensures OpensPhase1(m) <==> Opening(m) {
    }
    FirstMeans(ms, OpensPhase1);
    FirstSomeIff(ms, OpensPhase1);
    forall k: nat | FirstAt(ms, k, Opening) ensures First(ms, OpensPhase1) == Some(ms[k]) {
      assert FirstAt(ms, k, OpensPhase1);
    }
  }

  /** Completeness is having seen an opening message; NAT traversal a NAT-D payload (20, or 130 in the
      drafts) or the port; and the cookies are the first message's and the first that is not zero. */
  lemma FlagsMean(ms: seq<Message>, natPort: bool)
    requires ms != []
    ensures var s := Analysed(ms, natPort);
            && (s.complete <==> exists m :: m in ms && Opening(m))
            && (s.natTraversal <==> natPort || exists m :: m in ms && (Holds(m, 20) || Holds(m, 130)))
            && s.initiatorCookie == ms[0].initiatorSpi
  {
    OpeningIsFirst(ms);
    FirstSomeIff(ms, HasNatD);
    forall m ensures HasNatD(m) <==> Holds(m, 20) || Holds(m, 130) {
    }
  }

  predicate Named(m: Message) {
    m.responderSpi != [0, 0, 0, 0, 0, 0, 0, 0]
  }

  lemma CookieMeans(ms: seq<Message>, natPort: bool)
    requires ms != []
    ensures forall k: nat :: FirstAt(ms, k, Named) ==> Analysed(ms, natPort).responderCookie == ms[k].responderSpi
    ensures (forall m :: m in ms ==> !Named(m)) ==>
              Analysed(ms, natPort).responderCookie == [0, 0, 0, 0, 0, 0, 0, 0]
  {
    forall m ensures NamesResponder(m) <==> Named(m) {
    }
    FirstMeans(ms, NamesResponder);
    forall k: nat | FirstAt(ms, k, Named) ensures First(ms, NamesResponder) == Some(ms[k]) {
      assert FirstAt(ms, k, NamesResponder);
    }
  }

  /** The record phase 1 leaves: attributes 1 (cipher, with 14, its key length), 2 (hash, which is the PRF
      too), 3 (authentication), 4 (group) and 12 (lifetime, when 11 is absent or says seconds). */
  lemma Phase1Means(a: map<nat, nat>)
    ensures var r := ApplyPhase1(NOTHING, a);
            && r.encryption == (if 1 in a then Some(Phase1Cipher(a[1], if 14 in a then Some(a[14]) else None))
                                else None)
            && r.integrity == (if 2 in a then Some(Phase1Hash(a[2])) else None)
            && r.prf == (if 2 in a then Some(a[2]) else None)
            && r.authMethod == (if 3 in a then Some(a[3]) else None)
            && r.dhGroup == (if 4 in a then Some(a[4]) else None)
            && r.lifetimeSec == (if 12 in a && (11 in a ==> a[11] == 1) then Some(a[12]) else None)
            && r.mode == UnknownMode && r.pfs == UnknownPfs
  {
  }

  /** What Quick Mode changes: the cipher, with attribute 6 its key length; 5 (integrity); 3 (group, unless
      zero); 4 (mode); 2 (lifetime, when 1 is absent or says seconds); and PFS. */
  lemma QuickModeMeans(ike: Ike, t: FirstTransformView, hasKe: bool)
    ensures var a := t.attrs;
            var r := ApplyQuickMode(ike, t, hasKe);
            && r.encryption == Some(EspCipher(t.transformId, if 6 in a then Some(a[6]) else None))
            && r.integrity == (if 5 in a then Some(EspAuth(a[5])) else ike.integrity)
            && r.dhGroup == (if 3 in a && a[3] > 0 then Some(a[3]) else ike.dhGroup)
            && r.mode == (if 4 in a && a[4] in {2, 4} then Transport
                          else if 4 in a && a[4] in {1, 3} then Tunnel else ike.mode)
            && r.lifetimeSec == (if 2 in a && (1 in a ==> a[1] == 1) then Some(a[2]) else ike.lifetimeSec)
            && r.pfs == (if hasKe || (3 in a && a[3] > 0) then Enabled else Disabled)
            && r.prf == ike.prf && r.authMethod == ike.authMethod
  {
  }

  predicate NotQuickSa(m: Message) {
    m.exchangeType != 32 && Holds(m, 1)
  }

  predicate QuickSa(m: Message) {
    m.exchangeType == 32 && Holds(m, 1)
  }

  lemma SameFirst(ms: seq<Message>, p: Message -> bool, q: Message -> bool)
    requires forall m :: p(m) <==> q(m)
    ensures forall k: nat :: FirstAt(ms, k, q) ==> First(ms, p) == Some(ms[k])
    ensures (forall m :: m in ms ==> !q(m)) ==> First(ms, p) == None
  {
    FirstMeans(ms, p);
    forall k: nat | FirstAt(ms, k, q) ensures First(ms, p) == Some(ms[k]) {
      assert FirstAt(ms, k, p);
    }
  }

  /** Phase 1 is read from the first opening message, or without one from the first SA outside Quick Mode
      (32); an SA that cannot be read says nothing. */
  lemma Phase1IsRead(ms: seq<Message>, k: nat)
    requires FirstAt(ms, k, Opening) || (FirstAt(ms, k, NotQuickSa) && forall m :: m in ms ==> !Opening(m))
    ensures WithPhase1(ms) ==
            if SaTransform(ms[k]).Some? then ApplyPhase1(NOTHING, SaTransform(ms[k]).value.attrs) else NOTHING
  {
    SameFirst(ms, OpensPhase1, Opening);
    SameFirst(ms, CarriesPhase1Sa, NotQuickSa);
  }

  lemma NoPhase1(ms: seq<Message>)
    requires forall m :: m in ms ==> !Opening(m) && !NotQuickSa(m)
    ensures WithPhase1(ms) == NOTHING
  {
    SameFirst(ms, OpensPhase1, Opening);
    SameFirst(ms, CarriesPhase1Sa, NotQuickSa);
  }

  /** Quick Mode is read from the first Quick Mode message with an SA, whose KE payload (4) counts for PFS. */
  lemma QuickModeIsRead(ike: Ike, ms: seq<Message>, k: nat)
    requires FirstAt(ms, k, QuickSa)
    ensures WithQuickMode(ike, ms) ==
            if SaTransform(ms[k]).Some? then ApplyQuickMode(ike, SaTransform(ms[k]).value, Holds(ms[k], 4)) else ike
  {
    SameFirst(ms, IsQuickOffer, QuickSa);
  }

  lemma NoQuickMode(ike: Ike, ms: seq<Message>)
    requires forall m :: m in ms ==> !QuickSa(m)
    ensures WithQuickMode(ike, ms) == ike
  {
    SameFirst(ms, IsQuickOffer, QuickSa);
  }

  /** The transform read is the first of a message's first SA payload (1). */
  lemma SaTransformMeans(m: Message, k: nat)
    requires k < |m.payloads| && m.payloads[k].ptype == 1
    requires forall j :: 0 <= j < k ==> m.payloads[j].ptype != 1
    ensures SaTransform(m) ==
            var t := FirstTransform(m.payloads[k].raw); if t.Ok? then Some(t.value) else None
  {
    FirstOfTypeMeans(m.payloads, 1);
  }

  /** And the record is phase 1's with Quick Mode on top. */
  lemma RecordIsBoth(ms: seq<Message>, natPort: bool)
    requires ms != []
    ensures Analysed(ms, natPort).ike == WithQuickMode(WithPhase1(ms), ms)
  {
  }
}
