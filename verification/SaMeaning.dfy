/** What the analysis of an IKEv2 exchange reads, in the protocol's own numbers (RFC 7296 sections 3.1
    to 3.10 and the registries they open), independently of how the analysis looks for it. */
module SaMeaning {
  import opened IkeWire
  import opened SaAnalysis
  import opened SaCommon
  import opened Wrappers

  /** The R bit, 0x20, of the header flags. */
  lemma ResponseBit(m: Message)
    ensures IsResponse(m) <==> m.flags % 64 >= 32
  {
  }

  // ---------------------------------------------------------------------------
  // Payloads and transforms
  // ---------------------------------------------------------------------------

  /** A message's payloads are its own and those inside its readable SK (46) envelopes. */
  lemma {:induction false} FlattenedMeans(ps: seq<Payload>)
    ensures forall p :: p in Flattened(ps) <==>
              p in ps || exists q :: q in ps && q.ptype == 46 && !q.skOpaque && p in q.inner
  {
    if ps != [] {
      FlattenedMeans(ps[1..]);
      assert ps == [ps[0]] + ps[1..];
    }
  }

  /** `ts[k]` is the first transform of its type. */
  ghost predicate FirstAt(ts: seq<Transform>, k: nat, ttype: nat) {
    k < |ts| && ts[k].ttype == ttype && forall j :: 0 <= j < k ==> ts[j].ttype != ttype
  }

  ghost predicate Lacks(ts: seq<Transform>, ttype: nat) {
    forall t :: t in ts ==> t.ttype != ttype
  }

  lemma {:induction false} FirstTransformMeans(ts: seq<Transform>, ttype: nat)
    ensures forall k: nat :: FirstAt(ts, k, ttype) ==> FirstTransformOf(ts, ttype) == Some(ts[k])
    ensures Lacks(ts, ttype) ==> FirstTransformOf(ts, ttype) == None
    ensures FirstTransformOf(ts, ttype).Some? ==> !Lacks(ts, ttype)
  {
    if ts != [] {
      var rest := ts[1..];
      FirstTransformMeans(rest, ttype);
      assert ts[0] in ts && forall t :: t in rest ==> t in ts;
      forall k: nat | FirstAt(ts, k, ttype) ensures FirstTransformOf(ts, ttype) == Some(ts[k]) {
        if k > 0 {
          assert forall j :: 0 <= j < k - 1 ==> rest[j] == ts[j + 1];
          assert FirstAt(rest, k - 1, ttype);
        }
      }
    }
  }

  /** Encryption is transform type 1, the PRF type 2, integrity type 3, the group type 4; integrity and
      group zero say nothing, and a combined-mode cipher is its own integrity. */
  lemma SuiteMeans(p: Proposal, k: nat)
    ensures FirstAt(p.transforms, k, 1) ==> CipherIn(p) == Some((p.transforms[k].id, p.transforms[k].keyLength))
    ensures FirstAt(p.transforms, k, 2) ==> PrfIn(p) == Some(p.transforms[k].id)
    ensures FirstAt(p.transforms, k, 4) ==>
              DhIn(p) == if p.transforms[k].id == 0 then None else Some(p.transforms[k].id)
    ensures FirstAt(p.transforms, k, 1) && p.transforms[k].id in {14, 15, 16, 18, 19, 20, 28} ==>
              IntegrityIn(p) == Some(Implicit)
    ensures FirstAt(p.transforms, k, 3)
            && (CipherIn(p).None? || CipherIn(p).value.0 !in {14, 15, 16, 18, 19, 20, 28}) ==>
              IntegrityIn(p) == if p.transforms[k].id == 0 then None else Some(Integ(p.transforms[k].id))
  {
    FirstTransformMeans(p.transforms, 1);
    FirstTransformMeans(p.transforms, 2);
    FirstTransformMeans(p.transforms, 3);
    FirstTransformMeans(p.transforms, 4);
  }

  lemma MissingMeans(p: Proposal)
    ensures Lacks(p.transforms, 1) ==> CipherIn(p) == None
    ensures Lacks(p.transforms, 2) ==> PrfIn(p) == None
    ensures Lacks(p.transforms, 4) ==> DhIn(p) == None
    ensures Lacks(p.transforms, 1) && Lacks(p.transforms, 3) ==> IntegrityIn(p) == None
  {
    FirstTransformMeans(p.transforms, 1);
    FirstTransformMeans(p.transforms, 2);
    FirstTransformMeans(p.transforms, 3);
    FirstTransformMeans(p.transforms, 4);
  }

  /** An SA_INIT (34) message offers what its first SA payload (33) holds, and its first KE payload (34)
      names a group. */
  lemma InitMeans(m: Message, k: nat)
    requires k < |AllPayloads(m)|
    ensures var ps := AllPayloads(m);
            && (ps[k].ptype == 33 && (forall j :: 0 <= j < k ==> ps[j].ptype != 33) ==>
                  OfferedIn(m) == if ps[k].view.SaView? then ps[k].view.proposals else [])
            && (ps[k].ptype == 34 && (forall j :: 0 <= j < k ==> ps[j].ptype != 34) ==>
                  OwnGroup(m) == if m.exchangeType == 34 && ps[k].view.KeView? then Some(ps[k].view.group) else None)
            && (InitWithProposals(m) <==> m.exchangeType == 34 && OfferedIn(m) != [])
  {
    FirstOfTypeMeans(AllPayloads(m), 33);
    FirstOfTypeMeans(AllPayloads(m), 34);
  }

  // ---------------------------------------------------------------------------
  // Mode, PFS and completeness
  // ---------------------------------------------------------------------------

  /** An SA payload whose first proposal is for AH (2) or ESP (3). */
  predicate OffersChild(p: Payload) {
    && p.ptype == 33 && p.view.SaView? && p.view.proposals != []
    && (p.view.proposals[0].protocolId == 2 || p.view.proposals[0].protocolId == 3)
  }

  ghost predicate Child(m: Message) {
    exists p :: p in AllPayloads(m) && OffersChild(p)
  }

  /** A KE payload, or a group in the first proposal of the first child offer. */
  ghost predicate BringsKeys(m: Message) {
    || (exists p :: p in AllPayloads(m) && p.ptype == 34)
    || exists k :: 0 <= k < |AllPayloads(m)| && OffersChild(AllPayloads(m)[k])
                   && (forall j :: 0 <= j < k ==> !OffersChild(AllPayloads(m)[j]))
                   && DhIn(AllPayloads(m)[k].view.proposals[0]).Some?
  }

  ghost predicate NotifiesTransportMode(m: Message) {
    exists p :: p in AllPayloads(m) && p.ptype == 41 && p.view.NotifyView? && p.view.ntype == 16391
  }

  ghost predicate InTheClear(m: Message) {
    Child(m) || exists p :: p in AllPayloads(m) && (p.ptype == 39 || p.ptype == 48)
  }

  lemma {:induction false} FirstChildMeans(ps: seq<Payload>)
    ensures FirstChildSa(ps).Some? <==> exists p :: p in ps && OffersChild(p)
    ensures forall k :: 0 <= k < |ps| && OffersChild(ps[k]) && (forall j :: 0 <= j < k ==> !OffersChild(ps[j])) ==>
              FirstChildSa(ps) == Some(ps[k])
    ensures FirstChildSa(ps).Some? ==>
              exists k :: 0 <= k < |ps| && ps[k] == FirstChildSa(ps).value && OffersChild(ps[k])
                          && forall j :: 0 <= j < k ==> !OffersChild(ps[j])
  {
    if ps != [] {
      var rest := ps[1..];
      assert IsChildSa(ps[0]) <==> OffersChild(ps[0]);
      FirstChildMeans(rest);
      if !OffersChild(ps[0]) {
        forall k | 0 <= k < |ps| && OffersChild(ps[k]) && (forall j :: 0 <= j < k ==> !OffersChild(ps[j]))
          ensures FirstChildSa(ps) == Some(ps[k])
        {
          assert rest[k - 1] == ps[k];
          assert forall j :: 0 <= j < k - 1 ==> rest[j] == ps[j + 1];
        }
        if FirstChildSa(rest).Some? {
          var k :| 0 <= k < |rest| && rest[k] == FirstChildSa(rest).value && OffersChild(rest[k])
                   && forall j :: 0 <= j < k ==> !OffersChild(rest[j]);
          assert ps[k + 1] == rest[k];
          assert forall j :: 0 < j <= k ==> ps[j] == rest[j - 1];
        }
      }
    }
  }

  lemma ChildMeans(m: Message)
    ensures NegotiatesChild(m) <==> (m.exchangeType == 35 || m.exchangeType == 36) && Child(m)
    ensures FreshKeys(m) <==> (m.exchangeType == 35 || m.exchangeType == 36) && Child(m) && BringsKeys(m)
  {
    var ps := AllPayloads(m);
    FirstChildMeans(ps);
    FirstChildSaIsOne(ps);
  }

  lemma AuthMeans(m: Message)
    ensures AuthWithTransport(m) <==> m.exchangeType == 35 && NotifiesTransportMode(m)
    ensures AuthInTheClear(m) <==> m.exchangeType == 35 && InTheClear(m)
  {
    FirstChildMeans(AllPayloads(m));
    FirstOfTypeMeans(AllPayloads(m), 39);
  }

  lemma EstablishMeans(m: Message)
    ensures Establishes(m) <==>
            m.exchangeType == 34 && OfferedIn(m) != []
            && (m.flags % 64 >= 32 || CipherIn(OfferedIn(m)[0]).Some?)
  {
    ResponseBit(m);
  }

  /** Mode, PFS and completeness in the protocol's numbers. */
  lemma OutcomeOnTheWire(ms: seq<Message>)
    requires ms != []
    ensures var s := Analysed(ms);
            var transport := exists m :: m in ms && m.exchangeType == 35 && NotifiesTransportMode(m);
            var clear := exists m :: m in ms && m.exchangeType == 35 && InTheClear(m);
            var rekeying := exists m :: m in ms && m.exchangeType in {35, 36} && Child(m) && BringsKeys(m);
            var rekeyed := exists m :: m in ms && m.exchangeType == 36 && Child(m);
            var authChild := exists m :: m in ms && m.exchangeType == 35 && Child(m);
            && (s.complete <==> exists m :: m in ms && m.exchangeType == 34 && OfferedIn(m) != []
                                 && (m.flags % 64 >= 32 || CipherIn(OfferedIn(m)[0]).Some?))
            && s.mode == (if transport then Transport else if clear then Tunnel else UnknownMode)
            && s.pfs == (if rekeying then Enabled
                         else if rekeyed || (s.complete && authChild) then Disabled else UnknownPfs)
  {
    OutcomeMeans(ms);
    forall m
      ensures AuthWithTransport(m) <==> m.exchangeType == 35 && NotifiesTransportMode(m)
      ensures AuthInTheClear(m) <==> m.exchangeType == 35 && InTheClear(m)
    {
      AuthMeans(m);
    }
    forall m
      ensures NegotiatesChild(m) <==> (m.exchangeType == 35 || m.exchangeType == 36) && Child(m)
      ensures FreshKeys(m) <==> (m.exchangeType == 35 || m.exchangeType == 36) && Child(m) && BringsKeys(m)
    {
      ChildMeans(m);
    }
    forall m
      ensures Establishes(m) <==>
              m.exchangeType == 34 && OfferedIn(m) != []
              && (m.flags % 64 >= 32 || CipherIn(OfferedIn(m)[0]).Some?)
    {
      EstablishMeans(m);
    }
  }
}
