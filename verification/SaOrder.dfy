/** When the negotiated suite of core/ike_parser/ikev2.py depends on the order of the messages,
    and when it does not: the exact condition for each of its fields. */
module SaOrder {
  import AuditChain
  import opened IkeBuild
  import opened IkeWire
  import opened SaAnalysis
  import opened SaCommon
  import opened SaNames
  import opened Wrappers

  // ---------------------------------------------------------------------------
  // The value of one field
  // ---------------------------------------------------------------------------

  /** What a message's first proposal says of the field `f`. */
  function Carried<T>(m: Message, f: Proposal -> Option<T>): Option<T> {
    if InitWithProposals(m) then f(OfferedIn(m)[0]) else None
  }

  /** The field of the last proposal that counts and carries it. */
  ghost function Value<T>(ms: seq<Message>, f: Proposal -> Option<T>): Option<T> {
    if ms == [] then None
    else
      var n := |ms| - 1;
      if Applies(ms, n) && Carried(ms[n], f).Some? then Carried(ms[n], f) else Value(ms[..n], f)
  }

  ghost function Group(ms: seq<Message>): Option<nat> {
    if Value(ms, DhIn).Some? then Value(ms, DhIn) else FirstOwnGroup(ms)
  }

  lemma {:induction false} SuiteIsValue(ms: seq<Message>)
    ensures var ike := Folded(ms).ike;
            && ike.encryption == Value(ms, CipherIn) && ike.integrity == Value(ms, IntegrityIn)
            && ike.prf == Value(ms, PrfIn) && ike.dhGroup == Group(ms)
    decreases |ms|
  {
    if ms != [] {
      SuiteIsValue(ms[..|ms| - 1]);
      SuiteStep(ms);
    }
  }

  ghost predicate Answered(ms: seq<Message>) {
    exists m :: m in ms && InitAnswered(m)
  }

  ghost predicate SameMessages(ms: seq<Message>, other: seq<Message>) {
    forall m :: m in ms <==> m in other
  }

  /** A value comes from a message; from an answer, if any answer carries one; and there is one
      if a request carries it and nothing is answered. */
  lemma {:induction false} ValueIsCarried<T>(ms: seq<Message>, f: Proposal -> Option<T>)
    ensures Value(ms, f).Some? ==> exists m :: m in ms && Carried(m, f) == Value(ms, f)
    ensures AnAnswerCarries(ms, f) ==> exists m :: m in ms && AnswersWith(m, f) && Carried(m, f) == Value(ms, f)
    ensures !Answered(ms) && (exists m :: m in ms && Carried(m, f).Some?) ==> Value(ms, f).Some?
    decreases |ms|
  {
    if ms != [] {
      var n := |ms| - 1;
      ValueIsCarried(ms[..n], f);
      assert ms == ms[..n] + [ms[n]];
      assert ms[n] in ms;
    }
  }

  lemma LastCounts<T>(ms: seq<Message>, m: Message, f: Proposal -> Option<T>)
    requires Carried(m, f).Some? && (IsResponse(m) || !Answered(ms))
    ensures Value(ms + [m], f) == Carried(m, f)
  {
    assert (ms + [m])[..|ms|] == ms;
  }

  lemma AnsweredStays(pre: seq<Message>, more: seq<Message>)
    requires Answered(pre)
    ensures Answered(pre + more)
  {
    var m :| m in pre && InitAnswered(m);
    assert m in pre + more;
  }

  /** Once something is answered, messages whose answers do not carry the field change nothing. */
  lemma {:induction false} NothingMore<T>(pre: seq<Message>, tail: seq<Message>, f: Proposal -> Option<T>)
    requires Answered(pre)
    requires forall m :: m in tail && InitAnswered(m) ==> Carried(m, f).None?
    ensures Value(pre + tail, f) == Value(pre, f)
    decreases |tail|
  {
    if tail == [] {
      assert pre + tail == pre;
    } else {
      var n := |tail| - 1;
      assert tail == tail[..n] + [tail[n]];
      NothingMore(pre, tail[..n], f);
      OneMore(pre, tail[..n], tail[n], f);
    }
  }

  lemma OneMore<T>(pre: seq<Message>, more: seq<Message>, m: Message, f: Proposal -> Option<T>)
    requires Answered(pre) && (InitAnswered(m) ==> Carried(m, f).None?)
    ensures Value(pre + (more + [m]), f) == Value(pre + more, f)
  {
    AnsweredStays(pre, more);
    QuietLast(pre + more, m, f);
    assert pre + (more + [m]) == (pre + more) + [m];
  }

  lemma QuietLast<T>(ms: seq<Message>, m: Message, f: Proposal -> Option<T>)
    requires Answered(ms) && (InitAnswered(m) ==> Carried(m, f).None?)
    ensures Value(ms + [m], f) == Value(ms, f)
  {
    assert (ms + [m])[..|ms|] == ms;
  }

  // ---------------------------------------------------------------------------
  // Cipher, integrity and PRF
  // ---------------------------------------------------------------------------

  predicate AnswersWith<T>(m: Message, f: Proposal -> Option<T>) {
    InitAnswered(m) && Carried(m, f).Some?
  }

  ghost predicate AnAnswerCarries<T>(ms: seq<Message>, f: Proposal -> Option<T>) {
    exists m :: m in ms && AnswersWith(m, f)
  }

  ghost predicate AnswersAgree<T>(ms: seq<Message>, f: Proposal -> Option<T>) {
    && AnAnswerCarries(ms, f)
    && forall a, b :: a in ms && b in ms && AnswersWith(a, f) && AnswersWith(b, f) ==> Carried(a, f) == Carried(b, f)
  }

  ghost predicate AllAgree<T>(ms: seq<Message>, f: Proposal -> Option<T>) {
    forall a, b :: a in ms && b in ms && Carried(a, f).Some? && Carried(b, f).Some? ==> Carried(a, f) == Carried(b, f)
  }

  ghost predicate NoneCarry<T>(ms: seq<Message>, f: Proposal -> Option<T>) {
    forall m :: m in ms ==> Carried(m, f).None?
  }

  /** The answers that carry the field agree; or there are answers and nothing carries it; or there
      is no answer and the requests that carry it agree. */
  ghost predicate Settled<T>(ms: seq<Message>, f: Proposal -> Option<T>) {
    || AnswersAgree(ms, f)
    || (Answered(ms) && NoneCarry(ms, f))
    || (!Answered(ms) && AllAgree(ms, f))
  }

  ghost predicate OrderFree<T>(ms: seq<Message>, f: Proposal -> Option<T>) {
    forall other :: SameMessages(ms, other) ==> Value(other, f) == Value(ms, f)
  }

  lemma SettledForgetsOrder<T>(ms: seq<Message>, other: seq<Message>, f: Proposal -> Option<T>)
    requires Settled(ms, f) && SameMessages(ms, other)
    ensures Value(other, f) == Value(ms, f)
  {
    ValueIsCarried(ms, f);
    ValueIsCarried(other, f);
    assert Answered(ms) <==> Answered(other);
  }

  /** Two more copies of messages already there, giving two values. */
  lemma TwoOrders<T>(ms: seq<Message>, x: seq<Message>, y: seq<Message>, f: Proposal -> Option<T>)
    requires SameMessages(ms, x) && SameMessages(ms, y) && Value(x, f) != Value(y, f)
    ensures !OrderFree(ms, f)
  {
    assert Value(x, f) != Value(ms, f) || Value(y, f) != Value(ms, f);
  }

  lemma FirstIsKept<T>(q: Message, r: Message, ms: seq<Message>, f: Proposal -> Option<T>)
    requires InitAnswered(r) && !AnAnswerCarries([r] + ms, f)
    ensures Value([r] + ms, f) == None
    ensures !InitAnswered(q) ==> Value([q, r] + ms, f) == Carried(q, f)
  {
    assert r in [r] && r in [q, r] && r in [r] + ms;
    forall m | m in ms && InitAnswered(m) ensures Carried(m, f).None? {
      assert m in [r] + ms;
    }
    NothingMore([r], ms, f);
    NothingMore([q, r], ms, f);
    assert Carried(r, f).None?;
    assert [r][..0] == [] && [q, r][..1] == [q] && [q][..0] == [];
    assert Value([q], f) == Carried(q, f);
  }

  lemma UnsettledDepends<T>(ms: seq<Message>, f: Proposal -> Option<T>)
    requires !Settled(ms, f)
    ensures !OrderFree(ms, f)
  {
    if AnAnswerCarries(ms, f) {
      var a, b :| a in ms && b in ms && AnswersWith(a, f) && AnswersWith(b, f) && Carried(a, f) != Carried(b, f);
      LastCounts(ms, a, f);
      LastCounts(ms, b, f);
      TwoOrders(ms, ms + [a], ms + [b], f);
    } else if Answered(ms) {
      var r :| r in ms && InitAnswered(r);
      var q :| q in ms && Carried(q, f).Some?;
      assert !AnAnswerCarries([r] + ms, f);
      FirstIsKept(q, r, ms, f);
      TwoOrders(ms, [r] + ms, [q, r] + ms, f);
    } else {
      var a, b :| a in ms && b in ms && Carried(a, f).Some? && Carried(b, f).Some? && Carried(a, f) != Carried(b, f);
      LastCounts(ms, a, f);
      LastCounts(ms, b, f);
      TwoOrders(ms, ms + [a], ms + [b], f);
    }
  }

  lemma OrderFreeIffSettled<T>(ms: seq<Message>, f: Proposal -> Option<T>)
    ensures OrderFree(ms, f) <==> Settled(ms, f)
  {
    if Settled(ms, f) {
      forall other | SameMessages(ms, other) ensures Value(other, f) == Value(ms, f) {
        SettledForgetsOrder(ms, other, f);
      }
    } else {
      UnsettledDepends(ms, f);
    }
  }

  // ---------------------------------------------------------------------------
  // The names the record holds
  // ---------------------------------------------------------------------------

  function Renamed<T, U>(v: Option<T>, name: T -> U): Option<U> {
    if v.Some? then Some(name(v.value)) else None
  }

  /** A field under its name: different identifiers may share one. */
  function Named<T, U>(f: Proposal -> Option<T>, name: T -> U): Proposal -> Option<U> {
    p => Renamed(f(p), name)
  }

  lemma {:induction false} ValueRenamed<T, U>(ms: seq<Message>, f: Proposal -> Option<T>, name: T -> U)
    ensures Value(ms, Named(f, name)) == Renamed(Value(ms, f), name)
    decreases |ms|
  {
    if ms != [] {
      ValueRenamed(ms[..|ms| - 1], f, name);
    }
  }

  lemma SameRecord<T>(v: Option<T>, w: Option<T>, name: T -> string)
    requires forall x :: x in {v, w} && x.Some? ==> name(x.value) != UNKNOWN
    ensures Recorded(v, name) == Recorded(w, name) <==> Renamed(v, name) == Renamed(w, name)
  {
    assert v in {v, w} && w in {v, w};
  }

  /** Whatever names a field's values are recorded under, the record is the same for every order and
      repetition of the messages if and only if the field is settled as to names. */
  lemma RecordForgetsOrderIff<T>(ms: seq<Message>, f: Proposal -> Option<T>, name: T -> string)
    requires forall v: Option<T> :: v.Some? ==> name(v.value) != UNKNOWN
    ensures (forall other :: SameMessages(ms, other) ==>
               Recorded(Value(other, f), name) == Recorded(Value(ms, f), name)) <==> Settled(ms, Named(f, name))
  {
    OrderFreeIffSettled(ms, Named(f, name));
    ValueRenamed(ms, f, name);
    forall other | SameMessages(ms, other)
      ensures Recorded(Value(other, f), name) == Recorded(Value(ms, f), name) <==>
              Value(other, Named(f, name)) == Value(ms, Named(f, name))
    {
      ValueRenamed(other, f, name);
      SameRecord(Value(other, f), Value(ms, f), name);
    }
  }

  /** Main result.  The cipher, the integrity and the PRF the record names are each the same for every
      order and repetition of the messages if and only if that field is settled as to names. */
  lemma SuiteForgetsOrderIff(ms: seq<Message>)
    requires ms != []
    ensures (forall other :: SameMessages(ms, other) && other != [] ==>
               Recorded(Analysed(other).ike.encryption, CipherName) ==
               Recorded(Analysed(ms).ike.encryption, CipherName)) <==> Settled(ms, Named(CipherIn, CipherName))
    ensures (forall other :: SameMessages(ms, other) && other != [] ==>
               Recorded(Analysed(other).ike.integrity, IntegrityName) ==
               Recorded(Analysed(ms).ike.integrity, IntegrityName)) <==> Settled(ms, Named(IntegrityIn, IntegrityName))
    ensures (forall other :: SameMessages(ms, other) && other != [] ==>
               Recorded(Analysed(other).ike.prf, PrfName) ==
               Recorded(Analysed(ms).ike.prf, PrfName)) <==> Settled(ms, Named(PrfIn, PrfName))
  {
    CipherNamesAreKnown();
    IntegrityNamesAreKnown();
    PrfNamesAreKnown();
    RecordForgetsOrderIff(ms, CipherIn, CipherName);
    RecordForgetsOrderIff(ms, IntegrityIn, IntegrityName);
    RecordForgetsOrderIff(ms, PrfIn, PrfName);
    SuiteIsValue(ms);
    assert ms[0] in ms;
    forall other | SameMessages(ms, other)
      ensures other != []
      ensures Folded(other).ike.encryption == Value(other, CipherIn)
      ensures Folded(other).ike.integrity == Value(other, IntegrityIn)
      ensures Folded(other).ike.prf == Value(other, PrfIn)
    {
      SuiteIsValue(other);
    }
  }

  // ---------------------------------------------------------------------------
  // The Diffie-Hellman group, which a KE payload may supply
  // ---------------------------------------------------------------------------

  /** A message whose KE payload can end up deciding the group. */
  ghost predicate Surfaces(ms: seq<Message>, m: Message) {
    && m in ms
    && OwnGroup(m).Some?
    && (Carried(m, DhIn).None? || exists r :: r in ms && InitAnswered(r) && OwnGroup(r).None?)
  }

  ghost predicate OwnGroupsAgree(ms: seq<Message>) {
    forall a, b :: a in ms && b in ms && OwnGroup(a).Some? && OwnGroup(b).Some? ==> OwnGroup(a) == OwnGroup(b)
  }

  /** Answers, none of which carries a group: requests and surfacing KE payloads all name one group,
      and if a request names one some KE payload does. */
  ghost predicate KeysAgree(ms: seq<Message>) {
    && AllAgree(ms, DhIn)
    && (forall a, b :: Surfaces(ms, a) && Surfaces(ms, b) ==> OwnGroup(a) == OwnGroup(b))
    && (forall a, b :: a in ms && Carried(a, DhIn).Some? && Surfaces(ms, b) ==> Carried(a, DhIn) == OwnGroup(b))
    && (NoneCarry(ms, DhIn) || exists m :: m in ms && OwnGroup(m).Some?)
  }

  ghost predicate GroupSettled(ms: seq<Message>) {
    if AnAnswerCarries(ms, DhIn) then AnswersAgree(ms, DhIn)
    else if Answered(ms) then KeysAgree(ms)
    else if NoneCarry(ms, DhIn) then OwnGroupsAgree(ms)
    else AllAgree(ms, DhIn)
  }

  ghost predicate GroupOrderFree(ms: seq<Message>) {
    forall other :: SameMessages(ms, other) ==> Group(other) == Group(ms)
  }

  lemma {:induction false} FirstOwnIsOwn(ms: seq<Message>)
    ensures FirstOwnGroup(ms).Some? <==> exists m :: m in ms && OwnGroup(m).Some?
    ensures FirstOwnGroup(ms).Some? ==> exists m :: m in ms && OwnGroup(m) == FirstOwnGroup(ms)
    decreases |ms|
  {
    if ms != [] {
      var n := |ms| - 1;
      FirstOwnIsOwn(ms[..n]);
      assert ms == ms[..n] + [ms[n]];
    }
  }

  lemma {:induction false} FirstOwnAppend(pre: seq<Message>, tail: seq<Message>)
    ensures FirstOwnGroup(pre + tail) == if FirstOwnGroup(pre).Some? then FirstOwnGroup(pre) else FirstOwnGroup(tail)
    decreases |tail|
  {
    if tail == [] {
      assert pre + tail == pre;
    } else {
      var n := |tail| - 1;
      assert (pre + tail)[..|pre| + n] == pre + tail[..n];
      FirstOwnAppend(pre, tail[..n]);
    }
  }

  /** When no proposal decides the group, the KE payload that does is one that surfaces. */
  lemma {:induction false} FirstOwnSurfaces(ms: seq<Message>)
    requires Value(ms, DhIn).None? && FirstOwnGroup(ms).Some?
    ensures exists m :: Surfaces(ms, m) && OwnGroup(m) == FirstOwnGroup(ms)
    decreases |ms|
  {
    var n := |ms| - 1;
    assert ms == ms[..n] + [ms[n]];
    if FirstOwnGroup(ms[..n]).Some? {
      FirstOwnSurfaces(ms[..n]);
      var m :| Surfaces(ms[..n], m) && OwnGroup(m) == FirstOwnGroup(ms[..n]);
      assert Surfaces(ms, m);
    } else {
      FirstOwnIsOwn(ms[..n]);
      if Carried(ms[n], DhIn).Some? {
        var r :| r in ms[..n] && InitAnswered(r);
        assert OwnGroup(r).None?;
      }
      assert Surfaces(ms, ms[n]);
    }
  }

  lemma GroupSettledForgetsOrder(ms: seq<Message>, other: seq<Message>)
    requires GroupSettled(ms) && SameMessages(ms, other)
    ensures Group(other) == Group(ms)
  {
    assert Answered(ms) <==> Answered(other);
    assert AnAnswerCarries(ms, DhIn) <==> AnAnswerCarries(other, DhIn);
    ValueIsCarried(ms, DhIn);
    ValueIsCarried(other, DhIn);
    FirstOwnIsOwn(ms);
    FirstOwnIsOwn(other);
    if !AnAnswerCarries(ms, DhIn) && Answered(ms) {
      KeysAgreeForgetsOrder(ms, other);
    }
  }

  lemma GroupIsSomeones(ms: seq<Message>)
    ensures Group(ms).Some? ==>
              || (exists m :: m in ms && Carried(m, DhIn) == Group(ms))
              || (exists m :: Surfaces(ms, m) && OwnGroup(m) == Group(ms))
  {
    ValueIsCarried(ms, DhIn);
    if Value(ms, DhIn).None? && FirstOwnGroup(ms).Some? {
      FirstOwnSurfaces(ms);
    }
  }

  lemma KeysAgreeForgetsOrder(ms: seq<Message>, other: seq<Message>)
    requires KeysAgree(ms) && SameMessages(ms, other)
    ensures Group(other) == Group(ms)
  {
    GroupIsSomeones(ms);
    GroupIsSomeones(other);
    assert forall m :: Surfaces(ms, m) <==> Surfaces(other, m);
    FirstOwnIsOwn(ms);
    FirstOwnIsOwn(other);
    ValueIsCarried(ms, DhIn);
    ValueIsCarried(other, DhIn);
  }

  lemma TwoGroups(ms: seq<Message>, x: seq<Message>, y: seq<Message>)
    requires SameMessages(ms, x) && SameMessages(ms, y) && Group(x) != Group(y)
    ensures !GroupOrderFree(ms)
  {
    assert Group(x) != Group(ms) || Group(y) != Group(ms);
  }

  /** An order in which a request's group decides. */
  lemma RequestDecides(ms: seq<Message>, r: Message, q: Message) returns (x: seq<Message>)
    requires r in ms && InitAnswered(r) && !AnAnswerCarries(ms, DhIn)
    requires q in ms && Carried(q, DhIn).Some?
    ensures SameMessages(ms, x) && Group(x) == Carried(q, DhIn)
  {
    x := [q, r] + ms;
    assert !AnAnswerCarries([r] + ms, DhIn);
    FirstIsKept(q, r, ms, DhIn);
  }

  /** An order in which a surfacing KE payload decides. */
  lemma KeyDecides(ms: seq<Message>, r: Message, b: Message) returns (x: seq<Message>)
    requires r in ms && InitAnswered(r) && !AnAnswerCarries(ms, DhIn)
    requires Surfaces(ms, b)
    ensures SameMessages(ms, x) && Group(x) == OwnGroup(b)
  {
    assert !AnAnswerCarries([r] + ms, DhIn);
    assert [b][..0] == [];
    if Carried(b, DhIn).None? {
      x := [b, r] + ms;
      if InitAnswered(b) {
        x := [b] + ms;
        assert !AnAnswerCarries([b] + ms, DhIn);
        FirstIsKept(b, b, ms, DhIn);
        FirstOwnAppend([b], ms);
      } else {
        FirstIsKept(b, r, ms, DhIn);
        assert x == [b] + ([r] + ms);
        FirstOwnAppend([b], [r] + ms);
      }
    } else {
      var r0 :| r0 in ms && InitAnswered(r0) && OwnGroup(r0).None?;
      x := [r0] + ([b] + ms);
      assert !AnAnswerCarries([r0] + ([b] + ms), DhIn);
      FirstIsKept(b, r0, [b] + ms, DhIn);
      FirstOwnAppend([r0], [b] + ms);
      FirstOwnAppend([b], ms);
      assert [r0][..0] == [];
    }
  }

  lemma KeysDisagreeDepends(ms: seq<Message>)
    requires Answered(ms) && !AnAnswerCarries(ms, DhIn) && !KeysAgree(ms)
    ensures !GroupOrderFree(ms)
  {
    var r :| r in ms && InitAnswered(r);
    if !AllAgree(ms, DhIn) {
      var a, b :| a in ms && b in ms && Carried(a, DhIn).Some? && Carried(b, DhIn).Some?
                  && Carried(a, DhIn) != Carried(b, DhIn);
      var x := RequestDecides(ms, r, a);
      var y := RequestDecides(ms, r, b);
      TwoGroups(ms, x, y);
    } else if a, b :| Surfaces(ms, a) && Surfaces(ms, b) && OwnGroup(a) != OwnGroup(b) {
      var x := KeyDecides(ms, r, a);
      var y := KeyDecides(ms, r, b);
      TwoGroups(ms, x, y);
    } else if a, b :| a in ms && Carried(a, DhIn).Some? && Surfaces(ms, b) && Carried(a, DhIn) != OwnGroup(b) {
      var x := RequestDecides(ms, r, a);
      var y := KeyDecides(ms, r, b);
      TwoGroups(ms, x, y);
    } else {
      var q :| q in ms && Carried(q, DhIn).Some?;
      var x := RequestDecides(ms, r, q);
      assert !AnAnswerCarries([r] + ms, DhIn);
      FirstIsKept(q, r, ms, DhIn);
      FirstOwnIsOwn([r] + ms);
      TwoGroups(ms, x, [r] + ms);
    }
  }

  lemma GroupUnsettledDepends(ms: seq<Message>)
    requires !GroupSettled(ms)
    ensures !GroupOrderFree(ms)
  {
    if AnAnswerCarries(ms, DhIn) {
      var a, b :| a in ms && b in ms && AnswersWith(a, DhIn) && AnswersWith(b, DhIn)
                  && Carried(a, DhIn) != Carried(b, DhIn);
      LastCounts(ms, a, DhIn);
      LastCounts(ms, b, DhIn);
      TwoGroups(ms, ms + [a], ms + [b]);
    } else if Answered(ms) {
      KeysDisagreeDepends(ms);
    } else if NoneCarry(ms, DhIn) {
      var a, b :| a in ms && b in ms && OwnGroup(a).Some? && OwnGroup(b).Some? && OwnGroup(a) != OwnGroup(b);
      ValueIsCarried([a] + ms, DhIn);
      ValueIsCarried([b] + ms, DhIn);
      FirstOwnAppend([a], ms);
      FirstOwnAppend([b], ms);
      assert [a][..0] == [] && [b][..0] == [];
      TwoGroups(ms, [a] + ms, [b] + ms);
    } else {
      var a, b :| a in ms && b in ms && Carried(a, DhIn).Some? && Carried(b, DhIn).Some?
                  && Carried(a, DhIn) != Carried(b, DhIn);
      LastCounts(ms, a, DhIn);
      LastCounts(ms, b, DhIn);
      TwoGroups(ms, ms + [a], ms + [b]);
    }
  }

  /** A recorded group determines the group, among the orders of one set of messages. */
  lemma SameGroupRecord(ms: seq<Message>, other: seq<Message>)
    requires SameMessages(ms, other)
    ensures RecordedGroup(Group(other)) == RecordedGroup(Group(ms)) <==> Group(other) == Group(ms)
  {
    var a, b := Group(other), Group(ms);
    if a.Some? && b.Some? && GroupName(a.value) == GroupName(b.value) {
      GroupNameInjective(a.value, b.value);
    } else if a.Some? && b.None? {
      GroupNamesAreKnown(a.value);
    } else if a.None? && b.Some? {
      GroupNamesAreKnown(b.value);
    }
  }

  /** The group the record names is the same for every order and repetition if and only if it is
      settled. */
  lemma GroupForgetsOrderIff(ms: seq<Message>)
    requires ms != []
    ensures (forall other :: SameMessages(ms, other) && other != [] ==>
               RecordedGroup(Analysed(other).ike.dhGroup) == RecordedGroup(Analysed(ms).ike.dhGroup))
            <==> GroupSettled(ms)
  {
    SuiteIsValue(ms);
    assert ms[0] in ms;
    forall other | SameMessages(ms, other)
      ensures other != [] && Folded(other).ike.dhGroup == Group(other)
      ensures RecordedGroup(Group(other)) == RecordedGroup(Group(ms)) <==> Group(other) == Group(ms)
    {
      SuiteIsValue(other);
      SameGroupRecord(ms, other);
    }
    if GroupSettled(ms) {
      forall other | SameMessages(ms, other) ensures Group(other) == Group(ms) {
        GroupSettledForgetsOrder(ms, other);
      }
    } else {
      GroupUnsettledDepends(ms);
    }
  }

  // ---------------------------------------------------------------------------
  // Two answers, as bytes
  // ---------------------------------------------------------------------------

  const ANSWER := Envelope([1, 0, 0, 0, 0, 0, 0, 0], [2, 0, 0, 0, 0, 0, 0, 0], IKE_VERSION_2, EXCHANGE_IKE_SA_INIT,
                           0x20, 0)

  function Offer(cipher: nat, keyLength: Option<nat>): Content {
    SaContent([Proposal(1, 1, [], [Transform(TRANSFORM_TYPE_ENCR, cipher, keyLength)])])
  }

  predicate Encodes(cipher: nat, keyLength: Option<nat>) {
    cipher < 0x1_0000 && (keyLength.Some? ==> keyLength.value < 0x1_0000)
  }

  lemma OfferFits(cipher: nat, keyLength: Option<nat>)
    requires Encodes(cipher, keyLength)
    ensures FitsContents([Offer(cipher, keyLength)])
    ensures FitsEnvelope(ANSWER, |ChainBytes(Parts([Offer(cipher, keyLength)]))|)
  {
    var p := Offer(cipher, keyLength).proposals[0];
    assert p.transforms[1..] == [];
    assert |TransformsBytes(p.transforms)| <= 12;
    assert Offer(cipher, keyLength).proposals[1..] == [];
    assert |SaBytes(Offer(cipher, keyLength).proposals)| <= 20;
    var parts := Parts([Offer(cipher, keyLength)]);
    assert parts[1..] == [];
    assert |ChainBytes(parts)| <= 24;
  }

  /** The bytes of an SA_INIT response accepting this cipher. */
  function AnswerBytes(cipher: nat, keyLength: Option<nat>): Bytes
    requires Encodes(cipher, keyLength)
  {
    OfferFits(cipher, keyLength);
    MessageBytes(ANSWER, Parts([Offer(cipher, keyLength)]))
  }

  /** `m` is what those bytes decode to. */
  ghost predicate ReadFromBytes(m: Message, cipher: nat, keyLength: Option<nat>) {
    Encodes(cipher, keyLength) && Decode(AnswerBytes(cipher, keyLength)) == Ok(m)
  }

  ghost predicate MakesOneOffer(m: Message, c: Content)
    requires c.SaContent?
  {
    && m.exchangeType == EXCHANGE_IKE_SA_INIT && m.flags == 0x20
    && |m.payloads| == 1 && m.payloads[0].ptype == PAYLOAD_SA && m.payloads[0].view == SaView(c.proposals)
  }

  lemma ReadOffer(c: Content, m: Message)
    requires c.SaContent? && FitsContents([c]) && FitsEnvelope(ANSWER, |ChainBytes(Parts([c]))|)
    requires Decode(MessageBytes(ANSWER, Parts([c]))) == Ok(m)
    ensures MakesOneOffer(m, c)
  {
    ContentsAreReceived([c]);
    MessageRoundTrip(ANSWER, Parts([c]));
    assert FitsContent([c][0]);
  }

  lemma AnswerDecodes(cipher: nat, keyLength: Option<nat>) returns (m: Message)
    requires Encodes(cipher, keyLength)
    ensures ReadFromBytes(m, cipher, keyLength) && MakesOneOffer(m, Offer(cipher, keyLength))
  {
    OfferFits(cipher, keyLength);
    ContentsRoundTrip(ANSWER, [Offer(cipher, keyLength)]);
    m := Decode(AnswerBytes(cipher, keyLength)).value;
    ReadOffer(Offer(cipher, keyLength), m);
  }

  lemma OfferIsCarried(m: Message, cipher: nat, keyLength: Option<nat>)
    requires MakesOneOffer(m, Offer(cipher, keyLength))
    ensures AnswersWith(m, CipherIn) && Carried(m, CipherIn) == Some((cipher, keyLength))
  {
    assert m.payloads[1..] == [];
    assert Flattened(m.payloads) == [m.payloads[0]];
    assert OfferedIn(m) == Offer(cipher, keyLength).proposals;
  }

  /** Those bytes decode to an answer that carries exactly that cipher. */
  lemma AnswerIsRead(cipher: nat, keyLength: Option<nat>) returns (m: Message)
    requires Encodes(cipher, keyLength)
    ensures ReadFromBytes(m, cipher, keyLength)
    ensures AnswersWith(m, CipherIn) && Carried(m, CipherIn) == Some((cipher, keyLength))
  {
    m := AnswerDecodes(cipher, keyLength);
    OfferIsCarried(m, cipher, keyLength);
  }

  /** Of two answers the last one seen decides the cipher. */
  lemma LastAnswerDecides(first: Message, m: Message)
    requires AnswersWith(m, CipherIn)
    ensures Analysed([first, m]).ike.encryption == Carried(m, CipherIn)
  {
    LastCounts([first], m, CipherIn);
    assert [first] + [m] == [first, m];
    SuiteIsValue([first, m]);
  }

  /** The answers to any two ciphers of different names, read from bytes: the record names the one seen
      last. */
  lemma TwoResponsesDependOnOrder(c: (nat, Option<nat>), d: (nat, Option<nat>)) returns (a: Message, b: Message)
    requires Encodes(c.0, c.1) && Encodes(d.0, d.1) && CipherName(c) != CipherName(d)
    ensures ReadFromBytes(a, c.0, c.1) && ReadFromBytes(b, d.0, d.1)
    ensures SameMessages([a, b], [b, a])
    ensures Recorded(Analysed([b, a]).ike.encryption, CipherName) == CipherName(c)
    ensures Recorded(Analysed([a, b]).ike.encryption, CipherName) == CipherName(d)
  {
    a := AnswerIsRead(c.0, c.1);
    b := AnswerIsRead(d.0, d.1);
    LastAnswerDecides(a, b);
    LastAnswerDecides(b, a);
  }

  /** For one, triple DES and AES. */
  lemma TwoNames()
    ensures CipherName((3, None)) == "3DES-CBC" && CipherName((12, None)) == "AES-128-CBC"
    ensures CipherName((3, None)) != CipherName((12, None))
  {
    assert AuditChain.Decimal(128) == AuditChain.Decimal(12) + "8";
    assert AuditChain.Decimal(12) == AuditChain.Decimal(1) + "2";
    assert CipherName((3, None))[0] != CipherName((12, None))[0];
  }

  /** Two ciphers that differ on the wire and not in the record. */
  lemma OneNameForTwo(a: Message, b: Message, ms: seq<Message>)
    requires AnswersWith(a, CipherIn) && AnswersWith(b, CipherIn) && SameMessages([a, b], ms)
    requires Carried(a, CipherIn) != Carried(b, CipherIn)
    requires Renamed(Carried(a, CipherIn), CipherName) == Renamed(Carried(b, CipherIn), CipherName)
    ensures !Settled(ms, CipherIn) && Settled(ms, Named(CipherIn, CipherName))
  {
    assert a in [a, b] && b in [a, b];
    assert a in ms && b in ms;
    forall m | m in ms ensures m == a || m == b {
      assert m in [a, b];
    }
    assert Carried(a, Named(CipherIn, CipherName)) == Renamed(Carried(a, CipherIn), CipherName);
    assert Carried(b, Named(CipherIn, CipherName)) == Renamed(Carried(b, CipherIn), CipherName);
    assert AnswersWith(a, Named(CipherIn, CipherName));
  }

  /** The answers to any two ciphers of one name, such as the AES-GCM ciphers 19 and 20: the identifier
      depends on their order and the recorded name does not. */
  lemma NamesHideOrder(c: (nat, Option<nat>), d: (nat, Option<nat>)) returns (a: Message, b: Message)
    requires Encodes(c.0, c.1) && Encodes(d.0, d.1) && c != d && CipherName(c) == CipherName(d)
    ensures ReadFromBytes(a, c.0, c.1) && ReadFromBytes(b, d.0, d.1)
    ensures forall ms :: SameMessages([a, b], ms) ==>
              !Settled(ms, CipherIn) && Settled(ms, Named(CipherIn, CipherName))
  {
    a := AnswerIsRead(c.0, c.1);
    b := AnswerIsRead(d.0, d.1);
    forall ms | SameMessages([a, b], ms)
      ensures !Settled(ms, CipherIn) && Settled(ms, Named(CipherIn, CipherName))
    {
      OneNameForTwo(a, b, ms);
    }
  }

  lemma OneNameForBoth(tag: nat, other: nat, keyLength: Option<nat>)
    requires {tag, other} <= {18, 19, 20} || {tag, other} <= {14, 15, 16}
    ensures CipherName((tag, keyLength)) == CipherName((other, keyLength))
    ensures CipherName((tag, None)) == CipherName((other, Some(128)))
  {
  }
}
