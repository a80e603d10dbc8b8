/** Stage 1 bucketing (core/ingestion/engine.py) and the parser's own attribution of ESP packets
    (core/ike_parser/ikev2.py `_groups`): IKE frames grouped by initiator SPI, ESP packets given to
    the SAs of one peer pair, a NATed packet to the only pair that shares an endpoint with it. */
module Ingestion {
  import opened IkeWire
  import opened SaAnalysis
  import opened SaCommon
  import opened Sorting
  import opened Wrappers

  /** One decoded IKE message and where it was seen. */
  datatype IkeFrame = IkeFrame(msg: Message, src: string, dst: string, number: nat, v6: bool, port: nat, time: real)

  /** One ESP or AH packet, reduced to metadata. */
  datatype EspFrame = EspFrame(spi: Option<nat>, seqNo: Option<nat>, src: string, dst: string, number: nat,
                               time: real, size: nat)

  type Key = Bytes
  type Peers = set<string>

  function KeyOf(f: IkeFrame): Key {
    f.msg.initiatorSpi
  }

  function EspPeers(e: EspFrame): Peers {
    {e.src, e.dst}
  }

  // ---------------------------------------------------------------------------
  // Specification
  // ---------------------------------------------------------------------------

  /** The initiator SPIs in the order they first appear. */
  function Keys(ike: seq<IkeFrame>): seq<Key> {
    if ike == [] then []
    else
      var n := |ike| - 1;
      var rest := Keys(ike[..n]);
      if KeyOf(ike[n]) in rest then rest else rest + [KeyOf(ike[n])]
  }

  lemma {:induction false} KeysDoNotRepeat(ike: seq<IkeFrame>)
    ensures Distinct(Keys(ike))
    decreases |ike|
  {
    if ike != [] {
      KeysDoNotRepeat(ike[..|ike| - 1]);
    }
  }

  function FramesOf(ike: seq<IkeFrame>, key: Key): seq<IkeFrame> {
    if ike == [] then []
    else
      var n := |ike| - 1;
      FramesOf(ike[..n], key) + (if KeyOf(ike[n]) == key then [ike[n]] else [])
  }

  lemma Snoc(ike: seq<IkeFrame>, i: nat)
    requires i < |ike|
    ensures Keys(ike[..i + 1]) ==
            (if KeyOf(ike[i]) in Keys(ike[..i]) then Keys(ike[..i]) else Keys(ike[..i]) + [KeyOf(ike[i])])
    ensures forall k :: FramesOf(ike[..i + 1], k) ==
                        FramesOf(ike[..i], k) + (if KeyOf(ike[i]) == k then [ike[i]] else [])
  {
    assert ike[..i + 1][..i] == ike[..i];
  }

  predicate Opens(f: IkeFrame) {
    !IsResponse(f.msg) && f.msg.messageId == 0
  }

  /** The addresses of the opening message, once one has been seen. */
  function Opener(frames: seq<IkeFrame>): Option<IkeFrame> {
    if frames == [] then None
    else
      var n := |frames| - 1;
      var before := Opener(frames[..n]);
      if before.Some? then before else if Opens(frames[n]) then Some(frames[n]) else None
  }

  function Ends(f: IkeFrame): Peers {
    {f.src, f.dst}
  }

  /** Stage 1's peer pair: the opener's addresses, or the first frame's; an empty address is no peer. */
  function Stage1Peers(frames: seq<IkeFrame>): Peers
    requires frames != []
  {
    var opener := Opener(frames);
    Ends(if opener.Some? then opener.value else frames[0]) - {""}
  }

  /** The parser's: always the first frame's. */
  function ParserPeers(frames: seq<IkeFrame>): Peers
    requires frames != []
  {
    Ends(frames[0])
  }

  lemma {:induction false} KeysHaveFrames(ike: seq<IkeFrame>, key: Key)
    ensures key in Keys(ike) <==> FramesOf(ike, key) != []
    decreases |ike|
  {
    if ike != [] {
      KeysHaveFrames(ike[..|ike| - 1], key);
    }
  }

  function PeersOf(frames: seq<IkeFrame>, stage1: bool): Peers {
    if frames == [] then {} else if stage1 then Stage1Peers(frames) else ParserPeers(frames)
  }

  ghost function PeerTable(ike: seq<IkeFrame>, stage1: bool): map<Key, Peers> {
    map key | key in Keys(ike) :: PeersOf(FramesOf(ike, key), stage1)
  }

  /** The SAs of each peer pair, in order. */
  function PairsOf(keys: seq<Key>, peers: map<Key, Peers>): map<Peers, seq<Key>>
    requires forall k :: k in keys ==> k in peers
  {
    if keys == [] then map[]
    else
      var n := |keys| - 1;
      var rest := PairsOf(keys[..n], peers);
      var p := peers[keys[n]];
      rest[p := (if p in rest then rest[p] else []) + [keys[n]]]
  }

  /** Exactly one peer pair shares an endpoint with `e`, and it is `p`. */
  ghost predicate OnlyCandidate(p: Peers, e: Peers, pairs: map<Peers, seq<Key>>) {
    && p in pairs && p * e != {}
    && forall q :: q in pairs && q * e != {} ==> q == p
  }

  ghost function Owners(e: Peers, pairs: map<Peers, seq<Key>>): seq<Key> {
    if e in pairs then pairs[e]
    else if exists p :: OnlyCandidate(p, e, pairs)
    then var p :| OnlyCandidate(p, e, pairs); pairs[p]
    else []
  }

  ghost function EspOf(esp: seq<EspFrame>, key: Key, pairs: map<Peers, seq<Key>>): seq<EspFrame> {
    if esp == [] then []
    else
      var n := |esp| - 1;
      EspOf(esp[..n], key, pairs) + (if key in Owners(EspPeers(esp[n]), pairs) then [esp[n]] else [])
  }

  ghost function Orphans(esp: seq<EspFrame>, pairs: map<Peers, seq<Key>>): seq<EspFrame> {
    if esp == [] then []
    else
      var n := |esp| - 1;
      Orphans(esp[..n], pairs) + (if Owners(EspPeers(esp[n]), pairs) == [] then [esp[n]] else [])
  }

  function OrZero(n: Option<nat>): nat {
    if n.Some? then n.value else 0
  }

  /** The (spi, seq) pairs the anti-replay check reads. */
  function Records(esp: seq<EspFrame>): seq<(nat, nat)> {
    seq(|esp|, i requires 0 <= i < |esp| => (OrZero(esp[i].spi), OrZero(esp[i].seqNo)))
  }

  // ---------------------------------------------------------------------------
  // The loops
  // ---------------------------------------------------------------------------

  /** One SA and its data-plane packets; its versions are those of its first frame, and its id is
      the initiator's SPI with the first responder SPI that is not zero. */
  datatype RawSession = RawSession(key: Key, responder: Bytes, v1: bool, v6: bool, frames: seq<IkeFrame>, peers: Peers,
                                   esp: seq<EspFrame>)

  function RawSessionOf(key: Key, frames: seq<IkeFrame>, peers: Peers, esp: seq<EspFrame>): RawSession
    requires frames != []
  {
    RawSession(key, ResponderSpi(Messages(frames)), frames[0].msg.version == IKE_VERSION_1, frames[0].v6,
               frames, peers, esp)
  }

  function Messages(frames: seq<IkeFrame>): seq<Message> {
    seq(|frames|, i requires 0 <= i < |frames| => frames[i].msg)
  }

  ghost predicate Grouped(keys: seq<Key>, frames: map<Key, seq<IkeFrame>>, ike: seq<IkeFrame>) {
    && keys == Keys(ike)
    && (forall k :: k in frames <==> k in keys)
    && forall k :: k in frames ==> frames[k] == FramesOf(ike, k)
  }

  method GroupFrames(ike: seq<IkeFrame>) returns (keys: seq<Key>, frames: map<Key, seq<IkeFrame>>)
    ensures Grouped(keys, frames, ike)
  {
    keys, frames := [], map[];
    var i := 0;
    while i < |ike|
      invariant 0 <= i <= |ike|
      invariant Grouped(keys, frames, ike[..i])
    {
      keys, frames := AddFrame(keys, frames, ike, i);
      i := i + 1;
    }
    assert ike[..|ike|] == ike;
  }

  method AddFrame(keys: seq<Key>, frames: map<Key, seq<IkeFrame>>, ike: seq<IkeFrame>, i: nat)
    returns (moreKeys: seq<Key>, more: map<Key, seq<IkeFrame>>)
    requires i < |ike| && Grouped(keys, frames, ike[..i])
    ensures Grouped(moreKeys, more, ike[..i + 1])
  {
    var f := ike[i];
    moreKeys, more := keys, frames;
    Snoc(ike, i);
    KeysHaveFrames(ike[..i], KeyOf(f));
    if KeyOf(f) in frames {
      more := more[KeyOf(f) := frames[KeyOf(f)] + [f]];
    } else {
      moreKeys := keys + [KeyOf(f)];
      more := more[KeyOf(f) := [f]];
    }
    forall k | k in more ensures more[k] == FramesOf(ike[..i + 1], k) {
      assert FramesOf(ike[..i + 1], k) == FramesOf(ike[..i], k) + (if KeyOf(f) == k then [f] else []);
    }
  }

  method NatOwner(e: Peers, pairs: map<Peers, seq<Key>>) returns (owners: seq<Key>)
    requires e !in pairs
    ensures owners == Owners(e, pairs)
  {
    var candidates: seq<Peers> := [];
    var todo := pairs.Keys;
    while todo != {}
      invariant todo <= pairs.Keys
      invariant forall i :: 0 <= i < |candidates| ==> candidates[i] in pairs.Keys - todo && candidates[i] * e != {}
      invariant forall i, j :: 0 <= i < j < |candidates| ==> candidates[i] != candidates[j]
      invariant forall p :: p in pairs.Keys - todo && p * e != {} ==> p in candidates
    {
      var p :| p in todo;
      if p * e != {} {
        candidates := candidates + [p];
      }
      todo := todo - {p};
    }
    if |candidates| == 1 {
      assert candidates == [candidates[0]];
      assert OnlyCandidate(candidates[0], e, pairs);
      owners := pairs[candidates[0]];
    } else {
      owners := [];
      if |candidates| > 1 {
        assert candidates[0] != candidates[1];
      }
    }
  }

  method FindOwners(e: Peers, pairs: map<Peers, seq<Key>>) returns (owners: seq<Key>)
    ensures owners == Owners(e, pairs)
  {
    if e in pairs {
      owners := pairs[e];
    } else {
      owners := NatOwner(e, pairs);
    }
  }

  ghost predicate Attributed(owned: map<Key, seq<EspFrame>>, orphans: seq<EspFrame>, keys: set<Key>,
                             esp: seq<EspFrame>, pairs: map<Peers, seq<Key>>) {
    && owned.Keys == keys
    && (forall k :: k in keys ==> owned[k] == EspOf(esp, k, pairs))
    && orphans == Orphans(esp, pairs)
  }

  lemma EspSnoc(esp: seq<EspFrame>, i: nat, pairs: map<Peers, seq<Key>>)
    requires i < |esp|
    ensures var owners := Owners(EspPeers(esp[i]), pairs);
            && (forall k :: EspOf(esp[..i + 1], k, pairs) ==
                            EspOf(esp[..i], k, pairs) + (if k in owners then [esp[i]] else []))
            && Orphans(esp[..i + 1], pairs) == Orphans(esp[..i], pairs) + (if owners == [] then [esp[i]] else [])
  {
    assert esp[..i + 1][..i] == esp[..i];
  }

  /** Each pair lists SAs of this capture, none twice, and at least one. */
  ghost predicate PairsOver(pairs: map<Peers, seq<Key>>, keys: set<Key>) {
    forall p :: p in pairs ==>
      pairs[p] != [] && Distinct(pairs[p]) && forall k :: k in pairs[p] ==> k in keys
  }

  lemma OwnersAreOver(e: Peers, pairs: map<Peers, seq<Key>>, keys: set<Key>)
    requires PairsOver(pairs, keys)
    ensures Distinct(Owners(e, pairs)) && forall k :: k in Owners(e, pairs) ==> k in keys
  {
  }

  /** Hand every ESP packet to its owners, or to the orphans. */
  method AttributeEsp(esp: seq<EspFrame>, keys: set<Key>, pairs: map<Peers, seq<Key>>)
    returns (owned: map<Key, seq<EspFrame>>, orphans: seq<EspFrame>)
    requires PairsOver(pairs, keys)
    ensures Attributed(owned, orphans, keys, esp, pairs)
  {
    owned := map k | k in keys :: [];
    orphans := [];
    var i := 0;
    while i < |esp|
      invariant 0 <= i <= |esp|
      invariant Attributed(owned, orphans, keys, esp[..i], pairs)
    {
      var e := esp[i];
      var owners := FindOwners(EspPeers(e), pairs);
      OwnersAreOver(EspPeers(e), pairs, keys);
      EspSnoc(esp, i, pairs);
      owned := AppendTo(owned, owners, e);
      if owners == [] {
        orphans := orphans + [e];
      }
      i := i + 1;
    }
    assert esp[..|esp|] == esp;
  }

  method AppendTo(owned: map<Key, seq<EspFrame>>, owners: seq<Key>, e: EspFrame) returns (r: map<Key, seq<EspFrame>>)
    requires forall k :: k in owners ==> k in owned
    requires Distinct(owners)
    ensures r.Keys == owned.Keys
    ensures forall k :: k in owned ==> r[k] == owned[k] + (if k in owners then [e] else [])
  {
    r := owned;
    var i := 0;
    while i < |owners|
      invariant 0 <= i <= |owners|
      invariant r.Keys == owned.Keys
      invariant forall k :: k in owned ==> r[k] == owned[k] + (if k in owners[..i] then [e] else [])
    {
      var k := owners[i];
      assert k in owners;
      assert k !in owners[..i];
      r := r[k := r[k] + [e]];
      assert owners[..i + 1] == owners[..i] + [k];
      i := i + 1;
    }
    assert owners[..|owners|] == owners;
  }

  /** The peer pair of every SA. */
  method PeerUp(ike: seq<IkeFrame>, keys: seq<Key>, frames: map<Key, seq<IkeFrame>>) returns (peers: map<Key, Peers>)
    requires Grouped(keys, frames, ike)
    ensures peers == PeerTable(ike, true)
  {
    peers := map k | k in frames :: PeersOf(frames[k], true);
    assert forall k :: k in peers <==> k in Keys(ike);
    assert forall k :: k in peers ==> peers[k] == PeersOf(FramesOf(ike, k), true);
  }

  /** The SAs of every peer pair. */
  method PairUp(keys: seq<Key>, peers: map<Key, Peers>) returns (pairs: map<Peers, seq<Key>>)
    requires forall k :: k in keys ==> k in peers
    ensures pairs == PairsOf(keys, peers)
  {
    pairs := map[];
    var i := 0;
    while i < |keys|
      invariant 0 <= i <= |keys|
      invariant pairs == PairsOf(keys[..i], peers)
    {
      var k := keys[i];
      assert k in keys;
      var p := peers[k];
      assert keys[..i + 1][..i] == keys[..i];
      pairs := pairs[p := (if p in pairs then pairs[p] else []) + [k]];
      i := i + 1;
    }
    assert keys[..|keys|] == keys;
  }

  /** What bucketing produces: the SAs in order of appearance, each with its frames and ESP. */
  ghost predicate Bucketed(sessions: seq<RawSession>, ike: seq<IkeFrame>, esp: seq<EspFrame>) {
    var table := PeerTable(ike, true);
    && |sessions| == |Keys(ike)|
    && forall i :: 0 <= i < |sessions| ==>
         var k := Keys(ike)[i];
         k in table && FramesOf(ike, k) != [] &&
         sessions[i] == RawSessionOf(k, FramesOf(ike, k), table[k], EspOf(esp, k, PairsOf(Keys(ike), table)))
  }

  /** Group a capture into SAs and hand each its ESP packets. */
  method Bucket(ike: seq<IkeFrame>, esp: seq<EspFrame>) returns (sessions: seq<RawSession>, orphans: seq<EspFrame>)
    ensures Bucketed(sessions, ike, esp)
    ensures orphans == Orphans(esp, PairsOf(Keys(ike), PeerTable(ike, true)))
  {
    var keys, frames := GroupFrames(ike);
    var peers := PeerUp(ike, keys, frames);
    var pairs := PairUp(keys, peers);
    KeysDoNotRepeat(ike);
    PairsAreOver(keys, peers, frames.Keys);
    var owned;
    owned, orphans := AttributeEsp(esp, frames.Keys, pairs);
    forall k | k in keys ensures frames[k] != [] {
      KeysHaveFrames(ike, k);
    }
    sessions := Assemble(keys, frames, peers, owned);
  }

  method Assemble(keys: seq<Key>, frames: map<Key, seq<IkeFrame>>, peers: map<Key, Peers>,
                  owned: map<Key, seq<EspFrame>>)
    returns (sessions: seq<RawSession>)
    requires forall k :: k in keys ==> k in frames && k in peers && k in owned && frames[k] != []
    ensures |sessions| == |keys|
    ensures forall i :: 0 <= i < |keys| ==>
              sessions[i] == RawSessionOf(keys[i], frames[keys[i]], peers[keys[i]], owned[keys[i]])
  {
    sessions := [];
    var i := 0;
    while i < |keys|
      invariant 0 <= i <= |keys| && |sessions| == i
      invariant forall j :: 0 <= j < i ==>
                  sessions[j] == RawSessionOf(keys[j], frames[keys[j]], peers[keys[j]], owned[keys[j]])
    {
      var first := frames[keys[i]][0];
      var responder := NamedResponder(frames[keys[i]]);
      sessions := sessions + [RawSession(keys[i], responder, first.msg.version == IKE_VERSION_1, first.v6,
                                         frames[keys[i]], peers[keys[i]], owned[keys[i]])];
      i := i + 1;
    }
  }

  /** The first responder SPI that is not zero, or zero. */
  method NamedResponder(frames: seq<IkeFrame>) returns (spi: Bytes)
    ensures spi == ResponderSpi(Messages(frames))
  {
    var i := 0;
    while i < |frames|
      invariant 0 <= i <= |frames|
      invariant ResponderSpi(Messages(frames)) == ResponderSpi(Messages(frames)[i..])
    {
      assert Messages(frames)[i..][1..] == Messages(frames)[i + 1..];
      if frames[i].msg.responderSpi != ZERO_SPI {
        return frames[i].msg.responderSpi;
      }
      i := i + 1;
    }
    spi := ZERO_SPI;
  }

  // ---------------------------------------------------------------------------
  // Peer pairs
  // ---------------------------------------------------------------------------

  /** `p` lists exactly the SAs between those peers. */
  lemma {:induction false} PairLists(keys: seq<Key>, peers: map<Key, Peers>, p: Peers, k: Key)
    requires forall k :: k in keys ==> k in peers
    ensures var pairs := PairsOf(keys, peers);
            p in pairs && k in pairs[p] <==> k in keys && peers[k] == p
    decreases |keys|
  {
    if keys != [] {
      var n := |keys| - 1;
      assert keys == keys[..n] + [keys[n]];
      PairLists(keys[..n], peers, p, k);
    }
  }

  lemma {:induction false} PairIsProper(keys: seq<Key>, peers: map<Key, Peers>, p: Peers)
    requires forall k :: k in keys ==> k in peers
    requires Distinct(keys)
    requires p in PairsOf(keys, peers)
    ensures PairsOf(keys, peers)[p] != [] && Distinct(PairsOf(keys, peers)[p])
    decreases |keys|
  {
    var n := |keys| - 1;
    var rest := PairsOf(keys[..n], peers);
    if p in rest {
      PairIsProper(keys[..n], peers, p);
      PairLists(keys[..n], peers, p, keys[n]);
      assert keys[n] !in keys[..n];
      assert keys[n] !in rest[p];
    }
  }

  lemma PairsAreOver(keys: seq<Key>, peers: map<Key, Peers>, all: set<Key>)
    requires forall k :: k in keys ==> k in peers && k in all
    requires Distinct(keys)
    ensures PairsOver(PairsOf(keys, peers), all)
  {
    var pairs := PairsOf(keys, peers);
    forall p | p in pairs ensures pairs[p] != [] && Distinct(pairs[p]) && forall k :: k in pairs[p] ==> k in all {
      PairIsProper(keys, peers, p);
      forall k | k in pairs[p] ensures k in all {
        PairLists(keys, peers, p, k);
      }
    }
  }

  /** The SAs whose peers are `p`. */
  ghost predicate AllSasBetween(owners: seq<Key>, ike: seq<IkeFrame>, p: Peers) {
    forall k :: k in owners <==> k in Keys(ike) && PeerTable(ike, true)[k] == p
  }

  /** An ESP packet belongs to all the SAs of exactly one peer pair, or to none. */
  lemma EspHasOnePairOrNone(ike: seq<IkeFrame>, e: Peers)
    ensures var owners := Owners(e, PairsOf(Keys(ike), PeerTable(ike, true)));
            owners == [] || exists p :: AllSasBetween(owners, ike, p)
  {
    var peers := PeerTable(ike, true);
    var pairs := PairsOf(Keys(ike), peers);
    if Owners(e, pairs) != [] {
      var p :| p in pairs && Owners(e, pairs) == pairs[p];
      forall k ensures k in pairs[p] <==> k in Keys(ike) && peers[k] == p {
        PairLists(Keys(ike), peers, p, k);
      }
      assert AllSasBetween(Owners(e, pairs), ike, p);
    }
  }

  /** Every ESP packet reaches an SA or the orphans, never both, wherever it stands in the capture. */
  lemma {:induction false} EspGoesSomewhere(esp: seq<EspFrame>, pairs: map<Peers, seq<Key>>, e: EspFrame)
    requires e in esp
    ensures (exists k :: e in EspOf(esp, k, pairs)) <==> e !in Orphans(esp, pairs)
    decreases |esp|
  {
    OwnedIff(esp, pairs, e);
    OrphanIff(esp, pairs, e);
    var owners := Owners(EspPeers(e), pairs);
    if owners != [] {
      assert owners[0] in owners;
      assert e in EspOf(esp, owners[0], pairs);
    }
  }

  lemma {:induction false} OwnedIff(esp: seq<EspFrame>, pairs: map<Peers, seq<Key>>, e: EspFrame)
    ensures forall k :: e in EspOf(esp, k, pairs) <==> e in esp && k in Owners(EspPeers(e), pairs)
    decreases |esp|
  {
    if esp != [] {
      var n := |esp| - 1;
      OwnedIff(esp[..n], pairs, e);
      assert esp == esp[..n] + [esp[n]];
    }
  }

  lemma {:induction false} OrphanIff(esp: seq<EspFrame>, pairs: map<Peers, seq<Key>>, e: EspFrame)
    ensures e in Orphans(esp, pairs) <==> e in esp && Owners(EspPeers(e), pairs) == []
    decreases |esp|
  {
    if esp != [] {
      var n := |esp| - 1;
      OrphanIff(esp[..n], pairs, e);
      assert esp == esp[..n] + [esp[n]];
    }
  }

  // ---------------------------------------------------------------------------
  // Frames
  // ---------------------------------------------------------------------------

  function Numbers(frames: seq<IkeFrame>): seq<nat> {
    seq(|frames|, i requires 0 <= i < |frames| => frames[i].number)
  }

  ghost predicate Increasing(ns: seq<nat>) {
    forall i, j :: 0 <= i < j < |ns| ==> ns[i] < ns[j]
  }

  lemma {:induction false} FramesOfMembers(ike: seq<IkeFrame>, key: Key)
    ensures forall f :: f in FramesOf(ike, key) <==> f in ike && KeyOf(f) == key
    decreases |ike|
  {
    if ike != [] {
      var n := |ike| - 1;
      FramesOfMembers(ike[..n], key);
      assert ike == ike[..n] + [ike[n]];
    }
  }

  lemma {:induction false} FramesOfIncrease(ike: seq<IkeFrame>, key: Key)
    requires Increasing(Numbers(ike))
    ensures Increasing(Numbers(FramesOf(ike, key)))
    decreases |ike|
  {
    if ike != [] {
      var n := |ike| - 1;
      assert forall i :: 0 <= i <= n ==> Numbers(ike)[i] == ike[i].number;
      assert forall i :: 0 <= i < n ==> Numbers(ike[..n])[i] == ike[i].number;
      FramesOfIncrease(ike[..n], key);
      FramesOfMembers(ike[..n], key);
      var before := FramesOf(ike[..n], key);
      forall i | 0 <= i < |before| ensures before[i].number < ike[n].number {
        assert before[i] in before;
        var j :| 0 <= j < n && ike[..n][j] == before[i];
        assert Numbers(ike)[j] < Numbers(ike)[n];
      }
      var after := FramesOf(ike, key);
      forall i, j | 0 <= i < j < |after| ensures Numbers(after)[i] < Numbers(after)[j] {
        assert after[i] == before[i];
        if j < |before| {
          assert Numbers(before)[i] < Numbers(before)[j];
        }
      }
    }
  }

  ghost predicate NumberedBy(ike: seq<IkeFrame>, n: nat, k: Key) {
    exists i :: 0 <= i < |ike| && ike[i].number == n && KeyOf(ike[i]) == k
  }

  lemma InNumbersIff(ike: seq<IkeFrame>, n: nat, k: Key)
    ensures n in Numbers(FramesOf(ike, k)) <==> NumberedBy(ike, n, k)
  {
    var frames := FramesOf(ike, k);
    FramesOfMembers(ike, k);
    if n in Numbers(frames) {
      var i :| 0 <= i < |Numbers(frames)| && Numbers(frames)[i] == n;
      assert frames[i] in ike;
    }
    if NumberedBy(ike, n, k) {
      var i :| 0 <= i < |ike| && ike[i].number == n && KeyOf(ike[i]) == k;
      InNumbers(frames, ike[i]);
    }
  }

  /** The evidence list of the SA that frame number `n` belongs to. */
  lemma NumberHasOwner(ike: seq<IkeFrame>, n: nat) returns (k: Key)
    requires n in Numbers(ike)
    ensures k in Keys(ike) && n in Numbers(FramesOf(ike, k))
  {
    var i :| 0 <= i < |Numbers(ike)| && Numbers(ike)[i] == n;
    k := KeyOf(ike[i]);
    InNumbersIff(ike, n, k);
    KeysHaveFrames(ike, k);
  }

  lemma NumberHasOneOwner(ike: seq<IkeFrame>, n: nat, j: Key, k: Key)
    requires Increasing(Numbers(ike))
    requires n in Numbers(FramesOf(ike, j)) && n in Numbers(FramesOf(ike, k))
    ensures j == k && n in Numbers(ike)
  {
    InNumbersIff(ike, n, j);
    InNumbersIff(ike, n, k);
    var x :| 0 <= x < |ike| && ike[x].number == n && KeyOf(ike[x]) == j;
    var y :| 0 <= y < |ike| && ike[y].number == n && KeyOf(ike[y]) == k;
    assert Numbers(ike)[x] == Numbers(ike)[y] == n;
  }

  /** Frame number `n` is evidence of the SA `k`. */
  ghost predicate Evidences(ike: seq<IkeFrame>, k: Key, n: nat) {
    n in Numbers(FramesOf(ike, k))
  }

  /** The sessions' evidence lists partition the capture's IKE frame numbers: each list increases,
      no number is in two of them, and the numbers in them are exactly the capture's. */
  lemma EvidencePartitionsFrames(ike: seq<IkeFrame>)
    requires Increasing(Numbers(ike))
    ensures forall k :: k in Keys(ike) ==> Increasing(Numbers(FramesOf(ike, k)))
    ensures forall n :: n in Numbers(ike) <==> exists k :: k in Keys(ike) && Evidences(ike, k, n)
    ensures forall j, k, n :: Evidences(ike, j, n) && Evidences(ike, k, n) ==> j == k
  {
    forall k | k in Keys(ike) ensures Increasing(Numbers(FramesOf(ike, k))) {
      FramesOfIncrease(ike, k);
    }
    forall n | n in Numbers(ike) ensures exists k :: k in Keys(ike) && Evidences(ike, k, n) {
      var k := NumberHasOwner(ike, n);
    }
    forall j, k, n | Evidences(ike, j, n) && Evidences(ike, k, n) ensures j == k && n in Numbers(ike) {
      NumberHasOneOwner(ike, n, j, k);
    }
  }

  lemma InNumbers(frames: seq<IkeFrame>, f: IkeFrame)
    requires f in frames
    ensures f.number in Numbers(frames)
  {
    var i :| 0 <= i < |frames| && frames[i] == f;
    assert Numbers(frames)[i] == f.number;
  }

  // ---------------------------------------------------------------------------
  // The two attributions
  // ---------------------------------------------------------------------------

  /** Each SA's opening message and first message travelled between the same two addresses. */
  ghost predicate SharedPairs(ike: seq<IkeFrame>) {
    && (forall f :: f in ike ==> f.src != "" && f.dst != "")
    && (forall f, g :: f in ike && g in ike && KeyOf(f) == KeyOf(g) && Opens(g) ==> Ends(f) == Ends(g))
  }

  lemma {:induction false} OpenerIsFrame(frames: seq<IkeFrame>)
    ensures Opener(frames).Some? ==> Opener(frames).value in frames && Opens(Opener(frames).value)
    decreases |frames|
  {
    if frames != [] {
      OpenerIsFrame(frames[..|frames| - 1]);
    }
  }

  /** The parser's own attribution gives every SA the list Stage 1 gave it. */
  lemma AttributionsAgree(ike: seq<IkeFrame>, esp: seq<EspFrame>, key: Key)
    requires SharedPairs(ike)
    requires key in Keys(ike)
    ensures Records(EspOf(esp, key, PairsOf(Keys(ike), PeerTable(ike, true)))) ==
            Records(EspOf(esp, key, PairsOf(Keys(ike), PeerTable(ike, false))))
  {
    TablesAgree(ike);
  }

  lemma SamePeers(frames: seq<IkeFrame>)
    requires forall f :: f in frames ==> f.src != "" && f.dst != ""
    requires forall f, g :: f in frames && g in frames && Opens(g) ==> Ends(f) == Ends(g)
    ensures PeersOf(frames, true) == PeersOf(frames, false)
  {
    if frames != [] {
      OpenerIsFrame(frames);
      assert frames[0] in frames;
    }
  }

  lemma TablesAgree(ike: seq<IkeFrame>)
    requires SharedPairs(ike)
    ensures PeerTable(ike, true) == PeerTable(ike, false)
  {
    forall k | k in Keys(ike) ensures PeersOf(FramesOf(ike, k), true) == PeersOf(FramesOf(ike, k), false) {
      FramesOfMembers(ike, k);
      SamePeers(FramesOf(ike, k));
    }
  }

  lemma TwoFrames(f: IkeFrame, g: IkeFrame)
    requires KeyOf(f) == KeyOf(g) && !Opens(f) && Opens(g)
    ensures Keys([f, g]) == [KeyOf(f)]
    ensures PeersOf(FramesOf([f, g], KeyOf(f)), true) == Ends(g) - {""}
    ensures PeersOf(FramesOf([f, g], KeyOf(f)), false) == Ends(f)
  {
    var key := KeyOf(f);
    assert [f, g][..1] == [f] && [f][..0] == [];
    assert Keys([f]) == [key];
    assert FramesOf([f], key) == [f] && FramesOf([f, g], key) == [f, g];
    assert Opener([f]) == None;
    assert Opener([f, g]) == Some(g);
  }

  lemma OnePair(key: Key, peers: map<Key, Peers>)
    requires key in peers
    ensures PairsOf([key], peers) == map[peers[key] := [key]]
  {
    var none: seq<Key> := [];
    assert [key][..0] == none && none + [key] == [key];
    assert PairsOf(none, peers) == map[];
  }

  lemma OneEsp(e: EspFrame, key: Key, pairs: map<Peers, seq<Key>>)
    ensures |EspOf([e], key, pairs)| == if key in Owners(EspPeers(e), pairs) then 1 else 0
  {
    assert [e][..0] == [];
  }

  lemma OnePairOwns(e: Peers, p: Peers, key: Key)
    ensures key in Owners(e, map[p := [key]]) <==> e == p || p * e != {}
  {
    var pairs := map[p := [key]];
    if e != p && p * e != {} {
      assert OnlyCandidate(p, e, pairs);
    }
  }

  /** A packet from an address of one pair only goes to that pair's SA. */
  lemma DifferentPairsDiffer(key: Key, p: Peers, q: Peers) returns (e: EspFrame)
    requires p != q
    ensures key in Owners(EspPeers(e), map[p := [key]]) <==> key !in Owners(EspPeers(e), map[q := [key]])
  {
    var x :| x in p <==> x !in q;
    e := EspFrame(None, None, x, x, 0, 0.0, 0);
    assert EspPeers(e) == {x};
    OnePairOwns({x}, p, key);
    OnePairOwns({x}, q, key);
    Touches(p, x);
    Touches(q, x);
  }

  lemma Touches(p: Peers, x: string)
    ensures x in p <==> p * {x} != {}
    ensures {x} == p ==> x in p
  {
    assert x in p ==> x in p * {x};
    assert x in {x};
  }

  ghost function SaPairs(ike: seq<IkeFrame>, stage1: bool): map<Peers, seq<Key>> {
    PairsOf(Keys(ike), PeerTable(ike, stage1))
  }

  /** Both attributions give every SA the same list, for every list of ESP packets. */
  ghost predicate AttributionsMatch(ike: seq<IkeFrame>) {
    forall esp, key :: key in Keys(ike) ==>
      Records(EspOf(esp, key, SaPairs(ike, true))) == Records(EspOf(esp, key, SaPairs(ike, false)))
  }

  ghost predicate SameOwners(ike: seq<IkeFrame>, e: Peers) {
    forall key :: key in Keys(ike) ==>
      (key in Owners(e, SaPairs(ike, true)) <==> key in Owners(e, SaPairs(ike, false)))
  }

  lemma {:induction false} SameOwnersSameList(esp: seq<EspFrame>, key: Key,
                                               p: map<Peers, seq<Key>>, q: map<Peers, seq<Key>>)
    requires forall e :: e in esp ==> (key in Owners(EspPeers(e), p) <==> key in Owners(EspPeers(e), q))
    ensures EspOf(esp, key, p) == EspOf(esp, key, q)
    decreases |esp|
  {
    if esp != [] {
      SameOwnersSameList(esp[..|esp| - 1], key, p, q);
    }
  }

  lemma DifferentOwnersDiffer(ike: seq<IkeFrame>, e: EspFrame)
    requires !SameOwners(ike, EspPeers(e))
    ensures !AttributionsMatch(ike)
  {
    var p, q := SaPairs(ike, true), SaPairs(ike, false);
    var key :| key in Keys(ike) && !(key in Owners(EspPeers(e), p) <==> key in Owners(EspPeers(e), q));
    OneEsp(e, key, p);
    OneEsp(e, key, q);
    assert |Records(EspOf([e], key, p))| != |Records(EspOf([e], key, q))|;
  }

  /** The addresses either attribution knows an SA by. */
  ghost function Known(ike: seq<IkeFrame>): set<string> {
    set p, x | p in SaPairs(ike, true).Keys + SaPairs(ike, false).Keys && x in p :: x
  }

  /** An address no pair names attributes nothing by itself, and is as good as any other such. */
  lemma StrangersAreAlike(pairs: map<Peers, seq<Key>>, x: string, u: string, s: string)
    requires forall p :: p in pairs ==> u !in p && s !in p
    ensures Owners({x, u}, pairs) == Owners({x, s}, pairs)
  {
    assert {x, u} !in pairs && {x, s} !in pairs;
    forall p | p in pairs ensures p * {x, u} != {} <==> p * {x, s} != {} {
      assert p * {x, u} == p * {x} && p * {x, s} == p * {x};
    }
    forall p ensures OnlyCandidate(p, {x, u}, pairs) <==> OnlyCandidate(p, {x, s}, pairs) {
    }
    if p :| OnlyCandidate(p, {x, u}, pairs) {
      assert forall q :: OnlyCandidate(q, {x, s}, pairs) ==> q == p;
    }
  }

  /** The exact condition, for every capture: the attributions match if and only if they agree on
      the packets between the addresses the SAs are known by, and one stranger. */
  lemma AttributionsMatchIff(ike: seq<IkeFrame>, stranger: string)
    requires stranger !in Known(ike)
    ensures AttributionsMatch(ike) <==>
            forall x, y :: x in Known(ike) + {stranger} && y in Known(ike) + {stranger} ==> SameOwners(ike, {x, y})
  {
    var known := Known(ike) + {stranger};
    if forall x, y :: x in known && y in known ==> SameOwners(ike, {x, y}) {
      forall e: EspFrame ensures SameOwners(ike, EspPeers(e)) {
        KnownDecides(ike, stranger, e.src, e.dst);
      }
      forall esp, key | key in Keys(ike)
        ensures EspOf(esp, key, SaPairs(ike, true)) == EspOf(esp, key, SaPairs(ike, false))
      {
        SameOwnersSameList(esp, key, SaPairs(ike, true), SaPairs(ike, false));
      }
    } else {
      var x, y :| x in known && y in known && !SameOwners(ike, {x, y});
      DifferentOwnersDiffer(ike, EspFrame(None, None, x, y, 0, 0.0, 0));
    }
  }

  lemma KnownDecides(ike: seq<IkeFrame>, stranger: string, src: string, dst: string)
    requires stranger !in Known(ike)
    requires forall x, y :: x in Known(ike) + {stranger} && y in Known(ike) + {stranger} ==> SameOwners(ike, {x, y})
    ensures SameOwners(ike, {src, dst})
  {
    var x := if src in Known(ike) then src else stranger;
    var y := if dst in Known(ike) then dst else stranger;
    assert SameOwners(ike, {x, y});
    Renamed(ike, src, dst, stranger);
    Renamed(ike, y, src, stranger);
    assert {src, y} == {y, src} && {y, x} == {x, y};
  }

  /** Putting the stranger in place of an address no SA is known by changes no owner. */
  lemma Renamed(ike: seq<IkeFrame>, x: string, u: string, stranger: string)
    requires stranger !in Known(ike)
    ensures var v := if u in Known(ike) then u else stranger;
            Owners({x, u}, SaPairs(ike, true)) == Owners({x, v}, SaPairs(ike, true))
            && Owners({x, u}, SaPairs(ike, false)) == Owners({x, v}, SaPairs(ike, false))
  {
    if u !in Known(ike) {
      StrangersAreAlike(SaPairs(ike, true), x, u, stranger);
      StrangersAreAlike(SaPairs(ike, false), x, u, stranger);
    }
  }

  lemma OneSaPairs(ike: seq<IkeFrame>, key: Key)
    requires Keys(ike) == [key]
    ensures SaPairs(ike, true) == map[PeersOf(FramesOf(ike, key), true) := [key]]
    ensures SaPairs(ike, false) == map[PeersOf(FramesOf(ike, key), false) := [key]]
  {
    OnePair(key, PeerTable(ike, true));
    OnePair(key, PeerTable(ike, false));
  }

  /** For a capture of one SA the condition is plain: the attributions match if and only if its
      opening message and its first message name the same peers. */
  lemma OneSaMatchesIff(ike: seq<IkeFrame>, key: Key)
    requires Keys(ike) == [key]
    ensures FramesOf(ike, key) != []
    ensures AttributionsMatch(ike) <==> Stage1Peers(FramesOf(ike, key)) == ParserPeers(FramesOf(ike, key))
  {
    KeysHaveFrames(ike, key);
    OneSaPairs(ike, key);
    var p, q := Stage1Peers(FramesOf(ike, key)), ParserPeers(FramesOf(ike, key));
    if p != q {
      var e := DifferentPairsDiffer(key, p, q);
      DifferentOwnersDiffer(ike, e);
    }
  }

  /** An SA whose first message is a response between other addresses than its opener's. */
  lemma AttributionsCanDiffer(first: Message, opener: Message)
    requires first.initiatorSpi == opener.initiatorSpi
    requires IsResponse(first) && !IsResponse(opener) && opener.messageId == 0
    ensures !AttributionsMatch([IkeFrame(first, "a", "b", 1, false, 500, 0.0),
                                IkeFrame(opener, "c", "d", 2, false, 500, 1.0)])
  {
    var f, g := IkeFrame(first, "a", "b", 1, false, 500, 0.0), IkeFrame(opener, "c", "d", 2, false, 500, 1.0);
    TwoFrames(f, g);
    OneSaMatchesIff([f, g], KeyOf(f));
    assert "a" in Ends(f) && "a" !in Ends(g);
  }

  /** With several SAs the peers may differ and the attributions still match: these two tables name
      different peers for both SAs and give every packet the same owners. */
  lemma PeersMayDifferWithSeveralSas(j: Key, k: Key, a: string, b: string, c: string, z: string, e: EspFrame)
    requires a != b && a != c && a != z && b != c && b != z && c != z
    ensures Owners(EspPeers(e), map[{a, b} := [j], {b, z} := [k]]) ==
            Owners(EspPeers(e), map[{a, c} := [j], {c, z} := [k]])
  {
    ChainOwners(j, k, a, b, z, e);
    ChainOwners(j, k, a, c, z, e);
  }

  /** Owners between two pairs that share the address `m`: the packet must touch exactly one end. */
  lemma ChainOwners(j: Key, k: Key, a: string, m: string, z: string, e: EspFrame)
    requires a != m && a != z && m != z
    ensures var ends := EspPeers(e);
            Owners(ends, map[{a, m} := [j], {m, z} := [k]]) ==
            if a in ends && z !in ends then [j] else if z in ends && a !in ends then [k] else []
  {
    var ends, p, q := EspPeers(e), {a, m}, {m, z};
    assert a in p && a !in q;
    TwoPairsOwn(ends, p, q, j, k);
    Meets(p, ends, a, m);
    Meets(q, ends, m, z);
    assert ends == p <==> a in ends && m in ends;
    assert ends == q <==> m in ends && z in ends;
  }

  lemma Meets(p: Peers, e: Peers, x: string, y: string)
    requires p == {x, y}
    ensures p * e != {} <==> x in e || y in e
  {
    assert x in e ==> x in p * e;
    assert y in e ==> y in p * e;
  }

  lemma TwoPairsOwn(e: Peers, p: Peers, q: Peers, j: Key, k: Key)
    requires p != q
    ensures Owners(e, map[p := [j], q := [k]]) ==
            if e == p then [j] else if e == q then [k]
            else if p * e != {} && q * e == {} then [j]
            else if q * e != {} && p * e == {} then [k] else []
  {
    var pairs := map[p := [j], q := [k]];
    assert p in pairs && q in pairs;
    if p * e != {} && q * e == {} {
      assert OnlyCandidate(p, e, pairs);
    }
    if q * e != {} && p * e == {} {
      assert OnlyCandidate(q, e, pairs);
    }
  }

  // ---------------------------------------------------------------------------
  // A growing capture
  // ---------------------------------------------------------------------------

  lemma {:induction false} FramesAppend(ike: seq<IkeFrame>, more: seq<IkeFrame>, key: Key)
    ensures FramesOf(ike + more, key) == FramesOf(ike, key) + FramesOf(more, key)
    decreases |more|
  {
    if more == [] {
      assert ike + more == ike;
    } else {
      var n := |more| - 1;
      assert (ike + more)[..|ike| + n] == ike + more[..n];
      FramesAppend(ike, more[..n], key);
    }
  }

  lemma {:induction false} KeysGrow(ike: seq<IkeFrame>, more: seq<IkeFrame>)
    ensures Keys(ike) <= Keys(ike + more)
    decreases |more|
  {
    if more == [] {
      assert ike + more == ike;
    } else {
      var n := |more| - 1;
      assert (ike + more)[..|ike| + n] == ike + more[..n];
      KeysGrow(ike, more[..n]);
    }
  }

  /** The IKEv2 messages among an SA's frames, in order. */
  function V2Messages(frames: seq<IkeFrame>): seq<Message> {
    if frames == [] then []
    else
      var n := |frames| - 1;
      V2Messages(frames[..n]) + (if frames[n].msg.version == IKE_VERSION_2 then [frames[n].msg] else [])
  }

  lemma {:induction false} V2Append(a: seq<IkeFrame>, b: seq<IkeFrame>)
    ensures V2Messages(a + b) == V2Messages(a) + V2Messages(b)
    decreases |b|
  {
    if b == [] {
      assert a + b == a;
    } else {
      var n := |b| - 1;
      assert (a + b)[..|a| + n] == a + b[..n];
      V2Append(a, b[..n]);
    }
  }

  /** Main result.  As a capture is extended every IKEv2 SA stays, in its place; its PFS state,
      mode and completeness only rise; and its identity changes at most once, when the responder's
      SPI first appears. */
  lemma GrowingCaptureOnlyLearns(ike: seq<IkeFrame>, more: seq<IkeFrame>, key: Key)
    requires key in Keys(ike)
    requires V2Messages(FramesOf(ike, key)) != []
    ensures Keys(ike) <= Keys(ike + more)
    ensures V2Messages(FramesOf(ike + more, key)) != []
    ensures var old_ := Analysed(V2Messages(FramesOf(ike, key)));
            var new_ := Analysed(V2Messages(FramesOf(ike + more, key)));
            && PfsRank(old_.pfs) <= PfsRank(new_.pfs)
            && ModeRank(old_.mode) <= ModeRank(new_.mode)
            && (old_.complete ==> new_.complete)
            && new_.initiatorSpi == old_.initiatorSpi
            && (old_.responderSpi != ZERO_SPI ==> new_.responderSpi == old_.responderSpi)
  {
    KeysGrow(ike, more);
    FramesAppend(ike, more, key);
    V2Append(FramesOf(ike, key), FramesOf(more, key));
    var ms := V2Messages(FramesOf(ike, key));
    var extra := V2Messages(FramesOf(more, key));
    MoreMessagesKnowMore(ms, ms + extra);
    IdentityChangesOnce(ms, extra);
  }
}
