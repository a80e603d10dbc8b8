/** The session ids one capture's analysis produces (core/pipeline.py), and what they mean for the
    job store: whether saving that analysis leaves a job that verifies. */
module Pipeline {
  import AuditChain
  import Capture
  import IkeBuild
  import opened IkeWire
  import opened Ingestion
  import JobStores
  import opened Sorting
  import opened Wrappers

  // ---------------------------------------------------------------------------
  // Ids
  // ---------------------------------------------------------------------------

  function HexDigit(n: nat): (c: char)
    requires n < 16
    ensures '0' <= c <= '9' || 'a' <= c <= 'f'
  {
    if n < 10 then '0' + n as char else 'a' + (n - 10) as char
  }

  function Hex(b: Bytes): (s: string)
    ensures |s| == 2 * |b|
  {
    if b == [] then "" else [HexDigit(At(b, 0) / 16), HexDigit(At(b, 0) % 16)] + Hex(b[1..])
  }

  lemma HexDigitInjective(m: nat, n: nat)
    requires m < 16 && n < 16 && HexDigit(m) == HexDigit(n)
    ensures m == n
  {
  }

  lemma {:induction false} HexInjective(a: Bytes, b: Bytes)
    requires |a| == |b| && Hex(a) == Hex(b)
    ensures a == b
  {
    if a != [] {
      assert Hex(a)[0] == Hex(b)[0] && Hex(a)[1] == Hex(b)[1];
      HexDigitInjective(At(a, 0) / 16, At(b, 0) / 16);
      HexDigitInjective(At(a, 0) % 16, At(b, 0) % 16);
      assert Hex(a)[2..] == Hex(a[1..]) && Hex(b)[2..] == Hex(b[1..]);
      HexInjective(a[1..], b[1..]);
      assert a == [a[0]] + a[1..] && b == [b[0]] + b[1..];
    }
  }

  lemma HexHasNoS(b: Bytes)
    requires |b| >= 1
    ensures Hex(b)[1] != 's'
  {
    assert Hex(b)[1] == HexDigit(At(b, 0) % 16);
  }

  function SaId(key: Key, responder: Bytes): string {
    Hex(key) + "-" + Hex(responder)
  }

  function OrphanId(first: EspFrame): string
    requires OrZero(first.spi) < 0x1_0000_0000
  {
    "esp-" + Hex(IkeBuild.Pack32(OrZero(first.spi)))
  }

  // ---------------------------------------------------------------------------
  // Orphans, one record per peer pair
  // ---------------------------------------------------------------------------

  function PeersSeen(firsts: seq<EspFrame>): set<Peers> {
    set f | f in firsts :: EspPeers(f)
  }

  /** The first packet of each peer pair, in order of appearance. */
  function Firsts(orphans: seq<EspFrame>): seq<EspFrame> {
    if orphans == [] then []
    else
      var n := |orphans| - 1;
      var before := Firsts(orphans[..n]);
      if EspPeers(orphans[n]) in PeersSeen(before) then before else before + [orphans[n]]
  }

  ghost predicate Fitting(frames: seq<EspFrame>) {
    forall i :: 0 <= i < |frames| ==> OrZero(frames[i].spi) < 0x1_0000_0000
  }

  lemma {:induction false} FirstsFit(orphans: seq<EspFrame>)
    requires Fitting(orphans)
    ensures Fitting(Firsts(orphans))
  {
    if orphans != [] {
      FirstsFit(orphans[..|orphans| - 1]);
    }
  }

  function OrphanIds(firsts: seq<EspFrame>): (ids: seq<string>)
    requires Fitting(firsts)
    ensures |ids| == |firsts| && forall i :: 0 <= i < |firsts| ==> ids[i] == OrphanId(firsts[i])
  {
    seq(|firsts|, i requires 0 <= i < |firsts| => OrphanId(firsts[i]))
  }

  /** Each group begins with that pair's first packet. */
  ghost predicate Begin(groups: seq<seq<EspFrame>>, firsts: seq<EspFrame>) {
    && |groups| == |firsts|
    && forall k :: 0 <= k < |groups| ==> groups[k] != [] && groups[k][0] == firsts[k]
  }

  method GroupOrphans(orphans: seq<EspFrame>) returns (groups: seq<seq<EspFrame>>)
    ensures Begin(groups, Firsts(orphans))
  {
    groups := [];
    var byPeers: map<Peers, nat> := map[];
    var i := 0;
    while i < |orphans|
      invariant 0 <= i <= |orphans|
      invariant byPeers.Keys == PeersSeen(Firsts(orphans[..i]))
      invariant forall p :: p in byPeers ==> byPeers[p] < |groups|
      invariant Begin(groups, Firsts(orphans[..i]))
    {
      var e := orphans[i];
      assert orphans[..i + 1][..i] == orphans[..i];
      ghost var before := Firsts(orphans[..i]);
      if EspPeers(e) in byPeers {
        var k := byPeers[EspPeers(e)];
        groups := groups[k := groups[k] + [e]];
      } else {
        byPeers := byPeers[EspPeers(e) := |groups|];
        groups := groups + [[e]];
        assert PeersSeen(before + [e]) == PeersSeen(before) + {EspPeers(e)};
      }
      i := i + 1;
    }
    assert orphans[..i] == orphans;
  }

  /** One record per group, named after the group's first packet. */
  method OrphanSessions(orphans: seq<EspFrame>) returns (ids: seq<string>)
    requires Fitting(orphans)
    ensures Fitting(Firsts(orphans)) && ids == OrphanIds(Firsts(orphans))
  {
    FirstsFit(orphans);
    var groups := GroupOrphans(orphans);
    ids := [];
    var k := 0;
    while k < |groups|
      invariant 0 <= k <= |groups| && |ids| == k
      invariant forall m :: 0 <= m < k ==> ids[m] == OrphanIds(Firsts(orphans))[m]
    {
      ids := ids + [OrphanId(groups[k][0])];
      k := k + 1;
    }
  }

  // ---------------------------------------------------------------------------
  // All the ids of one analysis
  // ---------------------------------------------------------------------------

  /** One id per SA the parser kept, then one per orphan group. */
  function SessionIds(kept: seq<Key>, responder: Key -> Bytes, firsts: seq<EspFrame>): seq<string>
    requires Fitting(firsts)
  {
    SaIds(kept, responder) + OrphanIds(firsts)
  }

  function SaIds(kept: seq<Key>, responder: Key -> Bytes): (ids: seq<string>)
    ensures |ids| == |kept| && forall i :: 0 <= i < |kept| ==> ids[i] == SaId(kept[i], responder(kept[i]))
  {
    seq(|kept|, i requires 0 <= i < |kept| => SaId(kept[i], responder(kept[i])))
  }

  /** No two orphan groups begin with packets of the same SPI (an unreadable SPI counts as zero). */
  ghost predicate FirstSpisDiffer(firsts: seq<EspFrame>) {
    forall i, j :: 0 <= i < j < |firsts| ==> OrZero(firsts[i].spi) != OrZero(firsts[j].spi)
  }

  lemma SaIdsDiffer(a: Key, ra: Bytes, b: Key, rb: Bytes)
    requires |a| == 8 && |b| == 8 && a != b
    ensures SaId(a, ra) != SaId(b, rb)
  {
    if SaId(a, ra) == SaId(b, rb) {
      assert SaId(a, ra)[..16] == Hex(a) && SaId(b, rb)[..16] == Hex(b);
      HexInjective(a, b);
    }
  }

  lemma SaIsNoOrphan(a: Key, ra: Bytes, f: EspFrame)
    requires |a| == 8 && OrZero(f.spi) < 0x1_0000_0000
    ensures SaId(a, ra) != OrphanId(f)
  {
    HexHasNoS(a);
    assert SaId(a, ra)[1] == Hex(a)[1] && OrphanId(f)[1] == 's';
  }

  lemma OrphanIdsEqualIff(f: EspFrame, g: EspFrame)
    requires OrZero(f.spi) < 0x1_0000_0000 && OrZero(g.spi) < 0x1_0000_0000
    ensures OrphanId(f) == OrphanId(g) <==> OrZero(f.spi) == OrZero(g.spi)
  {
    if OrphanId(f) == OrphanId(g) {
      assert OrphanId(f)[4..] == Hex(IkeBuild.Pack32(OrZero(f.spi)));
      assert OrphanId(g)[4..] == Hex(IkeBuild.Pack32(OrZero(g.spi)));
      HexInjective(IkeBuild.Pack32(OrZero(f.spi)), IkeBuild.Pack32(OrZero(g.spi)));
      Capture.PackedReads(OrZero(f.spi));
      Capture.PackedReads(OrZero(g.spi));
    }
  }

  ghost predicate EightBytes(keys: seq<Key>) {
    forall k :: k in keys ==> |k| == 8
  }

  lemma DistinctJoin(a: seq<string>, b: seq<string>)
    requires forall i, j :: 0 <= i < |a| && 0 <= j < |b| ==> a[i] != b[j]
    ensures Distinct(a + b) <==> Distinct(a) && Distinct(b)
  {
    var ab := a + b;
    assert forall i :: 0 <= i < |a| ==> ab[i] == a[i];
    assert forall j :: 0 <= j < |b| ==> ab[|a| + j] == b[j];
    if Distinct(a) && Distinct(b) {
      forall i, j | 0 <= i < j < |ab| ensures ab[i] != ab[j] {
        if i >= |a| {
          assert b[i - |a|] != b[j - |a|];
        }
      }
    }
    if Distinct(ab) {
      forall i, j | 0 <= i < j < |b| ensures b[i] != b[j] {
        assert ab[|a| + i] != ab[|a| + j];
      }
    }
  }

  lemma SaIdsDistinct(kept: seq<Key>, responder: Key -> Bytes)
    requires Distinct(kept) && EightBytes(kept)
    ensures Distinct(SaIds(kept, responder))
  {
    var ids := SaIds(kept, responder);
    forall i, j | 0 <= i < j < |ids| ensures ids[i] != ids[j] {
      SaIdsDiffer(kept[i], responder(kept[i]), kept[j], responder(kept[j]));
    }
  }

  lemma OrphanIdsDistinctIff(firsts: seq<EspFrame>)
    requires Fitting(firsts)
    ensures Distinct(OrphanIds(firsts)) <==> FirstSpisDiffer(firsts)
  {
    var ids := OrphanIds(firsts);
    forall i, j | 0 <= i < j < |ids| ensures ids[i] == ids[j] <==> OrZero(firsts[i].spi) == OrZero(firsts[j].spi) {
      OrphanIdsEqualIff(firsts[i], firsts[j]);
    }
  }

  /** The ids of one analysis are distinct exactly when its orphan groups start with different SPIs. */
  lemma SessionIdsDistinctIff(kept: seq<Key>, responder: Key -> Bytes, firsts: seq<EspFrame>)
    requires Distinct(kept) && EightBytes(kept) && Fitting(firsts)
    ensures Distinct(SessionIds(kept, responder, firsts)) <==> FirstSpisDiffer(firsts)
  {
    SaIdsDistinct(kept, responder);
    OrphanIdsDistinctIff(firsts);
    var sas, orphans := SaIds(kept, responder), OrphanIds(firsts);
    forall i, j | 0 <= i < |sas| && 0 <= j < |orphans| ensures sas[i] != orphans[j] {
      SaIsNoOrphan(kept[i], responder(kept[i]), firsts[j]);
    }
    DistinctJoin(sas, orphans);
  }

  // ---------------------------------------------------------------------------
  // From packets to a stored job
  // ---------------------------------------------------------------------------

  lemma ReadKeyIsEight(p: Capture.Packet, n: nat)
    ensures Capture.Classified(p, n).AsIke? ==> |KeyOf(Capture.Classified(p, n).ike)| == 8
  {
  }

  lemma {:induction false} ReadFramesHaveEight(packets: seq<Capture.Packet>)
    ensures forall f :: f in Capture.IkeIn(packets) ==> |KeyOf(f)| == 8
    decreases |packets|
  {
    if packets != [] {
      var n := |packets|;
      ReadFramesHaveEight(packets[..n - 1]);
      ReadKeyIsEight(packets[n - 1], n);
    }
  }

  lemma ReadKeysAreEight(packets: seq<Capture.Packet>)
    ensures EightBytes(Keys(Capture.IkeIn(packets)))
  {
    var ike := Capture.IkeIn(packets);
    ReadFramesHaveEight(packets);
    forall k | k in Keys(ike) ensures |k| == 8 {
      KeysHaveFrames(ike, k);
      FramesOfMembers(ike, k);
      assert FramesOf(ike, k)[0] in FramesOf(ike, k);
    }
  }

  lemma {:induction false} ReadSpisFit(packets: seq<Capture.Packet>)
    ensures Fitting(Capture.EspIn(packets))
    decreases |packets|
  {
    if packets != [] {
      ReadSpisFit(packets[..|packets| - 1]);
    }
  }

  lemma {:induction false} OrphansFit(esp: seq<EspFrame>, pairs: map<Peers, seq<Key>>)
    requires Fitting(esp)
    ensures Fitting(Orphans(esp, pairs))
    decreases |esp|
  {
    if esp != [] {
      OrphansFit(esp[..|esp| - 1], pairs);
    }
  }

  ghost function OrphanFirsts(packets: seq<Capture.Packet>): (firsts: seq<EspFrame>)
    ensures Fitting(firsts)
  {
    var ike, esp := Capture.IkeIn(packets), Capture.EspIn(packets);
    var pairs := PairsOf(Keys(ike), PeerTable(ike, true));
    ReadSpisFit(packets);
    OrphansFit(esp, pairs);
    FirstsFit(Orphans(esp, pairs));
    Firsts(Orphans(esp, pairs))
  }

  /** `s` stores the analysis of this capture, the parser having kept these SAs. */
  ghost predicate Stores(s: JobStores.Save, packets: seq<Capture.Packet>, kept: seq<Key>, responder: Key -> Bytes) {
    && Distinct(kept)
    && (forall k :: k in kept ==> k in Keys(Capture.IkeIn(packets)))
    && JobStores.DocIds(s.sessions) == SessionIds(kept, responder, OrphanFirsts(packets))
  }

  lemma OneSave(c: AuditChain.Crypto, s: JobStores.Save)
    requires AuditChain.CollisionFree(c) && AuditChain.JsonInjective(c)
    ensures JobStores.Verifies(c, JobStores.SaveTo(c, JobStores.EMPTY, s)) <==> JobStores.DistinctIds(s)
  {
    OneOp(c, s);
    OnlySave(c, [JobStores.SaveOp(s)], JobStores.SaveTo(c, JobStores.EMPTY, s), s);
  }

  lemma OnlySave(c: AuditChain.Crypto, ops: seq<JobStores.Op>, db: JobStores.DB, s: JobStores.Save)
    requires AuditChain.CollisionFree(c) && AuditChain.JsonInjective(c)
    requires JobStores.RunOps(c, JobStores.EMPTY, ops) == db && JobStores.SavedBy(map[], ops) == map[s.job := s]
    ensures JobStores.Verifies(c, db) <==> JobStores.DistinctIds(s)
  {
    JobStores.VerifiesIffDistinct(c, ops);
    assert s.job in JobStores.SavedBy(map[], ops);
  }

  lemma OneOp(c: AuditChain.Crypto, s: JobStores.Save)
    ensures JobStores.RunOps(c, JobStores.EMPTY, [JobStores.SaveOp(s)]) == JobStores.SaveTo(c, JobStores.EMPTY, s)
    ensures JobStores.SavedBy(map[], [JobStores.SaveOp(s)]) == map[s.job := s]
  {
    assert [JobStores.SaveOp(s)][1..] == [];
  }

  /** Main result, from packets to verification: a job saved from a capture verifies if and only if no
      two of its mid-session tunnels begin with the same SPI and no two of its anomalies share an id. */
  lemma SavedCaptureVerifiesIff(c: AuditChain.Crypto, s: JobStores.Save, packets: seq<Capture.Packet>,
                                kept: seq<Key>, responder: Key -> Bytes)
    requires AuditChain.CollisionFree(c) && AuditChain.JsonInjective(c)
    requires Stores(s, packets, kept, responder)
    ensures JobStores.Verifies(c, JobStores.SaveTo(c, JobStores.EMPTY, s)) <==>
            FirstSpisDiffer(OrphanFirsts(packets)) && Distinct(JobStores.DocIds(s.events))
  {
    ReadKeysAreEight(packets);
    SessionIdsDistinctIff(kept, responder, OrphanFirsts(packets));
    OneSave(c, s);
  }

  lemma ReadTwo(p: Capture.Packet, q: Capture.Packet, e: EspFrame, f: EspFrame)
    requires Capture.Classified(p, 1) == Capture.AsEsp(e) && Capture.Classified(q, 2) == Capture.AsEsp(f)
    ensures Capture.EspIn([p, q]) == [e, f] && Capture.IkeIn([p, q]) == []
  {
    assert [p, q][..1] == [p] && [p][..0] == [];
    assert Capture.EspIn([p]) == [e] && Capture.IkeIn([p]) == [];
  }

  lemma OrphansOfTwo(e: EspFrame, f: EspFrame, pairs: map<Peers, seq<Key>>)
    requires pairs == map[]
    ensures Orphans([e, f], pairs) == [e, f]
  {
    assert [e, f][..1] == [e] && [e][..0] == [];
    assert Owners(EspPeers(e), pairs) == [] && Owners(EspPeers(f), pairs) == [];
    assert Orphans([e], pairs) == [e];
  }

  lemma FirstsOfTwo(e: EspFrame, f: EspFrame)
    requires EspPeers(e) != EspPeers(f)
    ensures Firsts([e, f]) == [e, f]
  {
    assert [e, f][..1] == [e] && [e][..0] == [];
    assert Firsts([e]) == [e];
    assert PeersSeen([e]) == {EspPeers(e)};
  }

  /** Two ESP packets too short to carry an SPI, between two different pairs. */
  const TWO_TUNNELS := [Capture.Ip(0.0, 60, false, "a", "b", 50, [], None),
                        Capture.Ip(1.0, 60, false, "c", "d", 50, [], None)]

  /** Their two tunnels get one id. */
  lemma TwoTunnelsShareAnId()
    ensures !FirstSpisDiffer(OrphanFirsts(TWO_TUNNELS))
  {
    var packets := TWO_TUNNELS;
    var p, q := packets[0], packets[1];
    var e, f := EspFrame(None, None, "a", "b", 1, 0.0, 60), EspFrame(None, None, "c", "d", 2, 1.0, 60);
    ReadTwo(p, q, e, f);
    OrphansOfTwo(e, f, PairsOf(Keys([]), PeerTable([], true)));
    assert "c" in EspPeers(f) && "c" !in EspPeers(e);
    FirstsOfTwo(e, f);
    assert OrphanFirsts(packets) == [e, f];
    assert OrZero(OrphanFirsts(packets)[0].spi) == OrZero(OrphanFirsts(packets)[1].spi);
  }

  /** So a job saved from that capture, touched by nobody, reads as tampered. */
  lemma TwoTunnelsReadAsTampered(c: AuditChain.Crypto, s: JobStores.Save, kept: seq<Key>, responder: Key -> Bytes)
    requires AuditChain.CollisionFree(c) && AuditChain.JsonInjective(c)
    requires Stores(s, TWO_TUNNELS, kept, responder)
    ensures !JobStores.Verifies(c, JobStores.SaveTo(c, JobStores.EMPTY, s))
  {
    TwoTunnelsShareAnId();
    SavedCaptureVerifiesIff(c, s, TWO_TUNNELS, kept, responder);
  }

  // ---------------------------------------------------------------------------
  // The ids, said of the packets
  // ---------------------------------------------------------------------------

  ghost predicate FirstOfPair(orphans: seq<EspFrame>, i: nat) {
    i < |orphans| && forall j :: 0 <= j < i ==> {orphans[j].src, orphans[j].dst} != {orphans[i].src, orphans[i].dst}
  }

  lemma {:induction false} PairsAreSeen(orphans: seq<EspFrame>, p: Peers)
    ensures p in PeersSeen(Firsts(orphans)) <==> exists j :: 0 <= j < |orphans| && EspPeers(orphans[j]) == p
    decreases |orphans|
  {
    if orphans != [] {
      var n := |orphans| - 1;
      var before := Firsts(orphans[..n]);
      PairsAreSeen(orphans[..n], p);
      assert PeersSeen(before + [orphans[n]]) == PeersSeen(before) + {EspPeers(orphans[n])};
      if j :| 0 <= j < |orphans| && EspPeers(orphans[j]) == p {
        assert j < n ==> orphans[..n][j] == orphans[j];
      }
      if j :| 0 <= j < n && EspPeers(orphans[..n][j]) == p {
        assert orphans[j] == orphans[..n][j];
      }
    }
  }

  /** One more orphan adds a group, at the end, exactly when it is the first of its pair. */
  lemma FirstsMean(orphans: seq<EspFrame>, e: EspFrame)
    ensures Firsts([]) == []
    ensures Firsts(orphans + [e]) ==
            if FirstOfPair(orphans + [e], |orphans|) then Firsts(orphans) + [e] else Firsts(orphans)
  {
    var all := orphans + [e];
    assert all[..|orphans|] == orphans;
    PairsAreSeen(orphans, EspPeers(e));
    if FirstOfPair(all, |orphans|) {
      forall j | 0 <= j < |orphans| ensures EspPeers(orphans[j]) != EspPeers(e) {
        assert all[j] == orphans[j];
      }
    } else {
      var j :| 0 <= j < |orphans| && {all[j].src, all[j].dst} == {e.src, e.dst};
      assert EspPeers(orphans[j]) == EspPeers(e);
    }
  }

  /** Sixteen digits in order, two to a byte, the high half first. */
  lemma HexMeans(b: Bytes, k: nat)
    requires k < |b|
    ensures Hex(b)[2 * k] == "0123456789abcdef"[b[k] as int / 16]
    ensures Hex(b)[2 * k + 1] == "0123456789abcdef"[b[k] as int % 16]
  {
    HexDigitMeans(At(b, k) / 16);
    HexDigitMeans(At(b, k) % 16);
    HexAt(b, k);
  }

  lemma HexDigitMeans(n: nat)
    requires n < 16
    ensures HexDigit(n) == "0123456789abcdef"[n]
  {
  }

  lemma {:induction false} HexAt(b: Bytes, k: nat)
    requires k < |b|
    ensures Hex(b)[2 * k] == HexDigit(At(b, k) / 16) && Hex(b)[2 * k + 1] == HexDigit(At(b, k) % 16)
  {
    if k > 0 {
      HexAt(b[1..], k - 1);
      assert Hex(b)[2..] == Hex(b[1..]);
      assert Hex(b)[2 * k] == Hex(b[1..])[2 * k - 2] && Hex(b)[2 * k + 1] == Hex(b[1..])[2 * k - 1];
    }
  }

  /** An SA's id is its two halves in hexadecimal with a dash between; a mid-session tunnel's is "esp-" and
      the eight digits of its first packet's SPI, zero when it has none. */
  lemma IdsMean(key: Key, responder: Bytes, first: EspFrame, spi: Bytes)
    requires |spi| == 4 && U32(spi, 0) == OrZero(first.spi)
    ensures SaId(key, responder) == Hex(key) + "-" + Hex(responder)
    ensures OrZero(first.spi) < 0x1_0000_0000
    ensures OrphanId(first) == "esp-" + Hex(spi)
    ensures first.spi.None? ==> OrZero(first.spi) == 0
  {
    Capture.PackedReads(U32(spi, 0));
    SameFour(spi, IkeBuild.Pack32(U32(spi, 0)));
  }

  lemma SameFour(a: Bytes, b: Bytes)
    requires |a| == 4 && |b| == 4 && U32(a, 0) == U32(b, 0)
    ensures a == b
  {
    var x, y := U16(a, 0), U16(b, 0);
    var z, w := U16(a, 2), U16(b, 2);
    assert x == y && z == w;
    assert At(a, 0) == At(b, 0) && At(a, 1) == At(b, 1) && At(a, 2) == At(b, 2) && At(a, 3) == At(b, 3);
  }
}
