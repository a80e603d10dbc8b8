/** Which SA a packet is given to, said of the messages themselves rather than of the tables the
    bucketing of core/ingestion/engine.py builds. */
module IngestionMeaning {
  import AntiReplay

  import opened IkeWire
  import opened Ingestion
  import opened SaAnalysis
  import opened Wrappers

  /** A request with message id zero. */
  predicate IsOpener(f: IkeFrame) {
    f.msg.flags % 64 < 32 && f.msg.messageId == 0
  }

  ghost predicate FirstOpener(frames: seq<IkeFrame>, k: nat) {
    k < |frames| && IsOpener(frames[k]) && forall j :: 0 <= j < k ==> !IsOpener(frames[j])
  }

  lemma {:induction false} OpenerIs(frames: seq<IkeFrame>, k: nat)
    requires FirstOpener(frames, k)
    ensures Opener(frames) == Some(frames[k])
    decreases |frames|
  {
    var n := |frames| - 1;
    if k < n {
      assert FirstOpener(frames[..n], k);
      OpenerIs(frames[..n], k);
    } else {
      NoOpener(frames[..n]);
    }
  }

  lemma {:induction false} NoOpener(frames: seq<IkeFrame>)
    requires forall j :: 0 <= j < |frames| ==> !IsOpener(frames[j])
    ensures Opener(frames) == None
    decreases |frames|
  {
    if frames != [] {
      var n := |frames| - 1;
      NoOpener(frames[..n]);
      assert !IsOpener(frames[n]);
    }
  }

  /** An SA's peers are the addresses of its first opening message, or without one of its first message; an
      empty address is no peer. */
  lemma PeersMean(frames: seq<IkeFrame>, k: nat, x: string)
    requires FirstOpener(frames, k)
             || (frames != [] && k == 0 && forall j :: 0 <= j < |frames| ==> !IsOpener(frames[j]))
    ensures x in Stage1Peers(frames) <==> x != "" && (x == frames[k].src || x == frames[k].dst)
    ensures x in ParserPeers(frames) <==> x == frames[0].src || x == frames[0].dst
  {
    if FirstOpener(frames, k) {
      OpenerIs(frames, k);
    } else {
      NoOpener(frames);
    }
  }

  ghost function PeersIn(ike: seq<IkeFrame>, k: Key): Peers {
    PeersOf(FramesOf(ike, k), true)
  }

  /** The SA `k` and the packet share an address, and so does no SA of any other pair. */
  ghost predicate OnlyPairNear(ike: seq<IkeFrame>, k: Key, ends: Peers) {
    && PeersIn(ike, k) * ends != {}
    && forall j :: j in Keys(ike) && PeersIn(ike, j) * ends != {} ==> PeersIn(ike, j) == PeersIn(ike, k)
  }

  /** Main result on ownership.  A packet is given to an SA if and only if the SA's peers are its two
      addresses, or no SA's are and the SA is of the only pair that shares an address with it. */
  lemma OwnersMean(ike: seq<IkeFrame>, e: EspFrame, k: Key)
    ensures var ends := {e.src, e.dst};
            k in Owners(EspPeers(e), PairsOf(Keys(ike), PeerTable(ike, true))) <==>
            k in Keys(ike)
            && (PeersIn(ike, k) == ends
                || ((forall j :: j in Keys(ike) ==> PeersIn(ike, j) != ends) && OnlyPairNear(ike, k, ends)))
  {
    var ends := EspPeers(e);
    var table := PeerTable(ike, true);
    var pairs := PairsOf(Keys(ike), table);
    ListedBy(ike, ends, k);
    if ends in pairs {
      HasMember(ike, ends);
    } else {
      forall j | j in Keys(ike) ensures PeersIn(ike, j) != ends {
        ListedBy(ike, ends, j);
      }
      NearMeans(ike, ends, k);
    }
  }

  lemma ListedBy(ike: seq<IkeFrame>, p: Peers, k: Key)
    ensures var pairs := PairsOf(Keys(ike), PeerTable(ike, true));
            p in pairs && k in pairs[p] <==> k in Keys(ike) && PeersIn(ike, k) == p
  {
    PairLists(Keys(ike), PeerTable(ike, true), p, k);
  }

  lemma HasMember(ike: seq<IkeFrame>, p: Peers)
    requires p in PairsOf(Keys(ike), PeerTable(ike, true))
    ensures exists j :: j in Keys(ike) && PeersIn(ike, j) == p
  {
    KeysDoNotRepeat(ike);
    PairIsProper(Keys(ike), PeerTable(ike, true), p);
    var j := PairsOf(Keys(ike), PeerTable(ike, true))[p][0];
    ListedBy(ike, p, j);
  }

  lemma NearMeans(ike: seq<IkeFrame>, ends: Peers, k: Key)
    requires ends !in PairsOf(Keys(ike), PeerTable(ike, true))
    ensures k in Owners(ends, PairsOf(Keys(ike), PeerTable(ike, true))) <==>
            k in Keys(ike) && OnlyPairNear(ike, k, ends)
  {
    var pairs := PairsOf(Keys(ike), PeerTable(ike, true));
    if k in Keys(ike) && OnlyPairNear(ike, k, ends) {
      var p := PeersIn(ike, k);
      ListedBy(ike, p, k);
      forall q | q in pairs && q * ends != {} ensures q == p {
        HasMember(ike, q);
      }
      assert OnlyCandidate(p, ends, pairs);
    }
    if k in Owners(ends, pairs) {
      var p :| OnlyCandidate(p, ends, pairs) && Owners(ends, pairs) == pairs[p];
      ListedBy(ike, p, k);
      forall j | j in Keys(ike) && PeersIn(ike, j) * ends != {} ensures PeersIn(ike, j) == p {
        ListedBy(ike, PeersIn(ike, j), j);
      }
    }
  }

  // ---------------------------------------------------------------------------
  // Order, and the fields of a session
  // ---------------------------------------------------------------------------

  ghost predicate InCaptureOrder(esp: seq<EspFrame>) {
    forall i, j :: 0 <= i < j < |esp| ==> esp[i].number < esp[j].number
  }

  lemma {:induction false} EspStaysInOrder(esp: seq<EspFrame>, key: Key, pairs: map<Peers, seq<Key>>)
    requires InCaptureOrder(esp)
    ensures InCaptureOrder(EspOf(esp, key, pairs)) && InCaptureOrder(Orphans(esp, pairs))
    decreases |esp|
  {
    if esp != [] {
      var n := |esp| - 1;
      EspStaysInOrder(esp[..n], key, pairs);
      forall e | e in EspOf(esp[..n], key, pairs) || e in Orphans(esp[..n], pairs) ensures e.number < esp[n].number {
        OwnedIff(esp[..n], pairs, e);
        OrphanIff(esp[..n], pairs, e);
      }
    }
  }

  // ---------------------------------------------------------------------------
  // The anti-replay verdict, said of a session's packets
  // ---------------------------------------------------------------------------

  /** A header field holds `n`; one that could not be read counts as zero. */
  predicate Numbered(field: Option<nat>, n: nat) {
    field == Some(n) || (field == None && n == 0)
  }

  function PacketsOf(esp: seq<EspFrame>, spi: nat): nat {
    if esp == [] then 0 else (if Numbered(esp[0].spi, spi) then 1 else 0) + PacketsOf(esp[1..], spi)
  }

  ghost predicate OneNumber(esp: seq<EspFrame>, spi: nat) {
    exists n: nat :: AllNumbered(esp, spi, n)
  }

  ghost predicate AllNumbered(esp: seq<EspFrame>, spi: nat, n: nat) {
    forall i :: 0 <= i < |esp| && Numbered(esp[i].spi, spi) ==> Numbered(esp[i].seqNo, n)
  }

  lemma {:induction false} PacketsAreRecords(esp: seq<EspFrame>, spi: nat)
    ensures AntiReplay.CountOf(Records(esp), spi) == PacketsOf(esp, spi)
  {
    if esp != [] {
      assert Records(esp)[1..] == Records(esp[1..]);
      PacketsAreRecords(esp[1..], spi);
    }
  }

  lemma StuckMeansOneNumber(esp: seq<EspFrame>, spi: nat)
    ensures AntiReplay.Stuck(Records(esp), spi) <==> OneNumber(esp, spi)
  {
    var records := Records(esp);
    if AntiReplay.Stuck(records, spi) {
      if i :| 0 <= i < |esp| && Numbered(esp[i].spi, spi) {
        assert records[i] in records;
        forall j | 0 <= j < |esp| && Numbered(esp[j].spi, spi) ensures Numbered(esp[j].seqNo, records[i].1) {
          assert records[j] in records;
        }
        assert AllNumbered(esp, spi, records[i].1);
      } else {
        assert AllNumbered(esp, spi, 0);
      }
    }
    if OneNumber(esp, spi) {
      var n: nat :| AllNumbered(esp, spi, n);
      forall a | a in records && a.0 == spi ensures a.1 == n {
        var i :| 0 <= i < |records| && records[i] == a;
        assert Numbered(esp[i].spi, spi);
      }
    }
  }

  /** Off exactly when four or more of a session's packets with one SPI all carry one sequence number; on
      exactly when there is no such SPI and four or more packets of some SPI do not. */
  lemma SessionVerdictMeans(esp: seq<EspFrame>)
    ensures var off := exists spi: nat :: PacketsOf(esp, spi) >= 4 && OneNumber(esp, spi);
            var on := exists spi: nat :: PacketsOf(esp, spi) >= 4 && !OneNumber(esp, spi);
            AntiReplay.Verdict(Records(esp)) == if off then Some(false) else if on then Some(true) else None
  {
    forall spi: nat
      ensures AntiReplay.CountOf(Records(esp), spi) == PacketsOf(esp, spi)
      ensures AntiReplay.Stuck(Records(esp), spi) <==> OneNumber(esp, spi)
    {
      PacketsAreRecords(esp, spi);
      StuckMeansOneNumber(esp, spi);
    }
    AntiReplay.VerdictMeans(Records(esp));
  }

  /** A session's versions are those of its first frame. */
  lemma SessionMeans(key: Key, frames: seq<IkeFrame>, peers: Peers, esp: seq<EspFrame>)
    requires frames != []
    ensures var s := RawSessionOf(key, frames, peers, esp);
            && s.key == key && s.frames == frames && s.peers == peers && s.esp == esp
            && (s.v1 <==> frames[0].msg.version == 0x10) && s.v6 == frames[0].v6
            && s.responder == ResponderSpi(seq(|frames|, i requires 0 <= i < |frames| => frames[i].msg))
  {
    assert Messages(frames) == seq(|frames|, i requires 0 <= i < |frames| => frames[i].msg);
  }

  /** Two SAs stand in the order of their first frames. */
  lemma {:induction false} KeysInOrder(ike: seq<IkeFrame>, i: nat)
    requires i < |ike| && forall j :: 0 <= j < i ==> KeyOf(ike[j]) != KeyOf(ike[i])
    ensures Keys(ike[..i]) + [KeyOf(ike[i])] <= Keys(ike)
    decreases |ike|
  {
    var n := |ike| - 1;
    if i < n {
      KeysInOrder(ike[..n], i);
      assert ike[..n][..i] == ike[..i];
    } else {
      KeysAreSeen(ike[..n], KeyOf(ike[n]));
    }
  }

  lemma {:induction false} KeysAreSeen(ike: seq<IkeFrame>, key: Key)
    ensures key in Keys(ike) <==> exists j :: 0 <= j < |ike| && KeyOf(ike[j]) == key
    decreases |ike|
  {
    if ike != [] {
      var n := |ike| - 1;
      KeysAreSeen(ike[..n], key);
      if j :| 0 <= j < |ike| && KeyOf(ike[j]) == key {
        assert j < n ==> ike[..n][j] == ike[j];
      }
      if j :| 0 <= j < n && KeyOf(ike[..n][j]) == key {
        assert ike[j] == ike[..n][j];
      }
    }
  }
}
