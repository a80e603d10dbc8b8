/** The anti-replay verdict over a session's ESP packets (core/ike_parser/ikev2.py
    `anti_replay_from_esp`, shared by both IKE versions). */
module AntiReplay {
  import opened IkeWire
  import opened Wrappers

  /** SPI and sequence number of one packet. */
  type EspRecord = (nat, nat)

  function SeqsOf(records: seq<EspRecord>, spi: nat): seq<nat> {
    if records == [] then []
    else
      var n := |records| - 1;
      SeqsOf(records[..n], spi) + (if records[n].0 == spi then [records[n].1] else [])
  }

  ghost predicate AllSame(seqs: seq<nat>) {
    forall i, j :: 0 <= i < |seqs| && 0 <= j < |seqs| ==> seqs[i] == seqs[j]
  }

  /** At least four packets of an SA, all with one sequence number. */
  ghost predicate Reuses(seqs: seq<nat>) {
    |seqs| >= 4 && AllSame(seqs)
  }

  ghost predicate Moves(seqs: seq<nat>) {
    |seqs| >= 4 && !AllSame(seqs)
  }

  ghost predicate SomeReuses(records: seq<EspRecord>) {
    exists spi :: Reuses(SeqsOf(records, spi))
  }

  ghost predicate SomeMoves(records: seq<EspRecord>) {
    exists spi :: Moves(SeqsOf(records, spi))
  }

  /** Off as soon as one SA reuses its number; on if none does and one advances; else undecided. */
  ghost function Verdict(records: seq<EspRecord>): Option<bool> {
    if SomeReuses(records) then Some(false) else if SomeMoves(records) then Some(true) else None
  }

  // ---------------------------------------------------------------------------
  // The two loops
  // ---------------------------------------------------------------------------

  ghost predicate Grouped(groups: map<nat, seq<nat>>, records: seq<EspRecord>) {
    && (forall spi :: spi in groups ==> groups[spi] == SeqsOf(records, spi))
    && forall spi :: spi !in groups ==> SeqsOf(records, spi) == []
  }

  method GroupBySpi(records: seq<EspRecord>) returns (groups: map<nat, seq<nat>>)
    ensures Grouped(groups, records)
  {
    groups := map[];
    var i := 0;
    while i < |records|
      invariant 0 <= i <= |records|
      invariant Grouped(groups, records[..i])
    {
      var (spi, seqNo) := records[i];
      GroupedStep(groups, records, i);
      groups := groups[spi := (if spi in groups then groups[spi] else []) + [seqNo]];
      i := i + 1;
    }
    assert records[..i] == records;
  }

  lemma GroupedStep(groups: map<nat, seq<nat>>, records: seq<EspRecord>, i: nat)
    requires i < |records| && Grouped(groups, records[..i])
    ensures var (spi, seqNo) := records[i];
            Grouped(groups[spi := (if spi in groups then groups[spi] else []) + [seqNo]], records[..i + 1])
  {
    assert records[..i + 1][..i] == records[..i];
    forall k ensures SeqsOf(records[..i + 1], k) ==
                     SeqsOf(records[..i], k) + (if k == records[i].0 then [records[i].1] else []) {
    }
  }

  function Values(seqs: seq<nat>): set<nat> {
    set x | x in seqs
  }

  lemma OneValueIff(seqs: seq<nat>)
    requires seqs != []
    ensures |Values(seqs)| == 1 <==> AllSame(seqs)
  {
    var values := Values(seqs);
    assert seqs[0] in values;
    if |values| == 1 {
      assert |values - {seqs[0]}| == 0 && values - {seqs[0]} == {};
      forall i, j | 0 <= i < |seqs| && 0 <= j < |seqs| ensures seqs[i] == seqs[j] {
        assert seqs[i] in values && seqs[j] in values;
      }
    }
    if AllSame(seqs) {
      assert values == {seqs[0]};
      assert |{seqs[0]}| == 1;
    }
  }

  method AntiReplayFromEsp(records: seq<EspRecord>) returns (decided: Option<bool>)
    ensures decided == Verdict(records)
  {
    var groups := GroupBySpi(records);
    var todo := groups.Keys;
    decided := None;
    while todo != {}
      invariant todo <= groups.Keys
      invariant forall spi :: spi in groups.Keys - todo ==> !Reuses(groups[spi])
      invariant decided == None || decided == Some(true)
      invariant decided.Some? <==> exists spi :: spi in groups.Keys - todo && Moves(groups[spi])
    {
      var spi :| spi in todo;
      todo := todo - {spi};
      var seqs := groups[spi];
      if |seqs| >= 4 {
        OneValueIff(seqs);
        if |Values(seqs)| == 1 {
          assert Reuses(SeqsOf(records, spi));
          return Some(false);
        }
        assert Moves(groups[spi]);
        decided := Some(true);
      }
    }
    if decided.Some? {
      ghost var spi :| spi in groups && Moves(groups[spi]);
      assert Moves(SeqsOf(records, spi));
    }
  }

  // ---------------------------------------------------------------------------
  // Order and growth
  // ---------------------------------------------------------------------------

  lemma {:induction false} SeqsCount(records: seq<EspRecord>, spi: nat, x: nat)
    ensures multiset(SeqsOf(records, spi))[x] == multiset(records)[(spi, x)]
    decreases |records|
  {
    if records != [] {
      var n := |records| - 1;
      SeqsCount(records[..n], spi, x);
      assert records == records[..n] + [records[n]];
    }
  }

  lemma SameSeqs(a: seq<EspRecord>, b: seq<EspRecord>, spi: nat)
    requires multiset(a) == multiset(b)
    ensures multiset(SeqsOf(a, spi)) == multiset(SeqsOf(b, spi))
  {
    forall x: nat ensures multiset(SeqsOf(a, spi))[x] == multiset(SeqsOf(b, spi))[x] {
      SeqsCount(a, spi, x);
      SeqsCount(b, spi, x);
    }
  }

  lemma SameOutcome(s: seq<nat>, t: seq<nat>)
    requires multiset(s) == multiset(t)
    ensures Reuses(s) ==> Reuses(t)
    ensures Moves(s) ==> Moves(t)
  {
    assert |multiset(s)| == |multiset(t)|;
    forall i | 0 <= i < |t| ensures t[i] in s {
      assert t[i] in multiset(s);
    }
    forall i | 0 <= i < |s| ensures s[i] in t {
      assert s[i] in multiset(t);
    }
  }

  /** The verdict does not depend on the order the packets arrived in. */
  lemma VerdictForgetsOrder(a: seq<EspRecord>, b: seq<EspRecord>)
    requires multiset(a) == multiset(b)
    ensures Verdict(a) == Verdict(b)
  {
    forall spi: nat
      ensures Reuses(SeqsOf(a, spi)) <==> Reuses(SeqsOf(b, spi))
      ensures Moves(SeqsOf(a, spi)) <==> Moves(SeqsOf(b, spi))
    {
      SameSeqs(a, b, spi);
      SameOutcome(SeqsOf(a, spi), SeqsOf(b, spi));
      SameOutcome(SeqsOf(b, spi), SeqsOf(a, spi));
    }
  }

  lemma {:induction false} SeqsAppend(a: seq<EspRecord>, b: seq<EspRecord>, spi: nat)
    ensures SeqsOf(a + b, spi) == SeqsOf(a, spi) + SeqsOf(b, spi)
    decreases |b|
  {
    if b == [] {
      assert a + b == a;
    } else {
      var n := |b| - 1;
      SeqsAppend(a, b[..n], spi);
      assert (a + b)[..|a| + n] == a + b[..n];
    }
  }

  /** As a capture grows, a decided verdict stays decided, and an SA seen to advance always counts
      as advancing. */
  lemma DecidedStaysDecided(records: seq<EspRecord>, more: seq<EspRecord>)
    ensures Verdict(records).Some? ==> Verdict(records + more).Some?
    ensures SomeMoves(records) ==> SomeMoves(records + more)
  {
    if SomeMoves(records) {
      var spi :| Moves(SeqsOf(records, spi));
      SeqsAppend(records, more, spi);
      MovesStays(SeqsOf(records, spi), SeqsOf(more, spi));
    }
    if SomeReuses(records) {
      var spi :| Reuses(SeqsOf(records, spi));
      SeqsAppend(records, more, spi);
      assert Reuses(SeqsOf(records + more, spi)) || Moves(SeqsOf(records + more, spi));
    }
  }

  lemma MovesStays(s: seq<nat>, t: seq<nat>)
    requires Moves(s)
    ensures Moves(s + t)
  {
    var i, j :| 0 <= i < |s| && 0 <= j < |s| && s[i] != s[j];
    assert (s + t)[i] != (s + t)[j];
  }

  // ---------------------------------------------------------------------------
  // The verdict, said of the packets
  // ---------------------------------------------------------------------------

  function CountOf(records: seq<EspRecord>, spi: nat): nat {
    if records == [] then 0 else (if records[0].0 == spi then 1 else 0) + CountOf(records[1..], spi)
  }

  /** Every packet of the SA carries one sequence number. */
  ghost predicate Stuck(records: seq<EspRecord>, spi: nat) {
    forall a, b :: a in records && b in records && a.0 == spi && b.0 == spi ==> a.1 == b.1
  }

  lemma {:induction false} CountSnoc(records: seq<EspRecord>, r: EspRecord, spi: nat)
    ensures CountOf(records + [r], spi) == CountOf(records, spi) + if r.0 == spi then 1 else 0
  {
    if records == [] {
      assert [r][1..] == [] && records + [r] == [r];
    } else {
      assert (records + [r])[1..] == records[1..] + [r];
      CountSnoc(records[1..], r, spi);
    }
  }

  lemma {:induction false} SeqsMean(records: seq<EspRecord>, spi: nat)
    ensures |SeqsOf(records, spi)| == CountOf(records, spi)
    ensures forall x :: x in SeqsOf(records, spi) <==> (spi, x) in records
    decreases |records|
  {
    if records != [] {
      var n := |records| - 1;
      SeqsMean(records[..n], spi);
      CountSnoc(records[..n], records[n], spi);
      assert records == records[..n] + [records[n]];
    }
  }

  lemma StuckIff(records: seq<EspRecord>, spi: nat)
    ensures AllSame(SeqsOf(records, spi)) <==> Stuck(records, spi)
  {
    var seqs := SeqsOf(records, spi);
    SeqsMean(records, spi);
    if AllSame(seqs) {
      forall a, b | a in records && b in records && a.0 == spi && b.0 == spi ensures a.1 == b.1 {
        assert (spi, a.1) == a && (spi, b.1) == b;
        assert a.1 in seqs && b.1 in seqs;
      }
    }
    if Stuck(records, spi) {
      forall i, j | 0 <= i < |seqs| && 0 <= j < |seqs| ensures seqs[i] == seqs[j] {
        assert seqs[i] in seqs && seqs[j] in seqs;
        assert (spi, seqs[i]) in records && (spi, seqs[j]) in records;
      }
    }
  }

  /** Off exactly when some SA of four packets or more never advances its number; on exactly when there is
      no such SA and some SA of four packets or more does; undecided without one of that size. */
  lemma VerdictMeans(records: seq<EspRecord>)
    ensures var off := exists spi: nat :: CountOf(records, spi) >= 4 && Stuck(records, spi);
            var on := exists spi: nat :: CountOf(records, spi) >= 4 && !Stuck(records, spi);
            Verdict(records) == if off then Some(false) else if on then Some(true) else None
  {
    forall spi: nat
      ensures Reuses(SeqsOf(records, spi)) <==> CountOf(records, spi) >= 4 && Stuck(records, spi)
      ensures Moves(SeqsOf(records, spi)) <==> CountOf(records, spi) >= 4 && !Stuck(records, spi)
    {
      SeqsMean(records, spi);
      StuckIff(records, spi);
    }
  }
}
