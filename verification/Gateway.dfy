/** Importing gateway state (core/gateway_state.py): values fill what the wire left hidden, with
    provenance, and disagreements with what the wire showed are noted. */
module Gateway {
  import opened Sorting
  import opened Wrappers

  /** A field's value: absent, a word, or a flag. */
  datatype Value = Absent | Word(text: string) | Flag(on: bool)

  datatype Note = Note(name: string, wire: Value, source: string, value: Value)

  datatype Ike = Ike(
    fields: map<string, Value>, inferred: seq<string>, gatewayFields: seq<string>, mismatches: seq<Note>,
    modeConfidence: Option<real>)

  /** One record: what it matches on, and its values in order. */
  datatype Record = Record(source: string, local: string, remote: string, ikeSpi: string, values: seq<(string, Value)>)

  datatype Ident = Ident(sessionId: string, initiatorIp: string, responderIp: string)

  function LowerChar(c: char): char {
    if 'A' <= c <= 'Z' then c - 'A' + 'a' else c
  }

  function Lower(s: string): string {
    seq(|s|, i requires 0 <= i < |s| => LowerChar(s[i]))
  }

  function Peers(r: Record): set<string> {
    {r.local, r.remote} - {""}
  }

  predicate Matches(s: Ident, r: Record) {
    || (r.ikeSpi != "" && r.ikeSpi <= Lower(s.sessionId))
    || (Peers(r) != {} && Peers(r) == {s.initiatorIp, s.responderIp})
  }

  predicate Hidden(v: Value) {
    v == Absent || v == Word("unknown")
  }

  /** One value offered by a matching record. */
  datatype Offer = Offer(source: string, name: string, value: Value)

  function Wire(ike: Ike, name: string): Value {
    if name in ike.fields then ike.fields[name] else Absent
  }

  predicate Unobserved(ike: Ike, name: string) {
    Hidden(Wire(ike, name)) || name in ike.inferred
  }

  function Dropped(names: seq<string>, name: string): seq<string> {
    if names == [] then [] else (if names[0] == name then [] else [names[0]]) + Dropped(names[1..], name)
  }

  function NoteOf(ike: Ike, o: Offer): Note {
    Note(o.name, Wire(ike, o.name), o.source, o.value)
  }

  predicate Fills(ike: Ike, o: Offer) {
    Unobserved(ike, o.name) && o.name !in ike.gatewayFields
  }

  function Applied(ike: Ike, o: Offer): Ike {
    if Unobserved(ike, o.name) then
      Ike(ike.fields[o.name := o.value],
          Dropped(ike.inferred, o.name),
          if o.name in ike.gatewayFields then ike.gatewayFields else ike.gatewayFields + [o.name],
          ike.mismatches,
          if o.name == "mode" then None else ike.modeConfidence)
    else if Wire(ike, o.name) != o.value && o.name !in ike.gatewayFields && NoteOf(ike, o) !in ike.mismatches then
      ike.(mismatches := ike.mismatches + [NoteOf(ike, o)])
    else ike
  }

  function AppliedAll(ike: Ike, offers: seq<Offer>): Ike
    decreases |offers|
  {
    if offers == [] then ike else AppliedAll(Applied(ike, offers[0]), offers[1..])
  }

  function OffersOf(r: Record): seq<Offer> {
    seq(|r.values|, i requires 0 <= i < |r.values| => Offer(r.source, r.values[i].0, r.values[i].1))
  }

  function Offers(s: Ident, records: seq<Record>): seq<Offer> {
    if records == [] then []
    else (if Matches(s, records[0]) then OffersOf(records[0]) else []) + Offers(s, records[1..])
  }

  predicate AnyMatch(s: Ident, records: seq<Record>) {
    records != [] && (Matches(s, records[0]) || AnyMatch(s, records[1..]))
  }

  lemma NextRecord(s: Ident, records: seq<Record>, i: nat)
    requires i < |records|
    ensures Offers(s, records[i..]) ==
            (if Matches(s, records[i]) then OffersOf(records[i]) + Offers(s, records[i + 1..])
             else Offers(s, records[i + 1..]))
    ensures AnyMatch(s, records[i..]) == (Matches(s, records[i]) || AnyMatch(s, records[i + 1..]))
  {
    assert records[i..][1..] == records[i + 1..];
  }

  function Tally(filled: map<string, nat>, name: string): nat {
    if name in filled then filled[name] else 0
  }

  /** The summary's fill counts once a session's offers have been applied. */
  function FilledAll(filled: map<string, nat>, ike: Ike, offers: seq<Offer>): map<string, nat>
    decreases |offers|
  {
    if offers == [] then filled
    else FilledAll(Credited(filled, ike, offers[0]), Applied(ike, offers[0]), offers[1..])
  }

  function Credited(filled: map<string, nat>, ike: Ike, o: Offer): map<string, nat> {
    if Fills(ike, o) then filled[o.name := Tally(filled, o.name) + 1] else filled
  }

  // ---------------------------------------------------------------------------
  // In place
  // ---------------------------------------------------------------------------

  class Session {
    const ident: Ident
    var ike: Ike

    constructor (ident: Ident, ike: Ike)
      ensures this.ident == ident && this.ike == ike
    {
      this.ident, this.ike := ident, ike;
    }

    /** Apply one record's values; `filled` goes in and comes out with this session's fills added. */
    method Take(r: Record, filled: map<string, nat>) returns (tally: map<string, nat>)
      modifies this`ike
      ensures ike == AppliedAll(old(ike), OffersOf(r))
      ensures tally == FilledAll(filled, old(ike), OffersOf(r))
    {
      tally := filled;
      var offers := OffersOf(r);
      assert offers[0..] == offers;
      var i := 0;
      while i < |offers|
        invariant 0 <= i <= |offers|
        invariant AppliedAll(old(ike), offers) == AppliedAll(ike, offers[i..])
        invariant FilledAll(filled, old(ike), offers) == FilledAll(tally, ike, offers[i..])
      {
        var o := offers[i];
        assert offers[i..][0] == o && offers[i..][1..] == offers[i + 1..];
        var wire := Wire(ike, o.name);
        if Hidden(wire) || o.name in ike.inferred {
          var isNew := o.name !in ike.gatewayFields;
          ike := ike.(fields := ike.fields[o.name := o.value],
                      inferred := Dropped(ike.inferred, o.name),
                      modeConfidence := if o.name == "mode" then None else ike.modeConfidence,
                      gatewayFields := if isNew then ike.gatewayFields + [o.name] else ike.gatewayFields);
          if isNew {
            tally := tally[o.name := Tally(tally, o.name) + 1];
          }
        } else if wire != o.value && o.name !in ike.gatewayFields {
          var note := Note(o.name, wire, o.source, o.value);
          if note !in ike.mismatches {
            ike := ike.(mismatches := ike.mismatches + [note]);
          }
        }
        i := i + 1;
      }
    }

    /** Apply every matching record, in order. */
    method Reconcile(records: seq<Record>, filled: map<string, nat>) returns (tally: map<string, nat>, matched: bool)
      modifies this`ike
      ensures ike == AppliedAll(old(ike), Offers(ident, records))
      ensures tally == FilledAll(filled, old(ike), Offers(ident, records))
      ensures matched == AnyMatch(ident, records)
    {
      tally, matched := filled, false;
      ghost var target := AppliedAll(ike, Offers(ident, records));
      ghost var total := FilledAll(filled, ike, Offers(ident, records));
      assert records[0..] == records;
      var i := 0;
      while i < |records|
        invariant 0 <= i <= |records|
        invariant target == AppliedAll(ike, Offers(ident, records[i..]))
        invariant total == FilledAll(tally, ike, Offers(ident, records[i..]))
        invariant AnyMatch(ident, records) == (matched || AnyMatch(ident, records[i..]))
      {
        var r := records[i];
        NextRecord(ident, records, i);
        if Matches(ident, r) {
          matched := true;
          AppendOffers(ike, tally, OffersOf(r), Offers(ident, records[i + 1..]));
          tally := Take(r, tally);
        }
        i := i + 1;
      }
    }
  }

  lemma {:induction false} AppendOffers(ike: Ike, filled: map<string, nat>, a: seq<Offer>, b: seq<Offer>)
    ensures AppliedAll(ike, a + b) == AppliedAll(AppliedAll(ike, a), b)
    ensures FilledAll(filled, ike, a + b) == FilledAll(FilledAll(filled, ike, a), AppliedAll(ike, a), b)
    decreases |a|
  {
    if a == [] {
      assert a + b == b;
    } else {
      assert (a + b)[0] == a[0] && (a + b)[1..] == a[1..] + b;
      AppendOffers(Applied(ike, a[0]), Credited(filled, ike, a[0]), a[1..], b);
    }
  }

  /** The records of a list of sessions, and what each is offered. */
  function IkesOf(sessions: seq<Session>): (r: seq<Ike>)
    reads set i | 0 <= i < |sessions| :: sessions[i]
    ensures |r| == |sessions|
    ensures forall i :: 0 <= i < |sessions| ==> r[i] == sessions[i].ike
  {
    if sessions == [] then [] else IkesOf(sessions[..|sessions| - 1]) + [sessions[|sessions| - 1].ike]
  }

  function OfferLists(sessions: seq<Session>, records: seq<Record>): (r: seq<seq<Offer>>)
    ensures |r| == |sessions|
    ensures forall i :: 0 <= i < |sessions| ==> r[i] == Offers(sessions[i].ident, records)
  {
    if sessions == [] then []
    else OfferLists(sessions[..|sessions| - 1], records) + [Offers(sessions[|sessions| - 1].ident, records)]
  }

  /** The summary's fill counts over a list of sessions. */
  function Summary(ikes: seq<Ike>, offers: seq<seq<Offer>>): map<string, nat>
    requires |ikes| == |offers|
  {
    if ikes == [] then map[]
    else var n := |ikes| - 1; FilledAll(Summary(ikes[..n], offers[..n]), ikes[n], offers[n])
  }

  lemma SummaryStep(ikes: seq<Ike>, offers: seq<seq<Offer>>, i: nat)
    requires |ikes| == |offers| && i < |ikes|
    ensures Summary(ikes[..i + 1], offers[..i + 1]) == FilledAll(Summary(ikes[..i], offers[..i]), ikes[i], offers[i])
  {
    assert ikes[..i + 1][..i] == ikes[..i] && offers[..i + 1][..i] == offers[..i];
  }

  /** The first `i` sessions are reconciled, the others as they were. */
  ghost predicate Progress(sessions: seq<Session>, before: seq<Ike>, lists: seq<seq<Offer>>, i: nat)
    requires |sessions| == |before| == |lists|
    reads set j | 0 <= j < |sessions| :: sessions[j]
  {
    forall j :: 0 <= j < |sessions| ==>
      sessions[j].ike == if j < i then AppliedAll(before[j], lists[j]) else before[j]
  }

  ghost predicate Separate(sessions: seq<Session>) {
    forall i, j :: 0 <= i < j < |sessions| ==> sessions[i] != sessions[j]
  }

  /** Every session in turn, sharing one summary. */
  method ApplyGatewayState(sessions: seq<Session>, records: seq<Record>)
    returns (filled: map<string, nat>, matched: set<string>)
    requires Separate(sessions)
    modifies set i | 0 <= i < |sessions| :: sessions[i]
    ensures Progress(sessions, old(IkesOf(sessions)), OfferLists(sessions, records), |sessions|)
    ensures filled == Summary(old(IkesOf(sessions)), OfferLists(sessions, records))
    ensures forall id :: id in matched <==> exists i :: 0 <= i < |sessions| && Touched(sessions[i], records, id)
  {
    filled, matched := map[], {};
    ghost var before, lists := IkesOf(sessions), OfferLists(sessions, records);
    var i := 0;
    while i < |sessions|
      invariant 0 <= i <= |sessions|
      invariant Progress(sessions, before, lists, i)
      invariant filled == Summary(before[..i], lists[..i])
      invariant matched == MatchedIds(sessions[..i], records)
    {
      SummaryStep(before, lists, i);
      MatchedStep(sessions, records, i);
      var any: bool;
      filled, any := ReconcileAt(sessions, i, records, filled, before, lists);
      if any {
        matched := matched + {sessions[i].ident.sessionId};
      }
      i := i + 1;
    }
    assert before[..i] == before && lists[..i] == lists && sessions[..i] == sessions;
    MatchedMeaning(sessions, records);
  }

  /** One pass through the loop over sessions. */
  method ReconcileAt(sessions: seq<Session>, i: nat, records: seq<Record>, filled: map<string, nat>,
                     ghost before: seq<Ike>, ghost lists: seq<seq<Offer>>)
    returns (tally: map<string, nat>, any: bool)
    requires i < |sessions| && |sessions| == |before| && lists == OfferLists(sessions, records)
    requires Separate(sessions) && Progress(sessions, before, lists, i)
    modifies sessions[i]
    ensures Progress(sessions, before, lists, i + 1)
    ensures tally == FilledAll(filled, before[i], lists[i]) && any == AnyMatch(sessions[i].ident, records)
  {
    tally, any := sessions[i].Reconcile(records, filled);
  }

  /** The ids of the sessions some record matched. */
  ghost function MatchedIds(sessions: seq<Session>, records: seq<Record>): set<string> {
    if sessions == [] then {}
    else
      var s := sessions[|sessions| - 1];
      MatchedIds(sessions[..|sessions| - 1], records) + (if AnyMatch(s.ident, records) then {s.ident.sessionId} else {})
  }

  lemma MatchedStep(sessions: seq<Session>, records: seq<Record>, i: nat)
    requires i < |sessions|
    ensures MatchedIds(sessions[..i + 1], records)
         == MatchedIds(sessions[..i], records)
            + if AnyMatch(sessions[i].ident, records) then {sessions[i].ident.sessionId} else {}
  {
    assert sessions[..i + 1][..i] == sessions[..i];
  }

  lemma {:induction false} MatchedMeaning(sessions: seq<Session>, records: seq<Record>)
    ensures forall id :: id in MatchedIds(sessions, records) <==>
              exists i :: 0 <= i < |sessions| && Touched(sessions[i], records, id)
  {
    if sessions != [] {
      var n := |sessions| - 1;
      MatchedMeaning(sessions[..n], records);
      forall id ensures id in MatchedIds(sessions, records) <==>
                        exists i :: 0 <= i < |sessions| && Touched(sessions[i], records, id)
      {
        if i :| 0 <= i < n && Touched(sessions[i], records, id) {
          assert Touched(sessions[..n][i], records, id);
        }
        assert Touched(sessions[n], records, id) <==>
               AnyMatch(sessions[n].ident, records) && id == sessions[n].ident.sessionId;
      }
    }
  }

  ghost predicate Touched(s: Session, records: seq<Record>, id: string) {
    s.ident.sessionId == id && AnyMatch(s.ident, records)
  }

  function Count(names: seq<string>, name: string): nat {
    multiset(names)[name]
  }

  /** How many gateway field lists gain `name`, net, over all sessions. */
  function Growth(ikes: seq<Ike>, offers: seq<seq<Offer>>, name: string): int
    requires |ikes| == |offers|
  {
    if ikes == [] then 0
    else
      var n := |ikes| - 1;
      Growth(ikes[..n], offers[..n], name)
      + Count(AppliedAll(ikes[n], offers[n]).gatewayFields, name) - Count(ikes[n].gatewayFields, name)
  }

  /** The reported fill counts are exactly the growth of the gateway field lists. */
  lemma {:induction false} SummaryIsGrowth(ikes: seq<Ike>, offers: seq<seq<Offer>>, name: string)
    requires |ikes| == |offers|
    ensures Tally(Summary(ikes, offers), name) == Growth(ikes, offers, name)
    decreases |ikes|
  {
    if ikes != [] {
      var n := |ikes| - 1;
      SummaryIsGrowth(ikes[..n], offers[..n], name);
      FillsAreGrowth(Summary(ikes[..n], offers[..n]), ikes[n], offers[n], name);
    }
  }

  /** Reported fills are exactly the growth of the gateway field list. */
  lemma {:induction false} FillsAreGrowth(filled: map<string, nat>, ike: Ike, offers: seq<Offer>, name: string)
    ensures Tally(FilledAll(filled, ike, offers), name) - Tally(filled, name) ==
            Count(AppliedAll(ike, offers).gatewayFields, name) - Count(ike.gatewayFields, name)
    decreases |offers|
  {
    if offers != [] {
      var o := offers[0];
      assert o in offers;
      FillsAreGrowth(Credited(filled, ike, o), Applied(ike, o), offers[1..], name);
    }
  }

  // ---------------------------------------------------------------------------
  // Results
  // ---------------------------------------------------------------------------

  /** What the wire showed is never changed, whatever records are imported. */
  lemma {:induction false} WireValuesStand(ike: Ike, offers: seq<Offer>, name: string)
    requires !Unobserved(ike, name)
    ensures var r := AppliedAll(ike, offers);
            Wire(r, name) == Wire(ike, name) && !Unobserved(r, name)
            && (name in r.gatewayFields <==> name in ike.gatewayFields)
    decreases |offers|
  {
    if offers != [] {
      var o := offers[0];
      assert o in offers;
      DroppedMembers(ike.inferred, o.name);
      WireValuesStand(Applied(ike, o), offers[1..], name);
    }
  }

  lemma {:induction false} DroppedMembers(names: seq<string>, name: string)
    ensures forall x :: x in Dropped(names, name) <==> x in names && x != name
  {
    if names != [] {
      DroppedMembers(names[1..], name);
    }
  }

  lemma {:induction false} DroppedIsDistinct(names: seq<string>, name: string)
    requires Distinct(names)
    ensures Distinct(Dropped(names, name))
  {
    if names != [] {
      assert forall i, j :: 0 <= i < j < |names[1..]| ==>
          names[1..][i] == names[i + 1] && names[1..][j] == names[j + 1];
      DroppedIsDistinct(names[1..], name);
      DroppedMembers(names[1..], name);
      var rest := Dropped(names[1..], name);
      forall j | 0 <= j < |rest| ensures rest[j] != names[0] {
        assert rest[j] in rest;
        assert rest[j] in names[1..];
      }
    }
  }

  /** Provenance is clean: no field is both filled by the gateway and inferred, or listed twice. */
  ghost predicate CleanProvenance(ike: Ike) {
    && Distinct(ike.gatewayFields) && Distinct(ike.inferred)
    && forall x :: x in ike.gatewayFields ==> x !in ike.inferred
  }

  lemma {:induction false} ProvenanceStaysClean(ike: Ike, offers: seq<Offer>)
    requires CleanProvenance(ike)
    ensures CleanProvenance(AppliedAll(ike, offers))
    decreases |offers|
  {
    if offers != [] {
      var o := offers[0];
      assert o in offers;
      DroppedMembers(ike.inferred, o.name);
      DroppedIsDistinct(ike.inferred, o.name);
      ProvenanceStaysClean(Applied(ike, o), offers[1..]);
    }
  }

  /** The gateway's own parsers never offer a hidden value. */
  ghost predicate Definite(offers: seq<Offer>) {
    forall o :: o in offers ==> !Hidden(o.value)
  }

  /** The first value offered for a field that is not itself hidden. */
  function FirstDefinite(offers: seq<Offer>, name: string): Option<Value> {
    if offers == [] then None
    else if offers[0].name == name && !Hidden(offers[0].value) then Some(offers[0].value)
    else FirstDefinite(offers[1..], name)
  }

  /** A field the wire hid takes the first definite value any matching record offers, and is
      credited to the gateway; if none offers one it stays hidden.  With the shipped parsers, which
      never offer a hidden value, that is the first record that names the field. */
  lemma {:induction false} FirstDefiniteOfferWins(ike: Ike, offers: seq<Offer>, name: string)
    requires Unobserved(ike, name)
    ensures var r, first := AppliedAll(ike, offers), FirstDefinite(offers, name);
            if first.Some? then
              Wire(r, name) == first.value && name in r.gatewayFields && name !in r.inferred
            else
              Unobserved(r, name)
    decreases |offers|
  {
    if offers != [] {
      var o := offers[0];
      var next := Applied(ike, o);
      DroppedMembers(ike.inferred, o.name);
      if o.name == name && !Hidden(o.value) {
        WireValuesStand(next, offers[1..], name);
      } else {
        FirstDefiniteOfferWins(next, offers[1..], name);
      }
    }
  }

  /** An offer that would change nothing any more. */
  ghost predicate Settled(ike: Ike, o: Offer) {
    && !Unobserved(ike, o.name)
    && (Wire(ike, o.name) == o.value || o.name in ike.gatewayFields || NoteOf(ike, o) in ike.mismatches)
  }

  lemma SettledOfferIsIgnored(ike: Ike, o: Offer)
    requires Settled(ike, o)
    ensures Applied(ike, o) == ike
  {
  }

  lemma SettledStays(ike: Ike, o: Offer, next: Offer)
    requires Settled(ike, o)
    ensures Settled(Applied(ike, next), o)
  {
    DroppedMembers(ike.inferred, next.name);
  }

  lemma {:induction false} SettledThroughout(ike: Ike, o: Offer, offers: seq<Offer>)
    requires Settled(ike, o)
    ensures Settled(AppliedAll(ike, offers), o)
    decreases |offers|
  {
    if offers != [] {
      assert offers[0] in offers;
      SettledStays(ike, o, offers[0]);
      SettledThroughout(Applied(ike, offers[0]), o, offers[1..]);
    }
  }

  lemma {:induction false} ApplyingSettles(ike: Ike, offers: seq<Offer>)
    requires Definite(offers)
    ensures forall o :: o in offers ==> Settled(AppliedAll(ike, offers), o)
    decreases |offers|
  {
    if offers != [] {
      var o := offers[0];
      assert o in offers;
      DroppedMembers(ike.inferred, o.name);
      assert Settled(Applied(ike, o), o);
      assert forall x :: x in offers[1..] ==> x in offers;
      SettledThroughout(Applied(ike, o), o, offers[1..]);
      ApplyingSettles(Applied(ike, o), offers[1..]);
    }
  }

  lemma {:induction false} SettledOffersAreIgnored(ike: Ike, offers: seq<Offer>, filled: map<string, nat>)
    requires forall o :: o in offers ==> Settled(ike, o)
    ensures AppliedAll(ike, offers) == ike && FilledAll(filled, ike, offers) == filled
    decreases |offers|
  {
    if offers != [] {
      assert offers[0] in offers;
      assert forall x :: x in offers[1..] ==> x in offers;
      SettledOfferIsIgnored(ike, offers[0]);
      SettledOffersAreIgnored(ike, offers[1..], filled);
    }
  }

  /** Importing the same state twice changes nothing and reports no further fill. */
  lemma ImportIsIdempotent(ike: Ike, offers: seq<Offer>, filled: map<string, nat>)
    requires Definite(offers)
    ensures var once := AppliedAll(ike, offers);
            AppliedAll(once, offers) == once && FilledAll(filled, once, offers) == filled
  {
    ApplyingSettles(ike, offers);
    SettledOffersAreIgnored(AppliedAll(ike, offers), offers, filled);
  }

  // ---------------------------------------------------------------------------
  // Which records match, and what an import leaves behind
  // ---------------------------------------------------------------------------

  /** A record matches a session by an SPI the session's id starts with in lower case, or by its two
      addresses, in either order, one it leaves out being the same as the other. */
  lemma MatchMeans(s: Ident, r: Record)
    ensures var local := if r.local == "" then r.remote else r.local;
            var remote := if r.remote == "" then r.local else r.remote;
            Matches(s, r) <==>
            || (r.ikeSpi != "" && |r.ikeSpi| <= |s.sessionId|
                && forall i :: 0 <= i < |r.ikeSpi| ==> LowerChar(s.sessionId[i]) == r.ikeSpi[i])
            || (local != "" && ((local == s.initiatorIp && remote == s.responderIp)
                                || (local == s.responderIp && remote == s.initiatorIp)))
  {
    var lower := Lower(s.sessionId);
    assert r.ikeSpi <= lower <==> |r.ikeSpi| <= |lower| && forall i :: 0 <= i < |r.ikeSpi| ==> lower[i] == r.ikeSpi[i];
    var local := if r.local == "" then r.remote else r.local;
    var remote := if r.remote == "" then r.local else r.remote;
    if local == "" {
      assert Peers(r) == {};
    } else {
      assert Peers(r) == {local, remote};
      SamePair(local, remote, s.initiatorIp, s.responderIp);
    }
  }

  lemma SamePair(a: string, b: string, c: string, d: string)
    ensures {a, b} == {c, d} <==> (a == c && b == d) || (a == d && b == c)
  {
    if {a, b} == {c, d} {
      assert a in {c, d} && b in {c, d} && c in {a, b} && d in {a, b};
    }
  }

  lemma LowerMeans(c: char)
    ensures LowerChar('A') == 'a' && LowerChar('F') == 'f' && LowerChar('Z') == 'z'
    ensures !('A' <= c <= 'Z') ==> LowerChar(c) == c
  {
  }

  /** A session is offered the values of the matching records and no others. */
  lemma {:induction false} OffersMean(s: Ident, records: seq<Record>, o: Offer)
    ensures o in Offers(s, records) <==>
            exists r :: r in records && Matches(s, r) && r.source == o.source && (o.name, o.value) in r.values
  {
    if records != [] {
      OffersMean(s, records[1..], o);
      assert records == [records[0]] + records[1..];
      OffersOfMean(records[0], o);
    }
  }

  lemma OffersOfMean(r: Record, o: Offer)
    ensures o in OffersOf(r) <==> r.source == o.source && (o.name, o.value) in r.values
  {
    if (o.name, o.value) in r.values {
      var i :| 0 <= i < |r.values| && r.values[i] == (o.name, o.value);
      if r.source == o.source {
        assert OffersOf(r)[i] == o;
      }
    }
  }

  ghost predicate Names(offers: seq<Offer>, name: string) {
    exists o :: o in offers && o.name == name
  }

  lemma NamesFirst(offers: seq<Offer>, name: string)
    requires offers != []
    ensures Names(offers, name) <==> offers[0].name == name || Names(offers[1..], name)
  {
    assert offers == [offers[0]] + offers[1..];
  }

  /** A field is credited to the gateway if it was already, or if the wire hid it and a record names it. */
  lemma {:induction false} CreditMeans(ike: Ike, offers: seq<Offer>, name: string)
    ensures name in AppliedAll(ike, offers).gatewayFields <==>
            name in ike.gatewayFields || (Unobserved(ike, name) && Names(offers, name))
    decreases |offers|
  {
    if offers != [] {
      var o := offers[0];
      var next := Applied(ike, o);
      NamesFirst(offers, name);
      DroppedMembers(ike.inferred, o.name);
      CreditMeans(next, offers[1..], name);
      assert o.name != name ==> (Unobserved(next, name) <==> Unobserved(ike, name));
      assert !Unobserved(ike, name) ==> !Unobserved(next, name);
    }
  }

  /** A field stays inferred if no record names it. */
  lemma {:induction false} InferredMeans(ike: Ike, offers: seq<Offer>, name: string)
    ensures name in AppliedAll(ike, offers).inferred <==> name in ike.inferred && !Names(offers, name)
    decreases |offers|
  {
    if offers != [] {
      NamesFirst(offers, name);
      DroppedMembers(ike.inferred, offers[0].name);
      InferredMeans(Applied(ike, offers[0]), offers[1..], name);
    }
  }

  /** The confidence in an inferred mode is dropped exactly when a record fills the mode. */
  lemma {:induction false} ModeConfidenceMeans(ike: Ike, offers: seq<Offer>)
    ensures AppliedAll(ike, offers).modeConfidence ==
            if Unobserved(ike, "mode") && Names(offers, "mode") then None else ike.modeConfidence
    decreases |offers|
  {
    if offers != [] {
      var o := offers[0];
      var next := Applied(ike, o);
      NamesFirst(offers, "mode");
      DroppedMembers(ike.inferred, o.name);
      ModeConfidenceMeans(next, offers[1..]);
      assert o.name != "mode" ==> (Unobserved(next, "mode") <==> Unobserved(ike, "mode"));
    }
  }

  /** The note that a record's value disagrees with what the wire showed. */
  ghost predicate Disagrees(ike: Ike, offers: seq<Offer>, n: Note) {
    && !Unobserved(ike, n.name) && n.name !in ike.gatewayFields
    && n.wire == Wire(ike, n.name) && n.value != n.wire
    && Offer(n.source, n.name, n.value) in offers
  }

  lemma NoteStep(ike: Ike, o: Offer, n: Note)
    ensures n in Applied(ike, o).mismatches <==> n in ike.mismatches || Disagrees(ike, [o], n)
  {
  }

  lemma DisagreesFirst(ike: Ike, offers: seq<Offer>, n: Note)
    requires offers != []
    ensures Disagrees(ike, offers, n) <==>
            Disagrees(ike, [offers[0]], n) || Disagrees(Applied(ike, offers[0]), offers[1..], n)
  {
    var o := offers[0];
    var next := Applied(ike, o);
    assert offers == [o] + offers[1..];
    DroppedMembers(ike.inferred, o.name);
    if Unobserved(ike, n.name) {
      assert n.name == o.name ==> n.name in next.gatewayFields;
      assert n.name != o.name ==> Unobserved(next, n.name);
    } else {
      assert !Unobserved(next, n.name) && Wire(next, n.name) == Wire(ike, n.name);
      assert n.name in next.gatewayFields <==> n.name in ike.gatewayFields;
    }
  }

  /** After an import the noted mismatches are those there before and the disagreements, each once. */
  lemma {:induction false} MismatchesMean(ike: Ike, offers: seq<Offer>, n: Note)
    ensures n in AppliedAll(ike, offers).mismatches <==> n in ike.mismatches || Disagrees(ike, offers, n)
    decreases |offers|
  {
    if offers != [] {
      NoteStep(ike, offers[0], n);
      DisagreesFirst(ike, offers, n);
      MismatchesMean(Applied(ike, offers[0]), offers[1..], n);
    }
  }

  lemma {:induction false} MismatchesStayDistinct(ike: Ike, offers: seq<Offer>)
    requires Distinct(ike.mismatches)
    ensures Distinct(AppliedAll(ike, offers).mismatches)
    ensures ike.mismatches <= AppliedAll(ike, offers).mismatches
    decreases |offers|
  {
    if offers != [] {
      MismatchesStayDistinct(Applied(ike, offers[0]), offers[1..]);
    }
  }

  /** Fields are credited and mismatches noted in the order of the offers: what the first of them add stays
      in front of what the rest add. */
  lemma {:induction false} RecordedInOrder(ike: Ike, first: seq<Offer>, rest: seq<Offer>)
    ensures ike.gatewayFields <= AppliedAll(ike, first + rest).gatewayFields
    ensures AppliedAll(ike, first).gatewayFields <= AppliedAll(ike, first + rest).gatewayFields
    ensures AppliedAll(ike, first).mismatches <= AppliedAll(ike, first + rest).mismatches
    decreases |first| + |rest|
  {
    if first != [] {
      assert (first + rest)[1..] == first[1..] + rest;
      RecordedInOrder(Applied(ike, first[0]), first[1..], rest);
    } else if rest != [] {
      assert [] + rest == rest && rest[1..] == [] + rest[1..];
      RecordedInOrder(Applied(ike, rest[0]), [], rest[1..]);
    }
  }
}
