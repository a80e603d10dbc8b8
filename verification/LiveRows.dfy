/** Which record of a session a console shows: the one its fingerprint last moved to. */
module LiveRows {
  import opened LiveRuns
  import opened LiveStream
  import opened Wrappers

  // ---------------------------------------------------------------------------
  // The record a fingerprint last moved to
  // ---------------------------------------------------------------------------

  /** The records of `id` since it was last absent: analysis by analysis, each in row order. */
  function Since(h: seq<Analysis>, id: string): seq<SessionDoc>
    decreases |h|
  {
    if h == [] then []
    else
      var docs := RecordsOf(h[|h| - 1].sessions, id);
      if docs == [] then [] else Since(h[..|h| - 1], id) + docs
  }

  function AllRecords(h: seq<Analysis>, id: string): seq<SessionDoc>
    decreases |h|
  {
    if h == [] then [] else AllRecords(h[..|h| - 1], id) + RecordsOf(h[|h| - 1].sessions, id)
  }

  /** They are all the records of the longest run of newest analyses that hold the id. */
  lemma {:induction false} SinceMeans(h: seq<Analysis>, id: string) returns (k: nat)
    ensures k <= |h| && Since(h, id) == AllRecords(h[k..], id)
    ensures forall j :: k <= j < |h| ==> id in Ids(h[j].sessions)
    ensures k == 0 || id !in Ids(h[k - 1].sessions)
    decreases |h|
  {
    if h == [] {
      k := 0;
    } else {
      var n := |h| - 1;
      RecordsMembers(h[n].sessions, id);
      if id !in Ids(h[n].sessions) {
        k := n + 1;
      } else {
        k := SinceMeans(h[..n], id);
        assert h[k..][..n - k] == h[..n][k..];
        assert forall j :: k <= j < n ==> h[..n][j] == h[j];
      }
    }
  }

  /** Of some records, the latest whose fingerprint differs from the one before it. */
  function LastMoved(docs: seq<SessionDoc>): SessionDoc
    requires docs != []
    decreases |docs|
  {
    var n := |docs| - 1;
    if n == 0 || docs[n - 1].fp != docs[n].fp then docs[n] else LastMoved(docs[..n])
  }

  lemma {:induction false} LastMovedMeans(docs: seq<SessionDoc>) returns (k: nat)
    requires docs != []
    ensures k < |docs| && LastMoved(docs) == docs[k]
    ensures k == 0 || docs[k - 1].fp != docs[k].fp
    ensures forall j :: k <= j < |docs| ==> docs[j].fp == docs[|docs| - 1].fp
    decreases |docs|
  {
    var n := |docs| - 1;
    if n == 0 || docs[n - 1].fp != docs[n].fp {
      k := n;
    } else {
      k := LastMovedMeans(docs[..n]);
    }
  }

  lemma {:induction false} ShownIsLastMoved(docs: seq<SessionDoc>)
    requires docs != []
    ensures Shown(None, None, docs) == Some(LastMoved(docs))
    decreases |docs|
  {
    var n := |docs| - 1;
    ShownSnoc(None, None, docs);
    if n > 0 {
      ShownIsLastMoved(docs[..n]);
    }
  }

  function TickOf(e: Event): seq<Analysis> {
    if e.Ticked? then [e.analysis] else []
  }

  function History(events: seq<Event>): seq<Analysis>
    decreases |events|
  {
    if events == [] then [] else TickOf(events[0]) + History(events[1..])
  }

  /** What a console will hold once its channel is drained. */
  function Due(k: Client): Replica {
    ReplicaOf(OnMessages(k.view, k.inbox))
  }

  ghost predicate HoldsLastMoved(r: Replica, h: seq<Analysis>, latest: Analysis) {
    forall id :: id in Ids(latest.sessions) ==> Looked(r.sessions, id) == Shown(None, None, Since(h, id))
  }

  /** The document an anomaly's id had in the analysis that announced it: the earliest of the newest
      analyses that hold the id without a gap. */
  function Announced(h: seq<Analysis>, id: string): Option<string>
    decreases |h|
  {
    if h == [] then None
    else
      var n := |h| - 1;
      if id !in Ids(h[n].anomalies) then None
      else if n > 0 && id in Ids(h[n - 1].anomalies) then Announced(h[..n], id)
      else Some(LastOf(h[n].anomalies, id))
  }

  ghost predicate HoldsAnnounced(r: Replica, h: seq<Analysis>, latest: Analysis) {
    forall id :: id in Ids(latest.anomalies) ==> Looked(r.anomalies, id) == Announced(h, id)
  }

  ghost predicate Holds(r: Replica, h: seq<Analysis>, latest: Analysis) {
    HoldsLastMoved(r, h, latest) && HoldsAnnounced(r, h, latest)
  }

  ghost predicate Ends(h: seq<Analysis>, latest: Analysis) {
    if h == [] then latest.sessions == [] && latest.anomalies == [] else h[|h| - 1] == latest
  }

  ghost predicate Follows(sys: System, h: seq<Analysis>) {
    && Ends(h, sys.latest)
    && forall c :: c in sys.clients && sys.clients[c].complete ==> Holds(Due(sys.clients[c]), h, sys.latest)
  }

  /** What the server remembers of an id is the fingerprint of its newest record. */
  lemma RemembersPrint(s: Server, latest: Analysis, h: seq<Analysis>, id: string)
    requires Remembers(s, latest) && Ends(h, latest)
    ensures Looked(s.seenSessions, id) == PrintAfter(None, Since(h, id))
    ensures Since(h, id) != [] <==> id in Ids(latest.sessions)
  {
    RecordsMembers(latest.sessions, id);
  }

  lemma TickFollows(s: Server, latest: Analysis, a: Analysis, batch: seq<Message>, r: Replica, h: seq<Analysis>)
    requires IsTickBatch(s, a, batch) && Remembers(s, latest) && Ends(h, latest)
    requires HoldsLastMoved(r, h, latest)
    ensures HoldsLastMoved(ApplyAll(r, batch), h + [a], a)
  {
    forall id | id in Ids(a.sessions)
      ensures Looked(ApplyAll(r, batch).sessions, id) == Shown(None, None, Since(h + [a], id))
    {
      var before, docs := Since(h, id), RecordsOf(a.sessions, id);
      RowAfterTick(s, a, batch, r, id);
      RecordsMembers(a.sessions, id);
      RemembersPrint(s, latest, h, id);
      ShownAppend(None, None, before, docs);
      assert (h + [a])[..|h|] == h;
    }
  }

  lemma AnomaliesFollow(s: Server, latest: Analysis, a: Analysis, batch: seq<Message>, r: Replica, h: seq<Analysis>)
    requires IsTickBatch(s, a, batch) && Remembers(s, latest) && Ends(h, latest)
    requires HoldsAnnounced(r, h, latest)
    ensures HoldsAnnounced(ApplyAll(r, batch), h + [a], a)
  {
    forall id | id in Ids(a.anomalies)
      ensures Looked(ApplyAll(r, batch).anomalies, id) == Announced(h + [a], id)
    {
      AnomalyAfterTick(s, a, batch, r, id);
      assert (h + [a])[..|h|] == h;
    }
  }

  lemma DueAfter(k: Client, batch: seq<Message>)
    ensures Due(Sent(k, batch)) == ApplyAll(Due(k), batch)
  {
    OnMessagesAppend(k.view, k.inbox, batch);
    OnMessagesRefines(OnMessages(k.view, k.inbox), batch);
  }

  lemma StepFollows(sys: System, e: Event, h: seq<Analysis>)
    requires Inv(sys) && Enabled(sys, e) && Follows(sys, h)
    ensures Follows(Step(sys, e), h + TickOf(e))
  {
    var sys' := Step(sys, e);
    if e.Ticked? {
      forall c | c in sys'.clients && sys'.clients[c].complete
        ensures Holds(Due(sys'.clients[c]), h + [e.analysis], e.analysis)
      {
        var k := sys.clients[c];
        DueAfter(k, e.batch);
        TickFollows(sys.server, sys.latest, e.analysis, e.batch, Due(k), h);
        AnomaliesFollow(sys.server, sys.latest, e.analysis, e.batch, Due(k), h);
      }
    } else {
      assert h + [] == h;
      forall c | c in sys'.clients && sys'.clients[c].complete
        ensures Holds(Due(sys'.clients[c]), h, sys.latest)
      {
        QuietFollows(sys, e, h, c);
      }
    }
  }

  lemma StatusKeepsRows(k: Client, status: Status)
    ensures Due(Sent(k, [LiveMsg(status)])) == Due(k).(status := status)
  {
    var m := LiveMsg(status);
    DueAfter(k, [m]);
    assert [m][1..] == [];
    assert ApplyAll(Due(k), [m]) == Apply(Due(k), m);
  }

  lemma QuietFollows(sys: System, e: Event, h: seq<Analysis>, c: nat)
    requires Inv(sys) && Enabled(sys, e) && Follows(sys, h) && !e.Ticked?
    requires c in Step(sys, e).clients && Step(sys, e).clients[c].complete
    ensures Holds(Due(Step(sys, e).clients[c]), h, sys.latest)
  {
    match e
    case Settled(state, _) =>
      StatusKeepsRows(sys.clients[c], sys.server.status.(state := state));
    case Joined(d, _) =>
      if c == d {
        assert Ids(sys.latest.sessions) == {} && Ids(sys.latest.anomalies) == {};
      }
    case _ =>
  }

  lemma Regroup(a: seq<Analysis>, b: seq<Analysis>, c: seq<Analysis>)
    ensures (a + b) + c == a + (b + c)
  {
  }

  lemma {:induction false} RunFollows(sys: System, events: seq<Event>, h: seq<Analysis>)
    requires Inv(sys) && ValidRun(sys, events) && Follows(sys, h)
    ensures Follows(RunAll(sys, events), h + History(events))
    decreases |events|
  {
    if events == [] {
      assert h + [] == h;
    } else {
      var e := events[0];
      StepFollows(sys, e, h);
      StepKeepsInv(sys, e);
      RunFollows(Step(sys, e), events[1..], h + TickOf(e));
      Regroup(h, TickOf(e), History(events[1..]));
    }
  }

  lemma DrainedHolds(sys: System, events: seq<Event>, c: nat)
    requires JustStarted(sys) && ValidRun(sys, events)
    requires c in RunAll(sys, events).clients
    requires RunAll(sys, events).clients[c].complete && RunAll(sys, events).clients[c].inbox == []
    ensures Holds(ReplicaOf(RunAll(sys, events).clients[c].view), History(events), RunAll(sys, events).latest)
    ensures Ends(History(events), RunAll(sys, events).latest)
  {
    StartIsInStep(sys);
    RunFollows(sys, events, []);
    assert [] + History(events) == History(events);
  }

  lemma LatestRecord(h: seq<Analysis>, latest: Analysis, id: string)
    requires Ends(h, latest) && id in Ids(latest.sessions)
    ensures var docs := Since(h, id); docs != [] && docs[|docs| - 1] == LastOf(latest.sessions, id)
  {
    RecordsMembers(latest.sessions, id);
  }

  /** Main result.  In every run, a drained console that missed nothing shows, for each session of the
      latest analysis, the latest record since the id was last absent whose fingerprint differs from
      the one before it: the newest record just when nothing outside the fingerprint changed since. */
  lemma ConsoleShowsLastMoved(sys: System, events: seq<Event>, c: nat, id: string)
    requires JustStarted(sys) && ValidRun(sys, events)
    requires c in RunAll(sys, events).clients
    requires RunAll(sys, events).clients[c].complete && RunAll(sys, events).clients[c].inbox == []
    requires id in Ids(RunAll(sys, events).latest.sessions)
    ensures var docs := Since(History(events), id);
            var held := Held(RunAll(sys, events).clients[c].view.sessions);
            && docs != [] && docs[|docs| - 1] == LastOf(RunAll(sys, events).latest.sessions, id)
            && id in held && held[id] == LastMoved(docs)
  {
    DrainedHolds(sys, events, c);
    LatestRecord(History(events), RunAll(sys, events).latest, id);
    ShownIsLastMoved(Since(History(events), id));
  }

  /** And for each anomaly of the latest analysis it shows the document it was announced with. */
  lemma ConsoleShowsAnnouncedAnomaly(sys: System, events: seq<Event>, c: nat, id: string)
    requires JustStarted(sys) && ValidRun(sys, events)
    requires c in RunAll(sys, events).clients
    requires RunAll(sys, events).clients[c].complete && RunAll(sys, events).clients[c].inbox == []
    requires id in Ids(RunAll(sys, events).latest.anomalies)
    ensures var held := Held(RunAll(sys, events).clients[c].view.anomalies);
            id in held && Announced(History(events), id) == Some(held[id])
  {
    DrainedHolds(sys, events, c);
    AnnouncedIsSome(History(events), id);
  }

  lemma {:induction false} AnnouncedIsSome(h: seq<Analysis>, id: string)
    requires h != [] && id in Ids(h[|h| - 1].anomalies)
    ensures Announced(h, id).Some?
    decreases |h|
  {
    var n := |h| - 1;
    if n > 0 && id in Ids(h[n - 1].anomalies) {
      AnnouncedIsSome(h[..n], id);
    }
  }

  // ---------------------------------------------------------------------------
  // Draining a channel, and a stale record after two ticks
  // ---------------------------------------------------------------------------

  function Drain(c: nat, n: nat): seq<Event> {
    if n == 0 then [] else [Delivered(c)] + Drain(c, n - 1)
  }

  lemma {:induction false} DrainIsQuiet(c: nat, n: nat)
    ensures History(Drain(c, n)) == []
  {
    if n > 0 {
      DrainIsQuiet(c, n - 1);
      assert Drain(c, n)[1..] == Drain(c, n - 1);
    }
  }

  lemma NothingToDrain(sys: System, c: nat)
    requires c in sys.clients && sys.clients[c].inbox == []
    ensures Drained(sys, c) == sys
  {
    var k := sys.clients[c];
    assert k.(view := OnMessages(k.view, k.inbox), inbox := []) == k;
    assert sys.clients[c := k] == sys.clients;
  }

  lemma DrainedAfterOne(sys: System, c: nat)
    requires c in sys.clients && sys.clients[c].inbox != []
    ensures Drained(Step(sys, Delivered(c)), c) == Drained(sys, c)
  {
  }

  /** The system in which console `c` has read everything it was sent, and nothing else has changed. */
  function Drained(sys: System, c: nat): System
    requires c in sys.clients
  {
    var k := sys.clients[c];
    sys.(clients := sys.clients[c := k.(view := OnMessages(k.view, k.inbox), inbox := [])])
  }

  /** A console can always be drained. */
  lemma {:induction false} DrainDelivers(sys: System, c: nat)
    requires c in sys.clients
    ensures var events := Drain(c, |sys.clients[c].inbox|);
            ValidRun(sys, events) && RunAll(sys, events) == Drained(sys, c)
    decreases |sys.clients[c].inbox|
  {
    var n := |sys.clients[c].inbox|;
    if n == 0 {
      NothingToDrain(sys, c);
    } else {
      assert Drain(c, n)[1..] == Drain(c, n - 1);
      DrainDelivers(Step(sys, Delivered(c)), c);
      DrainedAfterOne(sys, c);
    }
  }

  lemma {:induction false} RunInTwo(sys: System, a: seq<Event>, b: seq<Event>)
    requires ValidRun(sys, a) && ValidRun(RunAll(sys, a), b)
    ensures ValidRun(sys, a + b) && RunAll(sys, a + b) == RunAll(RunAll(sys, a), b)
    ensures History(a + b) == History(a) + History(b)
    decreases |a|
  {
    if a == [] {
      assert a + b == b;
    } else {
      assert (a + b)[1..] == a[1..] + b && (a + b)[0] == a[0];
      RunInTwo(Step(sys, a[0]), a[1..], b);
    }
  }

  /** Any analyses can follow one another. */
  lemma {:induction false} Ticks(sys: System, analyses: seq<Analysis>) returns (events: seq<Event>)
    ensures ValidRun(sys, events) && History(events) == analyses
    ensures var end := RunAll(sys, events);
            && end.latest == (if analyses == [] then sys.latest else analyses[|analyses| - 1])
            && end.clients.Keys == sys.clients.Keys
            && forall c :: c in sys.clients ==> (end.clients[c].complete <==> sys.clients[c].complete)
    decreases |analyses|
  {
    if analyses == [] {
      events := [];
    } else {
      var a := analyses[0];
      var batch := SomeBatch(sys.server, a);
      var first := Ticked(a, batch, {});
      var rest := Ticks(Step(sys, first), analyses[1..]);
      events := [first] + rest;
      assert events[1..] == rest;
      assert History(events) == [a] + History(rest);
    }
  }

  /** A run just started, with one console open and empty. */
  function OneConsole(): System {
    var st := Status("running", "");
    System(Server(map[], {}, st), Analysis([], [], ""),
           map[0 := Client(View([], [], st), [LiveMsg(st)], true, Foreign({}, {}))])
  }

  /** The analyses in turn, after which console 0 reads everything it was sent. */
  lemma DrainedRun(sys: System, analyses: seq<Analysis>) returns (events: seq<Event>)
    requires 0 in sys.clients && sys.clients[0].complete && analyses != []
    ensures ValidRun(sys, events) && History(events) == analyses
    ensures var end := RunAll(sys, events);
            && end.latest == analyses[|analyses| - 1]
            && 0 in end.clients && end.clients[0].complete && end.clients[0].inbox == []
  {
    var ticks := Ticks(sys, analyses);
    var mid := RunAll(sys, ticks);
    var n := |mid.clients[0].inbox|;
    DrainDelivers(mid, 0);
    DrainIsQuiet(0, n);
    RunInTwo(sys, ticks, Drain(0, n));
    events := ticks + Drain(0, n);
  }

  /** A run after which a drained console that missed nothing shows `shown` where the latest
      analysis, and so the job table, has `newest`. */
  ghost predicate ShowsOld(sys: System, events: seq<Event>, id: string, shown: SessionDoc, newest: SessionDoc) {
    && JustStarted(sys) && ValidRun(sys, events) && 0 in RunAll(sys, events).clients
    && var end := RunAll(sys, events);
       var k := end.clients[0];
       && k.complete && k.inbox == []
       && id in Ids(end.latest.sessions) && LastOf(end.latest.sessions, id) == newest
       && id in Held(k.view.sessions) && Held(k.view.sessions)[id] == shown
  }

  lemma TwoRecords(analyses: seq<Analysis>, id: string, a: SessionDoc, b: SessionDoc)
    returns (sys: System, events: seq<Event>)
    requires analyses != [] && Since(analyses, id) == [a, b] && a.fp == b.fp
    ensures ShowsOld(sys, events, id, a, b) && History(events) == analyses
  {
    sys := OneConsole();
    events := DrainedRun(sys, analyses);
    RecordsMembers(analyses[|analyses| - 1].sessions, id);
    ConsoleShowsLastMoved(sys, events, 0, id);
    assert [a, b][..1] == [a];
    assert LastMoved([a, b]) == a;
  }

  /** Two ticks of a session whose record changes without its fingerprint moving: the row keeps the
      first tick's record. */
  lemma StaleDocument(id: string, a: SessionDoc, b: SessionDoc) returns (sys: System, events: seq<Event>)
    requires a.fp == b.fp
    ensures ShowsOld(sys, events, id, a, b)
    ensures History(events) == [Analysis([Row(id, a)], [], ""), Analysis([Row(id, b)], [], "")]
  {
    var first, second := Analysis([Row(id, a)], [], ""), Analysis([Row(id, b)], [], "");
    assert [first, second][..1] == [first] && [first][..0] == [];
    OneRecord(Row(id, a));
    OneRecord(Row(id, b));
    assert Since([first], id) == [a];
    assert Since([first, second], id) == [a] + [b];
    sys, events := TwoRecords([first, second], id, a, b);
  }

  lemma OneRecord(row: Row<SessionDoc>)
    ensures RecordsOf([row], row.id) == [row.doc]
  {
    assert [row][1..] == [];
  }

  /** One tick of an analysis with two rows of one id and equal fingerprints: the row keeps the first
      of them. */
  lemma RepeatedRow(id: string, a: SessionDoc, b: SessionDoc) returns (sys: System, events: seq<Event>)
    requires a.fp == b.fp
    ensures ShowsOld(sys, events, id, a, b)
    ensures History(events) == [Analysis([Row(id, a), Row(id, b)], [], "")]
  {
    var rows := [Row(id, a), Row(id, b)];
    var only := Analysis(rows, [], "");
    OneRecord(Row(id, b));
    assert rows[1..] == [Row(id, b)];
    assert RecordsOf(rows, id) == [a] + [b];
    assert [only][..0] == [];
    assert Since([only], id) == [a, b];
    sys, events := TwoRecords([only], id, a, b);
  }

  lemma SomeBatch(s: Server, a: Analysis) returns (batch: seq<Message>)
    ensures IsTickBatch(s, a, batch)
  {
    var gone := Order(GoneSessions(s, a));
    var dead := Order(GoneEvents(s, a));
    batch := TickBatch(s, a, gone, dead);
  }

  lemma {:induction false} Order(ids: set<string>) returns (order: seq<string>)
    ensures Enumerates(order, ids)
    decreases |ids|
  {
    if ids == {} {
      order := [];
    } else {
      var id :| id in ids;
      var rest := Order(ids - {id});
      order := [id] + rest;
      assert (set x | x in order) == {id} + (set x | x in rest);
    }
  }
}
