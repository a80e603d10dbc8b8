/** The live-run stream: what one analysis tick publishes (api/live.py), how the hub
    fans it out (api/main.py), and how a console folds it (frontend/src/lib/useLive.ts).

    A session's document is split into the three values the server fingerprints and the
    rest of the record, which the server never compares.  Channels are first-in first-out
    and a console may be arbitrarily far behind the server. */
module LiveStream {
  import opened Wrappers

  datatype Fingerprint = Fingerprint(riskScore: int, pktTotal: int, predictedType: string)

  datatype SessionDoc = SessionDoc(fp: Fingerprint, rest: string)

  datatype Row<+T> = Row(id: string, doc: T)

  datatype Analysis = Analysis(sessions: seq<Row<SessionDoc>>, anomalies: seq<Row<string>>, stats: string)

  datatype Status = Status(state: string, stats: string)

  datatype Message =
    | SessionMsg(session: Row<SessionDoc>)
    | SessionRemoved(sessionId: string)
    | AnomalyMsg(anomaly: Row<string>)
    | AnomalyRemoved(anomalyId: string)
    | LiveMsg(status: Status)

  function Ids<T>(rows: seq<Row<T>>): set<string> {
    set i | 0 <= i < |rows| :: rows[i].id
  }

  lemma IdsOfCons<T>(rows: seq<Row<T>>)
    requires rows != []
    ensures Ids(rows) == {rows[0].id} + Ids(rows[1..])
  {
    forall id | id in Ids(rows) ensures id in {rows[0].id} + Ids(rows[1..]) {
      var i :| 0 <= i < |rows| && rows[i].id == id;
      if i > 0 {
        assert rows[1..][i - 1].id == id;
      }
    }
    forall id | id in Ids(rows[1..]) ensures id in Ids(rows) {
      var i :| 0 <= i < |rows[1..]| && rows[1..][i].id == id;
      assert rows[i + 1].id == id;
    }
  }

  ghost predicate IdsDiffer<T>(rows: seq<Row<T>>) {
    forall i, j :: 0 <= i < j < |rows| ==> rows[i].id != rows[j].id
  }

  /** The last record carrying `id`: later rows overwrite earlier ones. */
  function LastOf<T>(rows: seq<Row<T>>, id: string): T
    requires id in Ids(rows)
  {
    var n := |rows| - 1;
    if rows[n].id == id then rows[n].doc
    else
      assert id in Ids(rows[..n]) by {
        var i :| 0 <= i < |rows| && rows[i].id == id;
        assert rows[..n][i].id == id;
      }
      LastOf(rows[..n], id)
  }

  lemma LastOfCons<T>(rows: seq<Row<T>>, id: string)
    requires rows != [] && id in Ids(rows)
    ensures id in Ids(rows[1..]) ==> LastOf(rows, id) == LastOf(rows[1..], id)
    ensures id !in Ids(rows[1..]) ==> LastOf(rows, id) == rows[0].doc
    decreases |rows|
  {
    IdsOfCons(rows);
    var n := |rows| - 1;
    if n > 0 {
      assert rows[1..][n - 1] == rows[n];
      assert rows[n].id in Ids(rows[1..]);
      if rows[n].id != id {
        assert rows[..n][1..] == rows[1..][..n - 1];
        assert id in Ids(rows[..n]) by {
          var i :| 0 <= i < |rows| && rows[i].id == id;
          assert rows[..n][i].id == id;
        }
        LastOfCons(rows[..n], id);
        if id in Ids(rows[1..]) {
          var i :| 0 <= i < n && rows[1..][i].id == id;
          assert rows[..n][1..][i].id == id;
        } else {
          forall i | 0 <= i < n - 1 ensures rows[..n][1..][i].id != id {
            assert rows[1..][i].id in Ids(rows[1..]);
          }
        }
      }
    }
  }

  // ---------------------------------------------------------------------------
  // The server's tick, on values
  // ---------------------------------------------------------------------------

  datatype Server = Server(seenSessions: map<string, Fingerprint>, seenEvents: set<string>, status: Status)

  /** `_seen_sessions` after the scan over the analysed sessions. */
  function Updated(seen: map<string, Fingerprint>, rows: seq<Row<SessionDoc>>): map<string, Fingerprint>
    decreases |rows|
  {
    if rows == [] then seen
    else Updated(seen[rows[0].id := rows[0].doc.fp], rows[1..])
  }

  /** The sessions that scan found new or changed, in order. */
  function Changed(seen: map<string, Fingerprint>, rows: seq<Row<SessionDoc>>): seq<Row<SessionDoc>>
    decreases |rows|
  {
    if rows == [] then []
    else
      var s := rows[0];
      (if s.id in seen && seen[s.id] == s.doc.fp then [] else [s])
      + Changed(seen[s.id := s.doc.fp], rows[1..])
  }

  function Fresh(seen: set<string>, rows: seq<Row<string>>): seq<Row<string>> {
    if rows == [] then []
    else (if rows[0].id in seen then [] else [rows[0]]) + Fresh(seen, rows[1..])
  }

  lemma FreshStep(seen: set<string>, rows: seq<Row<string>>, i: nat)
    requires i < |rows|
    ensures Fresh(seen, rows[i..]) == (if rows[i].id in seen then [] else [rows[i]]) + Fresh(seen, rows[i + 1..])
  {
    assert rows[i..][1..] == rows[i + 1..];
  }

  function AfterTick(s: Server, a: Analysis): Server {
    Server(Updated(s.seenSessions, a.sessions) - GoneSessions(s, a),
           Ids(a.anomalies), s.status.(stats := a.stats))
  }

  function GoneSessions(s: Server, a: Analysis): set<string> {
    s.seenSessions.Keys - Ids(a.sessions)
  }

  function GoneEvents(s: Server, a: Analysis): set<string> {
    s.seenEvents - Ids(a.anomalies)
  }

  function SessionRetractions(ids: seq<string>): seq<Message> {
    seq(|ids|, i requires 0 <= i < |ids| => SessionRemoved(ids[i]))
  }

  function EventRetractions(ids: seq<string>): seq<Message> {
    seq(|ids|, i requires 0 <= i < |ids| => AnomalyRemoved(ids[i]))
  }

  function SessionMessages(rows: seq<Row<SessionDoc>>): seq<Message> {
    seq(|rows|, i requires 0 <= i < |rows| => SessionMsg(rows[i]))
  }

  function AnomalyMessages(rows: seq<Row<string>>): seq<Message> {
    seq(|rows|, i requires 0 <= i < |rows| => AnomalyMsg(rows[i]))
  }

  ghost predicate Enumerates(order: seq<string>, ids: set<string>) {
    (set id | id in order) == ids
  }

  function TickBatch(s: Server, a: Analysis, gone: seq<string>, dead: seq<string>): seq<Message> {
    SessionRetractions(gone) + EventRetractions(dead)
    + SessionMessages(Changed(s.seenSessions, a.sessions))
    + AnomalyMessages(Fresh(s.seenEvents, a.anomalies))
    + [LiveMsg(AfterTick(s, a).status)]
  }

  /** `batch` is what the tick publishes, for some order of the retractions. */
  ghost predicate IsTickBatch(s: Server, a: Analysis, batch: seq<Message>) {
    exists gone, dead ::
      && Enumerates(gone, GoneSessions(s, a))
      && Enumerates(dead, GoneEvents(s, a))
      && batch == TickBatch(s, a, gone, dead)
  }

  // ---------------------------------------------------------------------------
  // The console's reducer
  // ---------------------------------------------------------------------------

  datatype View = View(sessions: seq<Row<SessionDoc>>, anomalies: seq<Row<string>>, status: Status)

  function Without<T>(rows: seq<Row<T>>, id: string): seq<Row<T>> {
    if rows == [] then []
    else (if rows[0].id == id then [] else [rows[0]]) + Without(rows[1..], id)
  }

  function OnMessage(v: View, m: Message): View {
    match m
    case SessionMsg(s) => v.(sessions := [s] + Without(v.sessions, s.id))
    case SessionRemoved(id) => v.(sessions := Without(v.sessions, id))
    case AnomalyMsg(e) => v.(anomalies := [e] + Without(v.anomalies, e.id))
    case AnomalyRemoved(id) => v.(anomalies := Without(v.anomalies, id))
    case LiveMsg(status) => v.(status := status)
  }

  function OnMessages(v: View, ms: seq<Message>): View
    decreases |ms|
  {
    if ms == [] then v else OnMessages(OnMessage(v, ms[0]), ms[1..])
  }

  function Cleared(v: View): View {
    v.(sessions := [], anomalies := [])
  }

  lemma {:induction false} OnMessagesAppend(v: View, a: seq<Message>, b: seq<Message>)
    ensures OnMessages(v, a + b) == OnMessages(OnMessages(v, a), b)
    decreases |a|
  {
    if a == [] {
      assert a + b == b;
    } else {
      assert (a + b)[1..] == a[1..] + b;
      OnMessagesAppend(OnMessage(v, a[0]), a[1..], b);
    }
  }

  // ---------------------------------------------------------------------------
  // What a view holds: newest-first lists seen as maps, and the reducer on maps
  // ---------------------------------------------------------------------------

  function Held<T>(rows: seq<Row<T>>): map<string, T> {
    if rows == [] then map[] else Held(rows[1..])[rows[0].id := rows[0].doc]
  }

  lemma {:induction false} HeldKeys<T>(rows: seq<Row<T>>)
    ensures Held(rows).Keys == Ids(rows)
  {
    if rows != [] {
      IdsOfCons(rows);
      HeldKeys(rows[1..]);
    }
  }

  lemma {:induction false} HeldWithout<T>(rows: seq<Row<T>>, id: string)
    ensures Held(Without(rows, id)) == Held(rows) - {id}
  {
    if rows != [] {
      HeldWithout(rows[1..], id);
      var rest := Without(rows[1..], id);
      if rows[0].id == id {
        assert Without(rows, id) == rest;
      } else {
        assert Without(rows, id) == [rows[0]] + rest;
        assert ([rows[0]] + rest)[1..] == rest;
      }
    }
  }

  lemma {:induction false} WithoutIdsDiffer<T>(rows: seq<Row<T>>, id: string)
    ensures Ids(Without(rows, id)) == Ids(rows) - {id}
    ensures IdsDiffer(rows) ==> IdsDiffer(Without(rows, id))
  {
    HeldWithout(rows, id);
    HeldKeys(rows);
    HeldKeys(Without(rows, id));
    if rows != [] && IdsDiffer(rows) {
      var rest := Without(rows[1..], id);
      WithoutIdsDiffer(rows[1..], id);
      forall j | 0 <= j < |rest| ensures rest[j].id != rows[0].id {
        assert rest[j].id in Ids(rest);
        var k :| 0 <= k < |rows[1..]| && rows[1..][k].id == rest[j].id;
        assert rows[k + 1].id == rest[j].id;
      }
    }
  }

  /** The reducer's effect on what is held. */
  datatype Replica = Replica(sessions: map<string, SessionDoc>, anomalies: map<string, string>, status: Status)

  function ReplicaOf(v: View): Replica {
    Replica(Held(v.sessions), Held(v.anomalies), v.status)
  }

  function Apply(r: Replica, m: Message): Replica {
    match m
    case SessionMsg(s) => r.(sessions := r.sessions[s.id := s.doc])
    case SessionRemoved(id) => r.(sessions := r.sessions - {id})
    case AnomalyMsg(e) => r.(anomalies := r.anomalies[e.id := e.doc])
    case AnomalyRemoved(id) => r.(anomalies := r.anomalies - {id})
    case LiveMsg(status) => r.(status := status)
  }

  function ApplyAll(r: Replica, ms: seq<Message>): Replica
    decreases |ms|
  {
    if ms == [] then r else ApplyAll(Apply(r, ms[0]), ms[1..])
  }

  /** Filter-and-prepend on lists is update and removal on maps, and it never
      leaves two rows with one id. */
  lemma {:induction false} OnMessageRefines(v: View, m: Message)
    ensures ReplicaOf(OnMessage(v, m)) == Apply(ReplicaOf(v), m)
    ensures IdsDiffer(v.sessions) && IdsDiffer(v.anomalies) ==>
              IdsDiffer(OnMessage(v, m).sessions) && IdsDiffer(OnMessage(v, m).anomalies)
  {
    match m
    case SessionMsg(s) =>
      PrependRefines(v.sessions, s);
    case SessionRemoved(id) =>
      HeldWithout(v.sessions, id);
      WithoutIdsDiffer(v.sessions, id);
    case AnomalyMsg(e) =>
      PrependRefines(v.anomalies, e);
    case AnomalyRemoved(id) =>
      HeldWithout(v.anomalies, id);
      WithoutIdsDiffer(v.anomalies, id);
    case LiveMsg(_) =>
  }

  lemma PrependRefines<T>(rows: seq<Row<T>>, r: Row<T>)
    ensures Held([r] + Without(rows, r.id)) == Held(rows)[r.id := r.doc]
    ensures IdsDiffer(rows) ==> IdsDiffer([r] + Without(rows, r.id))
  {
    var rest := Without(rows, r.id);
    HeldWithout(rows, r.id);
    WithoutIdsDiffer(rows, r.id);
    assert ([r] + rest)[1..] == rest;
    forall j | 0 <= j < |rest| ensures rest[j].id != r.id {
      assert rest[j].id in Ids(rest);
    }
  }

  lemma {:induction false} OnMessagesRefines(v: View, ms: seq<Message>)
    ensures ReplicaOf(OnMessages(v, ms)) == ApplyAll(ReplicaOf(v), ms)
    ensures IdsDiffer(v.sessions) && IdsDiffer(v.anomalies) ==>
              IdsDiffer(OnMessages(v, ms).sessions) && IdsDiffer(OnMessages(v, ms).anomalies)
    decreases |ms|
  {
    if ms != [] {
      OnMessageRefines(v, ms[0]);
      OnMessagesRefines(OnMessage(v, ms[0]), ms[1..]);
    }
  }

  lemma {:induction false} ApplyAllAppend(r: Replica, a: seq<Message>, b: seq<Message>)
    ensures ApplyAll(r, a + b) == ApplyAll(ApplyAll(r, a), b)
    decreases |a|
  {
    if a == [] {
      assert a + b == b;
    } else {
      assert (a + b)[1..] == a[1..] + b;
      ApplyAllAppend(Apply(r, a[0]), a[1..], b);
    }
  }

  // ---------------------------------------------------------------------------
  // The effect of one batch on any replica
  // ---------------------------------------------------------------------------

  lemma {:induction false} SessionRetractionsEffect(r: Replica, ids: seq<string>)
    ensures ApplyAll(r, SessionRetractions(ids)) ==
            r.(sessions := r.sessions - (set id | id in ids))
    decreases |ids|
  {
    if ids != [] {
      assert SessionRetractions(ids)[1..] == SessionRetractions(ids[1..]);
      SessionRetractionsEffect(Apply(r, SessionRemoved(ids[0])), ids[1..]);
      assert (set id | id in ids) == {ids[0]} + (set id | id in ids[1..]);
    }
  }

  lemma {:induction false} EventRetractionsEffect(r: Replica, ids: seq<string>)
    ensures ApplyAll(r, EventRetractions(ids)) ==
            r.(anomalies := r.anomalies - (set id | id in ids))
    decreases |ids|
  {
    if ids != [] {
      assert EventRetractions(ids)[1..] == EventRetractions(ids[1..]);
      EventRetractionsEffect(Apply(r, AnomalyRemoved(ids[0])), ids[1..]);
      assert (set id | id in ids) == {ids[0]} + (set id | id in ids[1..]);
    }
  }

  /** `held` agrees with the fingerprints the server last pushed, on every id outside `foreign`. */
  ghost predicate PrintsAgree(held: map<string, SessionDoc>, seen: map<string, Fingerprint>, foreign: set<string>) {
    forall id :: id in held && id !in foreign ==> id in seen && held[id].fp == seen[id]
  }

  /** Pushing the changed sessions keeps a replica in step with the scan that chose them. */
  lemma {:induction false} PushEffect(r: Replica, seen: map<string, Fingerprint>, rows: seq<Row<SessionDoc>>,
                                      gone: set<string>, foreign: set<string>)
    requires gone !! Ids(rows)
    requires foreign !! seen.Keys
    requires PrintsAgree(r.sessions, seen, foreign)
    requires r.sessions.Keys !! gone
    ensures var r' := ApplyAll(r, SessionMessages(Changed(seen, rows)));
            && r' == r.(sessions := r'.sessions)
            && PrintsAgree(r'.sessions, Updated(seen, rows), foreign - Ids(rows))
            && r'.sessions.Keys !! gone
            && (r.sessions.Keys == (seen.Keys - gone) + foreign ==>
                  r'.sessions.Keys == (Updated(seen, rows).Keys - gone) + (foreign - Ids(rows)))
            && (r.sessions.Keys <= (seen.Keys - gone) + foreign ==>
                  r'.sessions.Keys <= (Updated(seen, rows).Keys - gone) + (foreign - Ids(rows)))
    decreases |rows|
  {
    if rows == [] {
      assert foreign - Ids(rows) == foreign;
    } else {
      var s := rows[0];
      var seen' := seen[s.id := s.doc.fp];
      IdsOfCons(rows);
      var rest := Changed(seen', rows[1..]);
      var foreign' := foreign - {s.id};
      assert foreign' - Ids(rows[1..]) == foreign - Ids(rows);
      assert s.id in Ids(rows);
      if s.id in seen && seen[s.id] == s.doc.fp {
        assert seen' == seen;
        assert Changed(seen, rows) == rest;
        assert foreign' == foreign;
        PushEffect(r, seen', rows[1..], gone, foreign');
      } else {
        assert Changed(seen, rows) == [s] + rest;
        var ms := SessionMessages(Changed(seen, rows));
        assert ms[0] == SessionMsg(s) && ms[1..] == SessionMessages(rest);
        var r1 := Apply(r, SessionMsg(s));
        assert r.sessions.Keys == (seen.Keys - gone) + foreign ==>
            r1.sessions.Keys == (seen'.Keys - gone) + foreign';
        PushEffect(r1, seen', rows[1..], gone, foreign');
      }
    }
  }

  lemma AnomalyFirst(r: Replica, row: Row<string>, rest: seq<Row<string>>)
    ensures ApplyAll(r, AnomalyMessages([row] + rest)) == ApplyAll(Apply(r, AnomalyMsg(row)), AnomalyMessages(rest))
  {
    var ms := AnomalyMessages([row] + rest);
    assert ms[0] == AnomalyMsg(row) && ms[1..] == AnomalyMessages(rest);
  }

  lemma {:induction false} FreshEffect(r: Replica, events: set<string>, rows: seq<Row<string>>)
    ensures var r' := ApplyAll(r, AnomalyMessages(Fresh(events, rows)));
            && r' == r.(anomalies := r'.anomalies)
            && r'.anomalies.Keys == r.anomalies.Keys + (Ids(rows) - events)
    decreases |rows|
  {
    if rows == [] {
      assert r.anomalies.Keys + (Ids(rows) - events) == r.anomalies.Keys;
    } else {
      IdsOfCons(rows);
      var rest := Fresh(events, rows[1..]);
      if rows[0].id in events {
        assert Fresh(events, rows) == rest;
        FreshEffect(r, events, rows[1..]);
      } else {
        assert Fresh(events, rows) == [rows[0]] + rest;
        AnomalyFirst(r, rows[0], rest);
        var r1 := Apply(r, AnomalyMsg(rows[0]));
        FreshEffect(r1, events, rows[1..]);
        assert r1.anomalies.Keys == r.anomalies.Keys + {rows[0].id};
      }
    }
  }

  lemma {:induction false} UpdatedKeys(seen: map<string, Fingerprint>, rows: seq<Row<SessionDoc>>)
    ensures Updated(seen, rows).Keys == seen.Keys + Ids(rows)
    ensures forall id :: id in Ids(rows) ==> Updated(seen, rows)[id] == LastOf(rows, id).fp
    ensures forall id :: id in seen && id !in Ids(rows) ==> Updated(seen, rows)[id] == seen[id]
    decreases |rows|
  {
    if rows == [] {
      assert Ids(rows) == {};
    } else {
      IdsOfCons(rows);
      var seen' := seen[rows[0].id := rows[0].doc.fp];
      UpdatedKeys(seen', rows[1..]);
      forall id | id in Ids(rows) ensures Updated(seen, rows)[id] == LastOf(rows, id).fp {
        LastOfCons(rows, id);
      }
    }
  }

  /** After a tick the server's memory is a function of that tick's analysis alone. */
  ghost predicate Remembers(s: Server, a: Analysis) {
    && s.seenSessions.Keys == Ids(a.sessions)
    && (forall id :: id in Ids(a.sessions) ==> s.seenSessions[id] == LastOf(a.sessions, id).fp)
    && s.seenEvents == Ids(a.anomalies)
    && s.status.stats == a.stats
  }

  lemma TickRemembers(s: Server, a: Analysis)
    ensures Remembers(AfterTick(s, a), a)
  {
    UpdatedKeys(s.seenSessions, a.sessions);
  }

  // ---------------------------------------------------------------------------
  // Agreement
  // ---------------------------------------------------------------------------

  /** Rows a console still shows that this run never touched: an earlier run's or an upload's. */
  datatype Foreign = Foreign(sessions: set<string>, anomalies: set<string>)

  /** Nothing beyond what the server remembers, apart from foreign rows. */
  ghost predicate Within(s: Server, r: Replica, f: Foreign) {
    && f.sessions !! s.seenSessions.Keys
    && f.anomalies !! s.seenEvents
    && PrintsAgree(r.sessions, s.seenSessions, f.sessions)
    && r.sessions.Keys <= s.seenSessions.Keys + f.sessions
    && r.anomalies.Keys <= s.seenEvents + f.anomalies
    && r.status == s.status
  }

  /** Exactly what the server remembers, apart from foreign rows. */
  ghost predicate Agrees(s: Server, r: Replica, f: Foreign) {
    && Within(s, r, f)
    && r.sessions.Keys == s.seenSessions.Keys + f.sessions
    && r.anomalies.Keys == s.seenEvents + f.anomalies
  }

  function Touched(f: Foreign, a: Analysis): Foreign {
    Foreign(f.sessions - Ids(a.sessions), f.anomalies - Ids(a.anomalies))
  }

  /** A batch, one stage at a time: the removals, then the pushed sessions, then the new anomalies. */
  lemma BatchInStages(s: Server, a: Analysis, gone: seq<string>, dead: seq<string>, r: Replica)
    requires Enumerates(gone, GoneSessions(s, a)) && Enumerates(dead, GoneEvents(s, a))
    ensures var pruned := Replica(r.sessions - GoneSessions(s, a), r.anomalies - GoneEvents(s, a), r.status);
            var pushed := ApplyAll(pruned, SessionMessages(Changed(s.seenSessions, a.sessions)));
            var noted := ApplyAll(pushed, AnomalyMessages(Fresh(s.seenEvents, a.anomalies)));
            ApplyAll(r, TickBatch(s, a, gone, dead)) == noted.(status := AfterTick(s, a).status)
  {
    var m1, m2 := SessionRetractions(gone), EventRetractions(dead);
    var m3 := SessionMessages(Changed(s.seenSessions, a.sessions));
    var m4 := AnomalyMessages(Fresh(s.seenEvents, a.anomalies));
    var m5 := [LiveMsg(AfterTick(s, a).status)];
    ApplyAllAppend(r, m1 + m2 + m3 + m4, m5);
    ApplyAllAppend(r, m1 + m2 + m3, m4);
    ApplyAllAppend(r, m1 + m2, m3);
    ApplyAllAppend(r, m1, m2);
    SessionRetractionsEffect(r, gone);
    EventRetractionsEffect(ApplyAll(r, m1), dead);
  }

  lemma BatchKeepsAgreement(s: Server, a: Analysis, batch: seq<Message>, r: Replica, f: Foreign)
    requires IsTickBatch(s, a, batch)
    requires Within(s, r, f)
    ensures Within(AfterTick(s, a), ApplyAll(r, batch), Touched(f, a))
    ensures Agrees(s, r, f) ==> Agrees(AfterTick(s, a), ApplyAll(r, batch), Touched(f, a))
  {
    var gone, dead :| Enumerates(gone, GoneSessions(s, a)) && Enumerates(dead, GoneEvents(s, a))
                      && batch == TickBatch(s, a, gone, dead);
    BatchInStages(s, a, gone, dead, r);
    var pruned := Replica(r.sessions - GoneSessions(s, a), r.anomalies - GoneEvents(s, a), r.status);
    assert pruned.sessions.Keys == r.sessions.Keys - GoneSessions(s, a);
    PushEffect(pruned, s.seenSessions, a.sessions, GoneSessions(s, a), f.sessions);
    var pushed := ApplyAll(pruned, SessionMessages(Changed(s.seenSessions, a.sessions)));
    FreshEffect(pushed, s.seenEvents, a.anomalies);
    UpdatedKeys(s.seenSessions, a.sessions);
    AgreementOfStages(s, a, r, f, pruned, pushed, ApplyAll(r, batch));
  }

  lemma AgreementOfStages(s: Server, a: Analysis, r: Replica, f: Foreign, pruned: Replica, pushed: Replica,
                          last: Replica)
    requires Within(s, r, f)
    requires pruned.sessions.Keys == r.sessions.Keys - GoneSessions(s, a)
    requires pruned.anomalies.Keys == r.anomalies.Keys - GoneEvents(s, a)
    requires Updated(s.seenSessions, a.sessions).Keys == s.seenSessions.Keys + Ids(a.sessions)
    requires PrintsAgree(pushed.sessions, Updated(s.seenSessions, a.sessions), f.sessions - Ids(a.sessions))
    requires pushed.sessions.Keys !! GoneSessions(s, a)
    requires var left := s.seenSessions.Keys - GoneSessions(s, a);
             var kept := Updated(s.seenSessions, a.sessions).Keys - GoneSessions(s, a);
             && (pruned.sessions.Keys == left + f.sessions ==>
                   pushed.sessions.Keys == kept + (f.sessions - Ids(a.sessions)))
             && (pruned.sessions.Keys <= left + f.sessions ==>
                   pushed.sessions.Keys <= kept + (f.sessions - Ids(a.sessions)))
    requires pushed.anomalies == pruned.anomalies
    requires last.sessions == pushed.sessions
    requires last.anomalies.Keys == pushed.anomalies.Keys + (Ids(a.anomalies) - s.seenEvents)
    requires last.status == AfterTick(s, a).status
    ensures Within(AfterTick(s, a), last, Touched(f, a))
    ensures Agrees(s, r, f) ==> Agrees(AfterTick(s, a), last, Touched(f, a))
  {
    var left := s.seenSessions.Keys - GoneSessions(s, a);
    assert pruned.sessions.Keys <= left + f.sessions;
    assert AfterTick(s, a).seenSessions.Keys == Ids(a.sessions);
    assert Updated(s.seenSessions, a.sessions).Keys - GoneSessions(s, a) == Ids(a.sessions);
    if Agrees(s, r, f) {
      assert pruned.sessions.Keys == left + f.sessions;
    }
  }

  /** Forgetting rows never breaks containment, whatever is still in flight. */
  lemma {:induction false} FewerRowsStayFewer(r: Replica, q: Replica, ms: seq<Message>)
    requires Below(r, q)
    ensures Below(ApplyAll(r, ms), ApplyAll(q, ms))
    decreases |ms|
  {
    if ms != [] {
      FewerRowsStayFewer(Apply(r, ms[0]), Apply(q, ms[0]), ms[1..]);
    }
  }

  ghost predicate Below(r: Replica, q: Replica) {
    && (forall id :: id in r.sessions ==> id in q.sessions && r.sessions[id] == q.sessions[id])
    && (forall id :: id in r.anomalies ==> id in q.anomalies && r.anomalies[id] == q.anomalies[id])
    && r.status == q.status
  }

  lemma BelowKeepsWithin(s: Server, r: Replica, q: Replica, f: Foreign)
    requires Within(s, q, f) && Below(r, q)
    ensures Within(s, r, f)
  {
    forall id | id in r.sessions && id !in f.sessions
      ensures id in s.seenSessions && r.sessions[id].fp == s.seenSessions[id]
    {
      assert q.sessions[id] == r.sessions[id];
    }
  }

  // ---------------------------------------------------------------------------
  // The record of one row
  // ---------------------------------------------------------------------------

  function Looked<T>(m: map<string, T>, id: string): Option<T> {
    if id in m then Some(m[id]) else None
  }

  /** The records of one id, in row order. */
  function RecordsOf<T>(rows: seq<Row<T>>, id: string): seq<T> {
    if rows == [] then []
    else (if rows[0].id == id then [rows[0].doc] else []) + RecordsOf(rows[1..], id)
  }

  /** What a row shows once the scan has gone through the records `docs` of its id: each record whose
      fingerprint differs from the one before it replaces the row. */
  function Shown(held: Option<SessionDoc>, last: Option<Fingerprint>, docs: seq<SessionDoc>): Option<SessionDoc>
    decreases |docs|
  {
    if docs == [] then held
    else Shown(if last == Some(docs[0].fp) then held else Some(docs[0]), Some(docs[0].fp), docs[1..])
  }

  /** The fingerprint before the next record: that of the last one seen, if any was. */
  function PrintAfter(last: Option<Fingerprint>, docs: seq<SessionDoc>): Option<Fingerprint> {
    if docs == [] then last else Some(docs[|docs| - 1].fp)
  }

  lemma {:induction false} ShownAppend(held: Option<SessionDoc>, last: Option<Fingerprint>, a: seq<SessionDoc>,
                                       b: seq<SessionDoc>)
    ensures Shown(held, last, a + b) == Shown(Shown(held, last, a), PrintAfter(last, a), b)
    decreases |a|
  {
    if a == [] {
      assert a + b == b;
    } else {
      assert (a + b)[1..] == a[1..] + b;
      ShownAppend(if last == Some(a[0].fp) then held else Some(a[0]), Some(a[0].fp), a[1..], b);
    }
  }

  lemma ShownSnoc(held: Option<SessionDoc>, last: Option<Fingerprint>, docs: seq<SessionDoc>)
    requires docs != []
    ensures var n := |docs| - 1;
            Shown(held, last, docs) ==
            if PrintAfter(last, docs[..n]) == Some(docs[n].fp) then Shown(held, last, docs[..n]) else Some(docs[n])
  {
    var n := |docs| - 1;
    ShownAppend(held, last, docs[..n], [docs[n]]);
    assert docs == docs[..n] + [docs[n]] && [docs[n]][1..] == [];
  }

  lemma {:induction false} RecordsMembers<T>(rows: seq<Row<T>>, id: string)
    ensures RecordsOf(rows, id) != [] <==> id in Ids(rows)
    ensures id in Ids(rows) ==> LastOf(rows, id) == RecordsOf(rows, id)[|RecordsOf(rows, id)| - 1]
    decreases |rows|
  {
    if rows != [] {
      IdsOfCons(rows);
      RecordsMembers(rows[1..], id);
      if id in Ids(rows) {
        LastOfCons(rows, id);
      }
    }
  }

  lemma PushFirst(r: Replica, seen: map<string, Fingerprint>, rows: seq<Row<SessionDoc>>)
    requires rows != []
    ensures var s := rows[0];
            var r1 := if Looked(seen, s.id) == Some(s.doc.fp) then r else Apply(r, SessionMsg(s));
            ApplyAll(r, SessionMessages(Changed(seen, rows))) ==
            ApplyAll(r1, SessionMessages(Changed(seen[s.id := s.doc.fp], rows[1..])))
  {
    var s := rows[0];
    var rest := Changed(seen[s.id := s.doc.fp], rows[1..]);
    if Looked(seen, s.id) == Some(s.doc.fp) {
      assert Changed(seen, rows) == rest;
    } else {
      var ms := SessionMessages(Changed(seen, rows));
      assert Changed(seen, rows) == [s] + rest;
      assert ms[0] == SessionMsg(s) && ms[1..] == SessionMessages(rest);
    }
  }

  lemma {:induction false} RowAfterPush(r: Replica, seen: map<string, Fingerprint>, rows: seq<Row<SessionDoc>>,
                                        id: string)
    ensures Looked(ApplyAll(r, SessionMessages(Changed(seen, rows))).sessions, id) ==
            Shown(Looked(r.sessions, id), Looked(seen, id), RecordsOf(rows, id))
    decreases |rows|
  {
    if rows != [] {
      var s := rows[0];
      PushFirst(r, seen, rows);
      var r1 := if Looked(seen, s.id) == Some(s.doc.fp) then r else Apply(r, SessionMsg(s));
      RowAfterPush(r1, seen[s.id := s.doc.fp], rows[1..], id);
      var docs, rest := RecordsOf(rows, id), RecordsOf(rows[1..], id);
      if s.id == id {
        assert docs == [s.doc] + rest && docs[1..] == rest;
      } else {
        assert docs == rest;
      }
    }
  }

  /** A tick's effect on one row, whether or not the analysis repeats its id: the row goes through the
      id's records, starting from what it showed and what the server remembered. */
  lemma RowAfterTick(s: Server, a: Analysis, batch: seq<Message>, r: Replica, id: string)
    requires IsTickBatch(s, a, batch) && id in Ids(a.sessions)
    ensures Looked(ApplyAll(r, batch).sessions, id) ==
            Shown(Looked(r.sessions, id), Looked(s.seenSessions, id), RecordsOf(a.sessions, id))
  {
    var gone, dead :| Enumerates(gone, GoneSessions(s, a)) && Enumerates(dead, GoneEvents(s, a))
                      && batch == TickBatch(s, a, gone, dead);
    BatchInStages(s, a, gone, dead, r);
    var pruned := Replica(r.sessions - GoneSessions(s, a), r.anomalies - GoneEvents(s, a), r.status);
    RowAfterPush(pruned, s.seenSessions, a.sessions, id);
    FreshEffect(ApplyAll(pruned, SessionMessages(Changed(s.seenSessions, a.sessions))), s.seenEvents, a.anomalies);
  }

  /** After a tick a row shows the newest record of its id if and only if that record's fingerprint
      differs from the one before it, in this analysis or remembered, or the row already showed that
      very record: a change outside the fingerprint alone is never sent. */
  lemma RowIsCurrentIff(s: Server, a: Analysis, batch: seq<Message>, r: Replica, id: string)
    requires IsTickBatch(s, a, batch) && id in Ids(a.sessions)
    ensures var docs := RecordsOf(a.sessions, id);
            var newest := LastOf(a.sessions, id);
            && docs != [] && docs[|docs| - 1] == newest
            && var before := docs[..|docs| - 1];
               var last := Looked(s.seenSessions, id);
               Looked(ApplyAll(r, batch).sessions, id) == Some(newest) <==>
               PrintAfter(last, before) != Some(newest.fp)
               || Shown(Looked(r.sessions, id), last, before) == Some(newest)
  {
    RowAfterTick(s, a, batch, r, id);
    RecordsMembers(a.sessions, id);
    ShownSnoc(Looked(r.sessions, id), Looked(s.seenSessions, id), RecordsOf(a.sessions, id));
  }

  // ---------------------------------------------------------------------------
  // The document of one anomaly
  // ---------------------------------------------------------------------------

  lemma {:induction false} AnomalyAfterFresh(r: Replica, seen: set<string>, rows: seq<Row<string>>, id: string)
    ensures Looked(ApplyAll(r, AnomalyMessages(Fresh(seen, rows))).anomalies, id) ==
            if id in Ids(rows) && id !in seen then Some(LastOf(rows, id)) else Looked(r.anomalies, id)
    decreases |rows|
  {
    if rows != [] {
      IdsOfCons(rows);
      var rest := Fresh(seen, rows[1..]);
      if rows[0].id in seen {
        assert Fresh(seen, rows) == rest;
        AnomalyAfterFresh(r, seen, rows[1..], id);
      } else {
        assert Fresh(seen, rows) == [rows[0]] + rest;
        AnomalyFirst(r, rows[0], rest);
        AnomalyAfterFresh(Apply(r, AnomalyMsg(rows[0])), seen, rows[1..], id);
      }
      if id in Ids(rows) {
        LastOfCons(rows, id);
      }
    }
  }

  lemma {:induction false} PushKeepsAnomalies(r: Replica, seen: map<string, Fingerprint>, rows: seq<Row<SessionDoc>>)
    ensures ApplyAll(r, SessionMessages(Changed(seen, rows))).anomalies == r.anomalies
    decreases |rows|
  {
    if rows != [] {
      var s := rows[0];
      PushFirst(r, seen, rows);
      var r1 := if Looked(seen, s.id) == Some(s.doc.fp) then r else Apply(r, SessionMsg(s));
      PushKeepsAnomalies(r1, seen[s.id := s.doc.fp], rows[1..]);
    }
  }

  /** A tick gives a console the last document of an anomaly not announced before, and leaves the one
      it has of any other. */
  lemma AnomalyAfterTick(s: Server, a: Analysis, batch: seq<Message>, r: Replica, id: string)
    requires IsTickBatch(s, a, batch) && id in Ids(a.anomalies)
    ensures Looked(ApplyAll(r, batch).anomalies, id) ==
            if id in s.seenEvents then Looked(r.anomalies, id) else Some(LastOf(a.anomalies, id))
  {
    var gone, dead :| Enumerates(gone, GoneSessions(s, a)) && Enumerates(dead, GoneEvents(s, a))
                      && batch == TickBatch(s, a, gone, dead);
    BatchInStages(s, a, gone, dead, r);
    var pruned := Replica(r.sessions - GoneSessions(s, a), r.anomalies - GoneEvents(s, a), r.status);
    PushKeepsAnomalies(pruned, s.seenSessions, a.sessions);
    AnomalyAfterFresh(ApplyAll(pruned, SessionMessages(Changed(s.seenSessions, a.sessions))), s.seenEvents,
                      a.anomalies, id);
  }

  // ---------------------------------------------------------------------------
  // The order of a console's rows
  // ---------------------------------------------------------------------------

  /** Position of the last message `pushed` says is about `id`, or -1. */
  function LastPush(ms: seq<Message>, pushed: Message -> Option<string>, id: string): int {
    if ms == [] then -1
    else if pushed(ms[|ms| - 1]) == Some(id) then |ms| - 1
    else LastPush(ms[..|ms| - 1], pushed, id)
  }

  function SessionPushed(m: Message): Option<string> {
    if m.SessionMsg? then Some(m.session.id) else None
  }

  function AnomalyPushed(m: Message): Option<string> {
    if m.AnomalyMsg? then Some(m.anomaly.id) else None
  }

  /** `id` was pushed after every row that was pushed at all. */
  ghost predicate Above<T>(id: string, rows: seq<Row<T>>, ms: seq<Message>, pushed: Message -> Option<string>) {
    forall x :: x in Ids(rows) && LastPush(ms, pushed, x) >= 0 ==> LastPush(ms, pushed, id) > LastPush(ms, pushed, x)
  }

  /** Later pushes stand before earlier ones, and rows never pushed after all of them. */
  ghost predicate NewestFirst<T>(rows: seq<Row<T>>, ms: seq<Message>, pushed: Message -> Option<string>) {
    rows == [] || (Above(rows[0].id, rows[1..], ms, pushed) && NewestFirst(rows[1..], ms, pushed))
  }

  lemma {:induction false} LastPushBounded(ms: seq<Message>, pushed: Message -> Option<string>, id: string)
    ensures -1 <= LastPush(ms, pushed, id) < |ms|
  {
    if ms != [] {
      LastPushBounded(ms[..|ms| - 1], pushed, id);
    }
  }

  lemma LastPushSnoc(ms: seq<Message>, m: Message, pushed: Message -> Option<string>, id: string)
    ensures LastPush(ms + [m], pushed, id) == if pushed(m) == Some(id) then |ms| else LastPush(ms, pushed, id)
    ensures LastPush(ms, pushed, id) < |ms|
  {
    assert (ms + [m])[..|ms|] == ms;
    LastPushBounded(ms, pushed, id);
  }

  lemma {:induction false} RemovalStaysNewestFirst<T>(rows: seq<Row<T>>, id: string, ms: seq<Message>,
                                                       pushed: Message -> Option<string>)
    requires NewestFirst(rows, ms, pushed)
    ensures NewestFirst(Without(rows, id), ms, pushed)
  {
    if rows != [] {
      var rest := Without(rows[1..], id);
      RemovalStaysNewestFirst(rows[1..], id, ms, pushed);
      WithoutIdsDiffer(rows[1..], id);
      if rows[0].id != id {
        assert Without(rows, id)[0] == rows[0] && Without(rows, id)[1..] == rest;
      } else {
        assert Without(rows, id) == rest;
      }
    }
  }

  lemma {:induction false} OtherPushStaysNewestFirst<T>(rows: seq<Row<T>>, ms: seq<Message>, m: Message,
                                                         pushed: Message -> Option<string>)
    requires NewestFirst(rows, ms, pushed)
    requires pushed(m).None? || pushed(m).value !in Ids(rows)
    ensures NewestFirst(rows, ms + [m], pushed)
  {
    if rows != [] {
      IdsOfCons(rows);
      OtherPushStaysNewestFirst(rows[1..], ms, m, pushed);
      forall x | x in Ids(rows) ensures LastPush(ms + [m], pushed, x) == LastPush(ms, pushed, x) {
        LastPushSnoc(ms, m, pushed, x);
      }
    }
  }

  lemma PushedStandsFirst<T>(rows: seq<Row<T>>, row: Row<T>, ms: seq<Message>, m: Message,
                             pushed: Message -> Option<string>)
    requires NewestFirst(rows, ms, pushed) && pushed(m) == Some(row.id)
    ensures NewestFirst([row] + Without(rows, row.id), ms + [m], pushed)
  {
    var rest := Without(rows, row.id);
    WithoutIdsDiffer(rows, row.id);
    RemovalStaysNewestFirst(rows, row.id, ms, pushed);
    OtherPushStaysNewestFirst(rest, ms, m, pushed);
    assert ([row] + rest)[1..] == rest;
    forall x | x in Ids(rest) ensures LastPush(ms + [m], pushed, x) < |ms| {
      LastPushSnoc(ms, m, pushed, x);
    }
    LastPushSnoc(ms, m, pushed, row.id);
  }

  lemma SessionsStayNewestFirst(v: View, ms: seq<Message>, m: Message)
    requires NewestFirst(v.sessions, ms, SessionPushed)
    ensures NewestFirst(OnMessage(v, m).sessions, ms + [m], SessionPushed)
  {
    match m
    case SessionMsg(s) => PushedStandsFirst(v.sessions, s, ms, m, SessionPushed);
    case SessionRemoved(id) =>
      RemovalStaysNewestFirst(v.sessions, id, ms, SessionPushed);
      OtherPushStaysNewestFirst(Without(v.sessions, id), ms, m, SessionPushed);
    case _ => OtherPushStaysNewestFirst(v.sessions, ms, m, SessionPushed);
  }

  lemma AnomaliesStayNewestFirst(v: View, ms: seq<Message>, m: Message)
    requires NewestFirst(v.anomalies, ms, AnomalyPushed)
    ensures NewestFirst(OnMessage(v, m).anomalies, ms + [m], AnomalyPushed)
  {
    match m
    case AnomalyMsg(e) => PushedStandsFirst(v.anomalies, e, ms, m, AnomalyPushed);
    case AnomalyRemoved(id) =>
      RemovalStaysNewestFirst(v.anomalies, id, ms, AnomalyPushed);
      OtherPushStaysNewestFirst(Without(v.anomalies, id), ms, m, AnomalyPushed);
    case _ => OtherPushStaysNewestFirst(v.anomalies, ms, m, AnomalyPushed);
  }

  lemma {:induction false} NothingPushed<T>(rows: seq<Row<T>>, pushed: Message -> Option<string>)
    ensures NewestFirst(rows, [], pushed)
  {
    if rows != [] {
      NothingPushed(rows[1..], pushed);
    }
  }

  /** Whatever messages a console folds, its sessions and its anomalies stand newest first. */
  lemma {:induction false} ConsoleIsNewestFirst(v: View, ms: seq<Message>)
    ensures NewestFirst(OnMessages(v, ms).sessions, ms, SessionPushed)
    ensures NewestFirst(OnMessages(v, ms).anomalies, ms, AnomalyPushed)
    decreases |ms|
  {
    if ms == [] {
      NothingPushed(v.sessions, SessionPushed);
      NothingPushed(v.anomalies, AnomalyPushed);
    } else {
      var n := |ms| - 1;
      var before := OnMessages(v, ms[..n]);
      ConsoleIsNewestFirst(v, ms[..n]);
      OnMessagesAppend(v, ms[..n], [ms[n]]);
      assert [ms[n]][1..] == [] && ms == ms[..n] + [ms[n]];
      assert OnMessages(v, ms) == OnMessage(before, ms[n]);
      SessionsStayNewestFirst(before, ms[..n], ms[n]);
      AnomaliesStayNewestFirst(before, ms[..n], ms[n]);
    }
  }
}
