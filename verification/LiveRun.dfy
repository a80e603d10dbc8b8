/** The objects behind the stream (api/live.py `_tick`, api/main.py `_publish` and `live_socket`)
    and the whole replication system over every run. */
module LiveRuns {
  import opened LiveStream

  class LiveRun {
    var seenSessions: map<string, Fingerprint>
    var seenEvents: set<string>
    var status: Status

    constructor (stats: string)
      ensures Model() == Server(map[], {}, Status("running", stats))
    {
      seenSessions, seenEvents, status := map[], {}, Status("running", stats);
    }

    ghost function Model(): Server
      reads this
    {
      Server(seenSessions, seenEvents, status)
    }

    /** One analysis: remember it, and return what to publish. */
    method Tick(a: Analysis) returns (batch: seq<Message>)
      modifies this
      ensures Model() == AfterTick(old(Model()), a)
      ensures IsTickBatch(old(Model()), a, batch)
    {
      ghost var before := Model();
      status := status.(stats := a.stats);
      var changed, gone := TrackSessions(a);
      var unseen, dead := TrackEvents(a.anomalies);
      batch := SessionRetractions(gone) + EventRetractions(dead)
        + SessionMessages(changed) + AnomalyMessages(unseen) + [LiveMsg(status)];
      assert batch == TickBatch(before, a, gone, dead);
    }

    /** The sessions to push and the ids to retract. */
    method TrackSessions(a: Analysis) returns (changed: seq<Row<SessionDoc>>, gone: seq<string>)
      modifies this`seenSessions
      ensures changed == Changed(old(seenSessions), a.sessions)
      ensures Enumerates(gone, GoneSessions(old(Model()), a))
      ensures seenSessions == Updated(old(seenSessions), a.sessions) - GoneSessions(old(Model()), a)
    {
      UpdatedKeys(seenSessions, a.sessions);
      changed := ScanSessions(a.sessions);
      gone := Forget(Ids(a.sessions));
    }

    /** The anomalies to announce and the ids to retract. */
    method TrackEvents(rows: seq<Row<string>>) returns (unseen: seq<Row<string>>, dead: seq<string>)
      modifies this`seenEvents
      ensures unseen == Fresh(old(seenEvents), rows)
      ensures Enumerates(dead, old(seenEvents) - Ids(rows)) && seenEvents == Ids(rows)
    {
      unseen := UnseenEvents(rows);
      dead := Listed(seenEvents - Ids(rows));
      seenEvents := Ids(rows);
    }

    method ScanSessions(rows: seq<Row<SessionDoc>>) returns (changed: seq<Row<SessionDoc>>)
      modifies this`seenSessions
      ensures seenSessions == Updated(old(seenSessions), rows)
      ensures changed == Changed(old(seenSessions), rows)
    {
      changed := [];
      var i := 0;
      while i < |rows|
        invariant 0 <= i <= |rows|
        invariant Updated(old(seenSessions), rows) == Updated(seenSessions, rows[i..])
        invariant Changed(old(seenSessions), rows) == changed + Changed(seenSessions, rows[i..])
      {
        var s := rows[i];
        assert rows[i..][0] == s && rows[i..][1..] == rows[i + 1..];
        if s.id !in seenSessions || seenSessions[s.id] != s.doc.fp {
          seenSessions := seenSessions[s.id := s.doc.fp];
          changed := changed + [s];
        } else {
          assert seenSessions[s.id := s.doc.fp] == seenSessions;
        }
        i := i + 1;
      }
    }

    /** Drop the remembered ids the newest analysis no longer has. */
    method Forget(current: set<string>) returns (gone: seq<string>)
      modifies this`seenSessions
      ensures Enumerates(gone, old(seenSessions).Keys - current)
      ensures |gone| == |old(seenSessions).Keys - current|
      ensures seenSessions == old(seenSessions) - (old(seenSessions).Keys - current)
    {
      gone := Listed(seenSessions.Keys - current);
      seenSessions := Deleted(seenSessions, gone);
    }

    method UnseenEvents(rows: seq<Row<string>>) returns (unseen: seq<Row<string>>)
      ensures unseen == Fresh(seenEvents, rows)
    {
      unseen := [];
      var i := 0;
      while i < |rows|
        invariant 0 <= i <= |rows|
        invariant Fresh(seenEvents, rows) == unseen + Fresh(seenEvents, rows[i..])
      {
        FreshStep(seenEvents, rows, i);
        if rows[i].id !in seenEvents {
          unseen := unseen + [rows[i]];
        }
        i := i + 1;
      }
    }
  }

  /** Delete the listed keys, one at a time. */
  method Deleted(seen: map<string, Fingerprint>, ids: seq<string>) returns (left: map<string, Fingerprint>)
    ensures left == seen - (set id | id in ids)
  {
    left := seen;
    var i := 0;
    while i < |ids|
      invariant 0 <= i <= |ids|
      invariant forall k :: k in left <==> k in seen && k !in ids[..i]
      invariant forall k :: k in left ==> left[k] == seen[k]
    {
      assert ids[..i + 1] == ids[..i] + [ids[i]];
      left := left - {ids[i]};
      i := i + 1;
    }
    assert ids[..i] == ids;
  }

  /** The elements of a set, each once, in some order. */
  method Listed(ids: set<string>) returns (order: seq<string>)
    ensures Enumerates(order, ids)
    ensures |order| == |ids|
  {
    order := [];
    var todo := ids;
    while todo != {}
      invariant todo <= ids
      invariant Enumerates(order, ids - todo)
      invariant |order| + |todo| == |ids|
    {
      var id :| id in todo;
      assert (set x | x in order + [id]) == (set x | x in order) + {id};
      order := order + [id];
      todo := todo - {id};
      assert ids - todo == (ids - (todo + {id})) + {id};
    }
    assert ids - {} == ids;
  }

  /** Every socket still subscribed after a batch has had the whole batch sent. */
  ghost predicate Published(before: set<nat>, sentBefore: map<nat, seq<Message>>,
                            after: set<nat>, sentAfter: map<nat, seq<Message>>, messages: seq<Message>) {
    && after <= before
    && sentAfter.Keys == sentBefore.Keys
    && forall c :: c in after && c in sentBefore ==> sentAfter[c] == sentBefore[c] + messages
  }

  /** The subscriber set and what has been sent to each socket so far. */
  class Hub {
    var subscribers: set<nat>
    var sent: map<nat, seq<Message>>

    ghost predicate Valid()
      reads this
    {
      subscribers <= sent.Keys
    }

    constructor ()
      ensures Valid() && subscribers == {}
    {
      subscribers, sent := {}, map[];
    }

    /** A new subscriber is sent the current status first. */
    method Join(socket: nat, status: Status)
      requires Valid()
      modifies this
      ensures Valid()
      ensures subscribers == old(subscribers) + {socket}
      ensures sent == old(sent)[socket := [LiveMsg(status)]]
    {
      subscribers := subscribers + {socket};
      sent := sent[socket := [LiveMsg(status)]];
    }

    /** A socket that disconnects is forgotten, whether or not a failed send did that already. */
    method Leave(socket: nat)
      requires Valid()
      modifies this`subscribers
      ensures Valid() && subscribers == old(subscribers) - {socket}
    {
      subscribers := subscribers - {socket};
    }

    method Send(c: nat, messages: seq<Message>, limit: map<nat, nat>) returns (delivered: bool)
      requires c in sent
      modifies this`sent
      ensures delivered <==> !(c in limit && limit[c] < |messages|)
      ensures sent.Keys == old(sent).Keys
      ensures sent[c] == old(sent)[c] + (if delivered then messages else messages[..limit[c]])
      ensures forall d :: d in sent && d != c ==> sent[d] == old(sent)[d]
    {
      var k := 0;
      while k < |messages| && !(c in limit && limit[c] <= k)
        invariant 0 <= k <= |messages|
        invariant c in limit ==> k <= limit[c]
        invariant sent.Keys == old(sent).Keys
        invariant sent[c] == old(sent)[c] + messages[..k]
        invariant forall d :: d in sent && d != c ==> sent[d] == old(sent)[d]
      {
        sent := sent[c := sent[c] + [messages[k]]];
        k := k + 1;
        assert messages[..k] == messages[..k - 1] + [messages[k - 1]];
      }
      assert messages[..|messages|] == messages;
      delivered := k == |messages|;
    }

    /** Send a batch to every subscriber.  `limit` says which sockets break, and after how many
        messages; those are dropped, and every other subscriber has the whole batch appended. */
    method Publish(messages: seq<Message>, limit: map<nat, nat>)
      requires Valid()
      modifies this
      ensures Valid()
      ensures sent.Keys == old(sent).Keys
      ensures forall c :: c in old(subscribers) ==>
                (c in subscribers <==> !(c in limit && limit[c] < |messages|))
      ensures Published(old(subscribers), old(sent), subscribers, sent, messages)
      ensures forall c :: c in old(subscribers) - subscribers ==> sent[c] == old(sent)[c] + messages[..limit[c]]
      ensures forall c :: c in old(sent) && c !in old(subscribers) ==> sent[c] == old(sent)[c]
    {
      if subscribers == {} || messages == [] {
        assert forall c :: c in subscribers ==> sent[c] + messages == sent[c] || subscribers == {};
        return;
      }
      var dead := {};
      var todo := subscribers;
      while todo != {}
        invariant todo <= subscribers == old(subscribers)
        invariant sent.Keys == old(sent).Keys
        invariant dead <= subscribers - todo
        invariant forall c :: c in subscribers - todo ==> (c in dead <==> c in limit && limit[c] < |messages|)
        invariant forall c :: c in subscribers - todo - dead ==> sent[c] == old(sent)[c] + messages
        invariant forall c :: c in dead ==> sent[c] == old(sent)[c] + messages[..limit[c]]
        invariant forall c :: c in old(sent) && (c !in subscribers || c in todo) ==> sent[c] == old(sent)[c]
      {
        var c :| c in todo;
        var delivered := Send(c, messages, limit);
        if !delivered {
          dead := dead + {c};
        }
        todo := todo - {c};
      }
      subscribers := subscribers - dead;
    }
  }

  // ---------------------------------------------------------------------------
  // The system: one server, any number of consoles, first-in first-out channels
  // ---------------------------------------------------------------------------

  /** A console, its undelivered messages, whether it has missed nothing of this run,
      and the rows it still shows that this run never touched. */
  datatype Client = Client(view: View, inbox: seq<Message>, complete: bool, foreign: Foreign)

  datatype System = System(server: Server, latest: Analysis, clients: map<nat, Client>)

  datatype Event =
    | Ticked(analysis: Analysis, batch: seq<Message>, dropped: set<nat>)
    | Settled(state: string, dropped: set<nat>)
    | Joined(c: nat, idle: Status)
    | Left(c: nat)
    | ClearPressed(c: nat)
    | Delivered(c: nat)

  ghost predicate Enabled(sys: System, e: Event) {
    match e
    case Ticked(a, batch, _) => IsTickBatch(sys.server, a, batch)
    case Delivered(c) => c in sys.clients && sys.clients[c].inbox != []
    case ClearPressed(c) => c in sys.clients
    case _ => true
  }

  function Sent(client: Client, batch: seq<Message>): Client {
    client.(inbox := client.inbox + batch)
  }

  function Step(sys: System, e: Event): System {
    match e
    case Ticked(a, batch, dropped) =>
      System(AfterTick(sys.server, a), a,
             map c | c in sys.clients && c !in dropped ::
               Sent(sys.clients[c], batch).(foreign := Touched(sys.clients[c].foreign, a)))
    case Settled(state, dropped) =>
      var s := sys.server.(status := sys.server.status.(state := state));
      sys.(server := s,
           clients := map c | c in sys.clients && c !in dropped :: Sent(sys.clients[c], [LiveMsg(s.status)]))
    case Joined(c, idle) =>
      var nothingToMiss := sys.server.seenSessions == map[] && sys.server.seenEvents == {};
      sys.(clients := sys.clients[c := Client(View([], [], idle), [LiveMsg(sys.server.status)],
                                              nothingToMiss, Foreign({}, {}))])
    case Left(c) => sys.(clients := sys.clients - {c})
    case ClearPressed(c) =>
      if c !in sys.clients then sys
      else
        var client := sys.clients[c];
        sys.(clients := sys.clients[c := client.(view := Cleared(client.view), complete := false)])
    case Delivered(c) =>
      if c !in sys.clients || sys.clients[c].inbox == [] then sys
      else
        var client := sys.clients[c];
        sys.(clients := sys.clients[c := client.(view := OnMessage(client.view, client.inbox[0]),
                                                 inbox := client.inbox[1..])])
  }

  // ---------------------------------------------------------------------------
  // The hub carries the system's channels
  // ---------------------------------------------------------------------------

  ghost predicate EndsWith(sent: seq<Message>, inbox: seq<Message>) {
    |inbox| <= |sent| && sent[|sent| - |inbox|..] == inbox
  }

  /** The hub's sockets are the system's consoles, and what a console has yet to receive is the end
      of what its socket was sent. */
  ghost predicate Carries(subscribers: set<nat>, sent: map<nat, seq<Message>>, sys: System) {
    && subscribers == sys.clients.Keys && subscribers <= sent.Keys
    && forall c :: c in subscribers ==> EndsWith(sent[c], sys.clients[c].inbox)
  }

  lemma SentFurther(sent: seq<Message>, inbox: seq<Message>, more: seq<Message>)
    requires EndsWith(sent, inbox)
    ensures EndsWith(sent + more, inbox + more)
  {
    var k := |sent| - |inbox|;
    assert (sent + more)[k..] == sent[k..] + more;
  }

  /** What `Publish` does with a tick's batch is a tick of the system that drops the failing sockets;
      with a status message it is a settling. */
  lemma PublishIsAnEvent(before: set<nat>, sentBefore: map<nat, seq<Message>>,
                         after: set<nat>, sentAfter: map<nat, seq<Message>>, messages: seq<Message>, sys: System)
    requires Carries(before, sentBefore, sys)
    requires Published(before, sentBefore, after, sentAfter, messages)
    ensures forall a :: Carries(after, sentAfter, Step(sys, Ticked(a, messages, before - after)))
    ensures forall state :: messages == [LiveMsg(sys.server.status.(state := state))] ==>
              Carries(after, sentAfter, Step(sys, Settled(state, before - after)))
  {
    forall c | c in after ensures EndsWith(sentAfter[c], sys.clients[c].inbox + messages) {
      SentFurther(sentBefore[c], sys.clients[c].inbox, messages);
    }
  }

  /** What `Join` does is the event that adds a console. */
  lemma JoinIsAnEvent(subscribers: set<nat>, sent: map<nat, seq<Message>>, sys: System, c: nat, idle: Status)
    requires Carries(subscribers, sent, sys)
    ensures Carries(subscribers + {c}, sent[c := [LiveMsg(sys.server.status)]], Step(sys, Joined(c, idle)))
  {
  }

  lemma LeaveIsAnEvent(subscribers: set<nat>, sent: map<nat, seq<Message>>, sys: System, c: nat)
    requires Carries(subscribers, sent, sys)
    ensures Carries(subscribers - {c}, sent, Step(sys, Left(c)))
  {
  }

  /** A console that takes its next message, or clears itself, leaves the hub as it is. */
  lemma DeliveryIsCarried(subscribers: set<nat>, sent: map<nat, seq<Message>>, sys: System, c: nat)
    requires Carries(subscribers, sent, sys)
    ensures Carries(subscribers, sent, Step(sys, Delivered(c)))
  {
    if c in sys.clients && sys.clients[c].inbox != [] {
      TakenFromFront(sent[c], sys.clients[c].inbox);
    }
  }

  lemma TakenFromFront(sent: seq<Message>, inbox: seq<Message>)
    requires EndsWith(sent, inbox) && inbox != []
    ensures EndsWith(sent, inbox[1..])
  {
    assert sent[|sent| - |inbox|..][1..] == sent[|sent| - |inbox| + 1..];
  }

  lemma ClearIsCarried(subscribers: set<nat>, sent: map<nat, seq<Message>>, sys: System, c: nat)
    requires Carries(subscribers, sent, sys)
    ensures Carries(subscribers, sent, Step(sys, ClearPressed(c)))
  {
  }

  // ---------------------------------------------------------------------------
  // Runs
  // ---------------------------------------------------------------------------

  ghost predicate ValidRun(sys: System, events: seq<Event>)
    decreases |events|
  {
    events == [] || (Enabled(sys, events[0]) && ValidRun(Step(sys, events[0]), events[1..]))
  }

  function RunAll(sys: System, events: seq<Event>): System
    decreases |events|
  {
    if events == [] then sys else RunAll(Step(sys, events[0]), events[1..])
  }

  // ---------------------------------------------------------------------------
  // The hub along a run
  // ---------------------------------------------------------------------------

  /** The hub's two fields at one moment. */
  datatype Wires = Wires(subscribers: set<nat>, sent: map<nat, seq<Message>>)

  /** What the hub's methods promise of each event's effect on its fields. */
  ghost predicate HubStep(before: Wires, after: Wires, sys: System, e: Event) {
    match e
    case Ticked(_, batch, dropped) =>
      Published(before.subscribers, before.sent, after.subscribers, after.sent, batch)
      && dropped == before.subscribers - after.subscribers
    case Settled(state, dropped) =>
      Published(before.subscribers, before.sent, after.subscribers, after.sent,
                [LiveMsg(sys.server.status.(state := state))])
      && dropped == before.subscribers - after.subscribers
    case Joined(c, _) =>
      after == Wires(before.subscribers + {c}, before.sent[c := [LiveMsg(sys.server.status)]])
    case Left(c) => after == before.(subscribers := before.subscribers - {c})
    case _ => after == before
  }

  ghost predicate HubRun(hub: seq<Wires>, sys: System, events: seq<Event>)
    requires |hub| == |events| + 1
    decreases |events|
  {
    events == []
    || (HubStep(hub[0], hub[1], sys, events[0]) && HubRun(hub[1..], Step(sys, events[0]), events[1..]))
  }

  lemma StepIsCarried(before: Wires, after: Wires, sys: System, e: Event)
    requires Carries(before.subscribers, before.sent, sys) && HubStep(before, after, sys, e)
    ensures Carries(after.subscribers, after.sent, Step(sys, e))
  {
    match e
    case Ticked(_, batch, _) =>
      PublishIsAnEvent(before.subscribers, before.sent, after.subscribers, after.sent, batch, sys);
    case Settled(state, _) =>
      var m := LiveMsg(sys.server.status.(state := state));
      PublishIsAnEvent(before.subscribers, before.sent, after.subscribers, after.sent, [m], sys);
    case Joined(c, idle) =>
      JoinIsAnEvent(before.subscribers, before.sent, sys, c, idle);
    case Left(c) =>
      LeaveIsAnEvent(before.subscribers, before.sent, sys, c);
    case ClearPressed(c) =>
      ClearIsCarried(before.subscribers, before.sent, sys, c);
    case Delivered(c) =>
      DeliveryIsCarried(before.subscribers, before.sent, sys, c);
  }

  /** Along every run the hub's sockets are the system's consoles, and each console has yet to receive
      the end of what its socket was sent. */
  lemma {:induction false} RunIsCarried(hub: seq<Wires>, sys: System, events: seq<Event>)
    requires |hub| == |events| + 1 && HubRun(hub, sys, events)
    requires Carries(hub[0].subscribers, hub[0].sent, sys)
    ensures Carries(hub[|events|].subscribers, hub[|events|].sent, RunAll(sys, events))
    decreases |events|
  {
    if events != [] {
      StepIsCarried(hub[0], hub[1], sys, events[0]);
      RunIsCarried(hub[1..], Step(sys, events[0]), events[1..]);
    }
  }

  // ---------------------------------------------------------------------------
  // Agreement along a run
  // ---------------------------------------------------------------------------

  /** A run just started: consoles that were already open hold whatever they held,
      and are sent the new run's status. */
  ghost predicate JustStarted(sys: System) {
    && sys.server.seenSessions == map[]
    && sys.server.seenEvents == {}
    && sys.latest == Analysis([], [], sys.server.status.stats)
    && forall c :: c in sys.clients ==>
         var k := sys.clients[c];
         && IdsDiffer(k.view.sessions) && IdsDiffer(k.view.anomalies)
         && k.inbox == [LiveMsg(sys.server.status)]
         && k.complete
         && k.foreign == Foreign(Ids(k.view.sessions), Ids(k.view.anomalies))
  }

  ghost predicate InStep(s: Server, k: Client) {
    var r := ReplicaOf(OnMessages(k.view, k.inbox));
    && IdsDiffer(k.view.sessions) && IdsDiffer(k.view.anomalies)
    && Within(s, r, k.foreign)
    && (k.complete ==> Agrees(s, r, k.foreign))
  }

  ghost predicate Inv(sys: System) {
    && Remembers(sys.server, sys.latest)
    && forall c :: c in sys.clients ==> InStep(sys.server, sys.clients[c])
  }

  lemma StartIsInStep(sys: System)
    requires JustStarted(sys)
    ensures Inv(sys)
  {
    forall c | c in sys.clients ensures InStep(sys.server, sys.clients[c]) {
      var k := sys.clients[c];
      OnMessagesRefines(k.view, k.inbox);
      assert k.inbox[1..] == [];
      HeldKeys(k.view.sessions);
      HeldKeys(k.view.anomalies);
    }
  }

  lemma TickKeepsClient(s: Server, a: Analysis, batch: seq<Message>, k: Client)
    requires IsTickBatch(s, a, batch) && InStep(s, k)
    ensures InStep(AfterTick(s, a), Sent(k, batch).(foreign := Touched(k.foreign, a)))
  {
    var w := OnMessages(k.view, k.inbox);
    OnMessagesAppend(k.view, k.inbox, batch);
    OnMessagesRefines(w, batch);
    BatchKeepsAgreement(s, a, batch, ReplicaOf(w), k.foreign);
  }

  lemma StatusKeepsClient(s: Server, status: Status, k: Client)
    requires InStep(s, k)
    ensures InStep(s.(status := status), Sent(k, [LiveMsg(status)]))
  {
    var w := OnMessages(k.view, k.inbox);
    OnMessagesAppend(k.view, k.inbox, [LiveMsg(status)]);
    assert [LiveMsg(status)][1..] == [];
    assert OnMessages(w, [LiveMsg(status)]) == OnMessage(w, LiveMsg(status));
    OnMessageRefines(w, LiveMsg(status));
  }

  lemma ClearKeepsClient(s: Server, k: Client)
    requires InStep(s, k)
    ensures InStep(s, k.(view := Cleared(k.view), complete := false))
  {
    OnMessagesRefines(k.view, k.inbox);
    OnMessagesRefines(Cleared(k.view), k.inbox);
    FewerRowsStayFewer(ReplicaOf(Cleared(k.view)), ReplicaOf(k.view), k.inbox);
    BelowKeepsWithin(s, ReplicaOf(OnMessages(Cleared(k.view), k.inbox)),
                     ReplicaOf(OnMessages(k.view, k.inbox)), k.foreign);
  }

  lemma JoinedIsInStep(s: Server, k: Client)
    requires k.view.sessions == [] && k.view.anomalies == [] && k.inbox == [LiveMsg(s.status)]
    requires k.foreign == Foreign({}, {}) && (k.complete ==> s.seenSessions == map[] && s.seenEvents == {})
    ensures InStep(s, k)
  {
    assert k.inbox[1..] == [];
    OnMessagesRefines(k.view, k.inbox);
    assert OnMessages(k.view, k.inbox) == OnMessage(k.view, k.inbox[0]);
  }

  lemma StepKeepsInv(sys: System, e: Event)
    requires Inv(sys) && Enabled(sys, e)
    ensures Inv(Step(sys, e))
  {
    var sys' := Step(sys, e);
    match e {
      case Ticked(a, batch, _) =>
        TickRemembers(sys.server, a);
        forall c | c in sys'.clients ensures InStep(sys'.server, sys'.clients[c]) {
          TickKeepsClient(sys.server, a, batch, sys.clients[c]);
        }
      case Settled(state, _) =>
        forall c | c in sys'.clients ensures InStep(sys'.server, sys'.clients[c]) {
          StatusKeepsClient(sys.server, sys'.server.status, sys.clients[c]);
        }
      case Joined(c, idle) =>
        JoinedIsInStep(sys.server, sys'.clients[c]);
      case Left(_) =>
      case ClearPressed(c) =>
        ClearKeepsClient(sys.server, sys.clients[c]);
      case Delivered(c) =>
        var k := sys.clients[c];
        OnMessageRefines(k.view, k.inbox[0]);
    }
  }

  lemma {:induction false} RunKeepsInv(sys: System, events: seq<Event>)
    requires Inv(sys) && ValidRun(sys, events)
    ensures Inv(RunAll(sys, events))
    decreases |events|
  {
    if events != [] {
      StepKeepsInv(sys, events[0]);
      RunKeepsInv(Step(sys, events[0]), events[1..]);
    }
  }

  /** Main result.  In every run, a console whose channel is drained shows each id once; it shows
      no id the latest analysis lacks (save rows this run never touched), always with the latest
      fingerprint and status; and one that missed nothing shows every id. */
  lemma ConsoleShowsLatestAnalysis(sys: System, events: seq<Event>, c: nat)
    requires JustStarted(sys) && ValidRun(sys, events)
    requires c in RunAll(sys, events).clients
    requires RunAll(sys, events).clients[c].inbox == []
    ensures var end := RunAll(sys, events);
            var k := end.clients[c];
            var held := Held(k.view.sessions);
            && IdsDiffer(k.view.sessions) && IdsDiffer(k.view.anomalies)
            && Ids(k.view.sessions) <= Ids(end.latest.sessions) + k.foreign.sessions
            && Ids(k.view.anomalies) <= Ids(end.latest.anomalies) + k.foreign.anomalies
            && (forall id :: id in held && id in Ids(end.latest.sessions) ==>
                  held[id].fp == LastOf(end.latest.sessions, id).fp)
            && k.view.status == end.server.status
            && (k.complete ==>
                  && Ids(k.view.sessions) == Ids(end.latest.sessions) + k.foreign.sessions
                  && Ids(k.view.anomalies) == Ids(end.latest.anomalies) + k.foreign.anomalies)
            && k.foreign.sessions !! Ids(end.latest.sessions)
            && k.foreign.anomalies !! Ids(end.latest.anomalies)
  {
    StartIsInStep(sys);
    RunKeepsInv(sys, events);
    var k := RunAll(sys, events).clients[c];
    assert InStep(RunAll(sys, events).server, k);
    HeldKeys(k.view.sessions);
    HeldKeys(k.view.anomalies);
  }

  /** Consoles that open empty never acquire foreign rows, so theirs are exactly the latest ids. */
  lemma {:induction false} EmptyConsolesHaveNoForeignRows(sys: System, events: seq<Event>)
    requires ValidRun(sys, events)
    requires forall c :: c in sys.clients ==> sys.clients[c].foreign == Foreign({}, {})
    ensures forall c :: c in RunAll(sys, events).clients ==> RunAll(sys, events).clients[c].foreign == Foreign({}, {})
    decreases |events|
  {
    if events != [] {
      EmptyConsolesHaveNoForeignRows(Step(sys, events[0]), events[1..]);
    }
  }

  // ---------------------------------------------------------------------------
  // The status along a run
  // ---------------------------------------------------------------------------

  /** The state of the last settling, or `start`. */
  function StateAfter(events: seq<Event>, start: string): string {
    if events == [] then start
    else
      var n := |events| - 1;
      if events[n].Settled? then events[n].state else StateAfter(events[..n], start)
  }

  /** The statistics of the last analysis, or `start`. */
  function StatsAfter(events: seq<Event>, start: string): string {
    if events == [] then start
    else
      var n := |events| - 1;
      if events[n].Ticked? then events[n].analysis.stats else StatsAfter(events[..n], start)
  }

  lemma {:induction false} RunSnoc(sys: System, events: seq<Event>)
    requires events != []
    ensures RunAll(sys, events) == Step(RunAll(sys, events[..|events| - 1]), events[|events| - 1])
    decreases |events|
  {
    var n := |events| - 1;
    if n > 0 {
      RunSnoc(Step(sys, events[0]), events[1..]);
      assert events[1..][..n - 1] == events[..n][1..];
    }
  }

  lemma StepStatus(sys: System, e: Event)
    ensures var after := Step(sys, e).server.status;
            && after.state == (if e.Settled? then e.state else sys.server.status.state)
            && after.stats == (if e.Ticked? then e.analysis.stats else sys.server.status.stats)
  {
  }

  lemma {:induction false} ServerStatus(sys: System, events: seq<Event>)
    ensures RunAll(sys, events).server.status ==
            Status(StateAfter(events, sys.server.status.state), StatsAfter(events, sys.server.status.stats))
    decreases |events|
  {
    if events != [] {
      var n := |events| - 1;
      RunSnoc(sys, events);
      ServerStatus(sys, events[..n]);
      StepStatus(RunAll(sys, events[..n]), events[n]);
    }
  }

  /** Main result on the status.  In every run a drained console reads the state of the last settling,
      or the starting state when none has happened, beside the statistics of the last analysis. */
  lemma ConsoleShowsLastStatus(sys: System, events: seq<Event>, c: nat)
    requires JustStarted(sys) && ValidRun(sys, events)
    requires c in RunAll(sys, events).clients && RunAll(sys, events).clients[c].inbox == []
    ensures RunAll(sys, events).clients[c].view.status ==
            Status(StateAfter(events, sys.server.status.state), StatsAfter(events, sys.server.status.stats))
  {
    ConsoleShowsLatestAnalysis(sys, events, c);
    ServerStatus(sys, events);
  }

  // ---------------------------------------------------------------------------
  // Which consoles have missed nothing
  // ---------------------------------------------------------------------------

  ghost predicate Touches(e: Event, c: nat) {
    e == ClearPressed(c) || e == Left(c) || (e.Joined? && e.c == c)
  }

  /** A console that is not cleared, closed or opened meanwhile keeps having missed nothing, or not. */
  lemma {:induction false} CompletenessStays(sys: System, events: seq<Event>, c: nat)
    requires c in sys.clients && c in RunAll(sys, events).clients
    requires forall e :: e in events ==> !Touches(e, c)
    ensures RunAll(sys, events).clients[c].complete == sys.clients[c].complete
    decreases |events|
  {
    if events != [] {
      assert events[0] in events && forall e :: e in events[1..] ==> e in events;
      if c in Step(sys, events[0]).clients {
        CompletenessStays(Step(sys, events[0]), events[1..], c);
      } else {
        GoneStaysGone(Step(sys, events[0]), events[1..], c);
      }
    }
  }

  lemma {:induction false} GoneStaysGone(sys: System, events: seq<Event>, c: nat)
    requires c !in sys.clients && forall e :: e in events ==> !Touches(e, c)
    ensures c !in RunAll(sys, events).clients
    decreases |events|
  {
    if events != [] {
      assert events[0] in events && forall e :: e in events[1..] ==> e in events;
      GoneStaysGone(Step(sys, events[0]), events[1..], c);
    }
  }

  /** A console that opens while the server remembers nothing has missed nothing; clearing one makes it miss
      what it held. */
  lemma OpeningAndClearing(sys: System, c: nat, idle: Status)
    ensures var console := Step(sys, Joined(c, idle)).clients[c];
            && (console.complete <==> sys.server.seenSessions == map[] && sys.server.seenEvents == {})
            && console.view == View([], [], idle) && console.inbox == [LiveMsg(sys.server.status)]
    ensures c in sys.clients ==>
              var cleared := Step(sys, ClearPressed(c)).clients[c];
              && !cleared.complete && cleared.inbox == sys.clients[c].inbox
              && cleared.view == View([], [], sys.clients[c].view.status)
  {
  }
}
