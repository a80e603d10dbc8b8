/** The job store of api/store.py: saving, re-saving and deleting jobs, the audit entry each
    save appends, and verification of the chain and of the stored rows.  A transaction is one
    atomic step; the clock and the capture file's hash are inputs of a save. */
module JobStores {
  import opened AuditChain
  import opened Sorting
  import opened Wrappers

  datatype Doc = Doc(id: string, text: string)

  datatype Save = Save(job: string, sessions: seq<Doc>, events: seq<Doc>, stats: string,
                       recordedAt: string, capture: Option<string>)

  /** A table keyed on (job id, row id). */
  type Rows = map<(string, string), string>

  datatype DB = DB(jobs: map<string, string>, sessions: Rows, events: Rows, log: seq<Entry>)

  const EMPTY := DB(map[], map[], map[], [])

  function DocIds(docs: seq<Doc>): seq<string> {
    Mapped((d: Doc) => d.id, docs)
  }

  function Texts(docs: seq<Doc>): seq<string> {
    Mapped((d: Doc) => d.text, docs)
  }

  ghost function IdSet(docs: seq<Doc>): set<string> {
    set id | id in DocIds(docs)
  }

  // ---------------------------------------------------------------------------
  // Operations on values
  // ---------------------------------------------------------------------------

  function Inserted(rows: Rows, job: string, docs: seq<Doc>): Rows
    decreases |docs|
  {
    if docs == [] then rows
    else Inserted(rows[(job, docs[0].id) := docs[0].text], job, docs[1..])
  }

  function WithoutJob(rows: Rows, job: string): Rows {
    map k | k in rows && k.0 != job :: rows[k]
  }

  /** Each job's newest committed digest. */
  function Latest(log: seq<Entry>): map<string, string> {
    if log == [] then map[]
    else var n := |log| - 1; Latest(log[..n])[log[n].jobId := log[n].analysis]
  }

  function NewEntry(c: Crypto, log: seq<Entry>, s: Save, digest: string): Entry {
    var number := if log == [] then 1 else log[|log| - 1].number + 1;
    var e := Entry(number, s.job, s.recordedAt, digest, s.capture, Head(log), "");
    e.(hash := EntryHash(c, e, Head(log)))
  }

  function Appended(c: Crypto, log: seq<Entry>, s: Save, digest: string): seq<Entry> {
    if s.job in Latest(log) && Latest(log)[s.job] == digest then log
    else log + [NewEntry(c, log, s, digest)]
  }

  function SaveDigest(c: Crypto, s: Save): string {
    Digest(c, Texts(s.sessions), Texts(s.events), s.stats)
  }

  function SaveTo(c: Crypto, db: DB, s: Save): DB {
    DB(db.jobs[s.job := s.stats],
       Inserted(WithoutJob(db.sessions, s.job), s.job, s.sessions),
       Inserted(WithoutJob(db.events, s.job), s.job, s.events),
       Appended(c, db.log, s, SaveDigest(c, s)))
  }

  function DeleteFrom(db: DB, job: string): DB {
    DB(db.jobs - {job}, WithoutJob(db.sessions, job), WithoutJob(db.events, job), db.log)
  }

  // ---------------------------------------------------------------------------
  // Reading a job's rows back, in whatever order the table yields them
  // ---------------------------------------------------------------------------

  ghost function JobKeys(rows: Rows, job: string): set<string> {
    set k | k in rows && k.0 == job :: k.1
  }

  function Cell(rows: Rows, job: string): string -> string {
    id => if (job, id) in rows then rows[(job, id)] else ""
  }

  ghost predicate ListsAs(keys: seq<string>, texts: seq<string>, rows: Rows, job: string) {
    && Distinct(keys)
    && (set id | id in keys) == JobKeys(rows, job)
    && texts == Mapped(Cell(rows, job), keys)
  }

  ghost predicate Lists(texts: seq<string>, rows: Rows, job: string) {
    exists keys :: ListsAs(keys, texts, rows, job)
  }

  lemma ListingsAgree(a: seq<string>, b: seq<string>, rows: Rows, job: string)
    requires Lists(a, rows, job) && Lists(b, rows, job)
    ensures multiset(a) == multiset(b)
  {
    var ka :| ListsAs(ka, a, rows, job);
    var kb :| ListsAs(kb, b, rows, job);
    SameElementsSameMultiset(ka, kb);
    MappedMultiset(Cell(rows, job), ka, kb);
  }

  ghost predicate Untampered(c: Crypto, db: DB, job: string, digest: string)
    requires job in db.jobs
  {
    exists s, e :: Lists(s, db.sessions, job) && Lists(e, db.events, job)
                   && Digest(c, s, e, db.jobs[job]) == digest
  }

  /** The live jobs whose rows no longer give their newest committed digest. */
  ghost function Tampered(c: Crypto, db: DB): set<string> {
    set job | job in Latest(db.log) && job in db.jobs && !Untampered(c, db, job, Latest(db.log)[job])
  }

  /** What verification reports as `ok`. */
  ghost predicate Verifies(c: Crypto, db: DB) {
    BrokenAt(c, db.log) == None && Tampered(c, db) == {}
  }

  // ---------------------------------------------------------------------------
  // The store object
  // ---------------------------------------------------------------------------

  datatype Report = Report(ok: bool, entries: nat, headHash: string, brokenAt: Option<nat>, tampered: set<string>)

  class JobStore {
    var jobs: map<string, string>
    var sessionRows: Rows
    var eventRows: Rows
    var log: seq<Entry>

    constructor ()
      ensures Model() == EMPTY
    {
      jobs, sessionRows, eventRows, log := map[], map[], map[], [];
    }

    ghost function Model(): DB
      reads this
    {
      DB(jobs, sessionRows, eventRows, log)
    }

    method SaveAnalysis(c: Crypto, s: Save)
      modifies this
      ensures Model() == SaveTo(c, old(Model()), s)
    {
      jobs := jobs[s.job := s.stats];
      sessionRows := WithoutJob(sessionRows, s.job);
      eventRows := WithoutJob(eventRows, s.job);
      sessionRows := InsertOrReplace(sessionRows, s.job, s.sessions);
      eventRows := InsertOrReplace(eventRows, s.job, s.events);
      AppendAudit(c, s, Digest(c, Texts(s.sessions), Texts(s.events), s.stats));
    }

    /** The early return leaves the log alone when the job's newest digest is the same. */
    method AppendAudit(c: Crypto, s: Save, digest: string)
      modifies this`log
      ensures log == Appended(c, old(log), s, digest)
    {
      var last := Latest(log);
      if s.job in last && last[s.job] == digest {
        return;
      }
      var number, prev := 1, GENESIS;
      if log != [] {
        number, prev := log[|log| - 1].number + 1, log[|log| - 1].hash;
      }
      var e := Entry(number, s.job, s.recordedAt, digest, s.capture, prev, "");
      log := log + [e.(hash := EntryHash(c, e, prev))];
    }

    method DeleteJob(job: string) returns (deleted: bool)
      modifies this
      ensures Model() == DeleteFrom(old(Model()), job)
      ensures deleted <==> job in old(jobs)
    {
      deleted := job in jobs;
      jobs := jobs - {job};
      sessionRows := WithoutJob(sessionRows, job);
      eventRows := WithoutJob(eventRows, job);
    }

    /** Recompute every link, then each live job's digest from its stored rows. */
    method VerifyAuditChain(c: Crypto) returns (r: Report)
      ensures r.ok <==> Verifies(c, Model())
      ensures r.entries == |log| && r.headHash == Head(log)
      ensures r.brokenAt == BrokenAt(c, log)
      ensures r.tampered == Tampered(c, Model())
    {
      var brokenAt := CheckLinks(c);
      var tampered := FindTampered(c);
      var head := if log == [] then GENESIS else log[|log| - 1].hash;
      r := Report(brokenAt == None && tampered == {}, |log|, head, brokenAt, tampered);
    }

    method FindTampered(c: Crypto) returns (tampered: set<string>)
      ensures tampered == Tampered(c, Model())
    {
      var latest := Latest(log);
      var todo := latest.Keys;
      tampered := {};
      while todo != {}
        invariant todo <= latest.Keys
        invariant tampered == Tampered(c, Model()) - todo
      {
        var job :| job in todo;
        todo := todo - {job};
        if job in jobs {
          var sessions := Column(sessionRows, job);
          var events := Column(eventRows, job);
          DigestOfAnyListing(c, Model(), job, sessions, events, latest[job]);
          if Digest(c, sessions, events, jobs[job]) != latest[job] {
            tampered := tampered + {job};
          }
        }
      }
    }

    static method LinkChecks(c: Crypto, e: Entry, prev: string) returns (holds: bool)
      ensures holds == LinkHolds(c, e, prev)
    {
      holds := !(e.prev != prev || e.hash != EntryHash(c, e, prev));
    }

    method CheckLinks(c: Crypto) returns (brokenAt: Option<nat>)
      ensures brokenAt == BrokenAt(c, log)
    {
      var prev := GENESIS;
      brokenAt := None;
      var i := 0;
      while i < |log|
        invariant 0 <= i <= |log|
        invariant prev == HashBefore(log, i)
        invariant FirstBroken(c, log, 0) == FirstBroken(c, log, i)
        invariant brokenAt == None
      {
        var holds := LinkChecks(c, log[i], prev);
        if !holds {
          brokenAt := Some(log[i].number);
          return;
        }
        prev := log[i].hash;
        i := i + 1;
      }
    }
  }

  method InsertOrReplace(rows: Rows, job: string, docs: seq<Doc>) returns (r: Rows)
    ensures r == Inserted(rows, job, docs)
  {
    r := rows;
    var i := 0;
    while i < |docs|
      invariant 0 <= i <= |docs|
      invariant Inserted(rows, job, docs) == Inserted(r, job, docs[i..])
    {
      assert docs[i..][0] == docs[i] && docs[i..][1..] == docs[i + 1..];
      r := r[(job, docs[i].id) := docs[i].text];
      i := i + 1;
    }
  }

  /** One column of a job's rows. */
  method Column(rows: Rows, job: string) returns (texts: seq<string>)
    ensures Lists(texts, rows, job)
  {
    texts := [];
    var todo := set k | k in rows && k.0 == job :: k.1;
    ghost var keys: seq<string> := [];
    while todo != {}
      invariant todo <= JobKeys(rows, job)
      invariant Distinct(keys)
      invariant (set id | id in keys) == JobKeys(rows, job) - todo
      invariant texts == Mapped(Cell(rows, job), keys)
    {
      var id :| id in todo;
      assert (job, id) in rows;
      assert id !in (set x | x in keys);
      texts := texts + [rows[(job, id)]];
      assert (set x | x in keys + [id]) == (set x | x in keys) + {id};
      keys := keys + [id];
      todo := todo - {id};
    }
    assert ListsAs(keys, texts, rows, job);
  }

  lemma DigestOfAnyListing(c: Crypto, db: DB, job: string, s: seq<string>, e: seq<string>, digest: string)
    requires job in db.jobs && Lists(s, db.sessions, job) && Lists(e, db.events, job)
    ensures Untampered(c, db, job, digest) <==> Digest(c, s, e, db.jobs[job]) == digest
  {
    if Untampered(c, db, job, digest) {
      var s', e' :| Lists(s', db.sessions, job) && Lists(e', db.events, job)
                    && Digest(c, s', e', db.jobs[job]) == digest;
      ListingsAgree(s, s', db.sessions, job);
      ListingsAgree(e, e', db.events, job);
      DigestForgetsOrder(c, s, s', e, e', db.jobs[job]);
    }
  }

  // ---------------------------------------------------------------------------
  // Histories
  // ---------------------------------------------------------------------------

  datatype Op = SaveOp(save: Save) | DeleteOp(job: string)

  function ApplyOp(c: Crypto, db: DB, op: Op): DB {
    match op
    case SaveOp(s) => SaveTo(c, db, s)
    case DeleteOp(job) => DeleteFrom(db, job)
  }

  function RunOps(c: Crypto, db: DB, ops: seq<Op>): DB
    decreases |ops|
  {
    if ops == [] then db else RunOps(c, ApplyOp(c, db, ops[0]), ops[1..])
  }

  /** The last save of every job that still exists. */
  function SavedBy(saved: map<string, Save>, ops: seq<Op>): map<string, Save>
    decreases |ops|
  {
    if ops == [] then saved
    else match ops[0]
      case SaveOp(s) => SavedBy(saved[s.job := s], ops[1..])
      case DeleteOp(job) => SavedBy(saved - {job}, ops[1..])
  }

  ghost predicate DistinctIds(s: Save) {
    Distinct(DocIds(s.sessions)) && Distinct(DocIds(s.events))
  }

  /** The rows of one job are the documents of its last save, later ones winning. */
  ghost predicate HoldsDocs(rows: Rows, job: string, docs: seq<Doc>) {
    && JobKeys(rows, job) == IdSet(docs)
    && forall i :: 0 <= i < |docs| && Unrepeated(docs, i) ==>
        (job, docs[i].id) in rows && rows[(job, docs[i].id)] == docs[i].text
  }

  ghost predicate Unrepeated(docs: seq<Doc>, i: nat)
    requires i < |docs|
  {
    forall j :: i < j < |docs| ==> docs[j].id != docs[i].id
  }

  lemma {:induction false} InsertedHolds(rows: Rows, job: string, docs: seq<Doc>)
    ensures JobKeys(Inserted(rows, job, docs), job) == JobKeys(rows, job) + IdSet(docs)
    ensures forall k :: k in rows && (k.0 != job || k.1 !in IdSet(docs)) ==>
              k in Inserted(rows, job, docs) && Inserted(rows, job, docs)[k] == rows[k]
    ensures forall k :: k in Inserted(rows, job, docs) && k.0 != job ==> k in rows
    ensures forall i :: 0 <= i < |docs| && Unrepeated(docs, i) ==>
              && (job, docs[i].id) in Inserted(rows, job, docs)
              && Inserted(rows, job, docs)[(job, docs[i].id)] == docs[i].text
    decreases |docs|
  {
    if docs == [] {
      assert IdSet(docs) == {};
    } else {
      var d := docs[0];
      var rows' := rows[(job, d.id) := d.text];
      assert JobKeys(rows', job) == JobKeys(rows, job) + {d.id} by {
        assert (job, d.id) in rows';
        forall id | id in JobKeys(rows, job) ensures id in JobKeys(rows', job) {
          assert (job, id) in rows';
        }
      }
      InsertedHolds(rows', job, docs[1..]);
      IdSetCons(docs);
      forall i | 0 <= i < |docs| && Unrepeated(docs, i)
        ensures (job, docs[i].id) in Inserted(rows, job, docs)
        ensures Inserted(rows, job, docs)[(job, docs[i].id)] == docs[i].text
      {
        if i > 0 {
          assert docs[1..][i - 1] == docs[i];
          assert Unrepeated(docs[1..], i - 1);
        } else {
          forall j | 0 <= j < |docs[1..]| ensures DocIds(docs[1..])[j] != d.id {
            assert docs[1..][j] == docs[j + 1];
          }
        }
      }
    }
  }

  lemma IdSetCons(docs: seq<Doc>)
    requires docs != []
    ensures IdSet(docs) == {docs[0].id} + IdSet(docs[1..])
  {
    assert DocIds(docs) == [docs[0].id] + DocIds(docs[1..]);
  }

  lemma ReplacedHolds(rows: Rows, job: string, docs: seq<Doc>)
    ensures HoldsDocs(Inserted(WithoutJob(rows, job), job, docs), job, docs)
    ensures forall other :: other != job ==> SameRows(rows, Inserted(WithoutJob(rows, job), job, docs), other)
  {
    var left := WithoutJob(rows, job);
    InsertedHolds(left, job, docs);
    assert JobKeys(left, job) == {};
    var rows' := Inserted(left, job, docs);
    forall other | other != job ensures SameRows(rows, rows', other) {
      forall id: string ensures (other, id) in rows <==> (other, id) in rows' {
        assert (other, id) in rows <==> (other, id) in left;
      }
    }
  }

  ghost predicate SameRows(rows: Rows, rows': Rows, job: string) {
    && (forall id: string :: (job, id) in rows <==> (job, id) in rows')
    && (forall id: string :: (job, id) in rows && (job, id) in rows' ==> rows[(job, id)] == rows'[(job, id)])
  }

  lemma SameRowsHold(rows: Rows, rows': Rows, job: string, docs: seq<Doc>)
    requires SameRows(rows, rows', job) && HoldsDocs(rows, job, docs)
    ensures HoldsDocs(rows', job, docs)
  {
    forall id ensures id in JobKeys(rows, job) <==> id in JobKeys(rows', job) {
      assert id in JobKeys(rows, job) <==> (job, id) in rows;
      assert id in JobKeys(rows', job) <==> (job, id) in rows';
    }
  }

  /** A job's rows read back as its last save's documents exactly when no id repeated. */
  lemma ReadBack(rows: Rows, job: string, docs: seq<Doc>, texts: seq<string>)
    requires HoldsDocs(rows, job, docs) && Lists(texts, rows, job)
    ensures Distinct(DocIds(docs)) ==> multiset(texts) == multiset(Texts(docs))
    ensures !Distinct(DocIds(docs)) ==> |texts| < |docs|
  {
    var ids := DocIds(docs);
    var keys :| ListsAs(keys, texts, rows, job);
    if Distinct(ids) {
      forall i | 0 <= i < |docs| ensures Cell(rows, job)(ids[i]) == docs[i].text {
        assert Unrepeated(docs, i) by {
          forall j | i < j < |docs| ensures docs[j].id != docs[i].id {
            assert ids[i] != ids[j];
          }
        }
      }
      assert Mapped(Cell(rows, job), ids) == Texts(docs);
      assert ListsAs(ids, Texts(docs), rows, job);
      ListingsAgree(texts, Texts(docs), rows, job);
    } else {
      DistinctIff(ids);
      DistinctIff(keys);
    }
  }

  ghost predicate JobMatches(c: Crypto, db: DB, job: string, s: Save)
  {
    && job in db.jobs && db.jobs[job] == s.stats
    && HoldsDocs(db.sessions, job, s.sessions)
    && HoldsDocs(db.events, job, s.events)
    && job in Latest(db.log) && Latest(db.log)[job] == SaveDigest(c, s)
  }

  ghost predicate Matches(c: Crypto, db: DB, saved: map<string, Save>) {
    && Linked(c, db.log)
    && db.jobs.Keys == saved.Keys
    && forall job :: job in saved ==> JobMatches(c, db, job, saved[job])
  }

  lemma AppendKeepsChain(c: Crypto, log: seq<Entry>, s: Save, digest: string)
    requires Linked(c, log)
    ensures Linked(c, Appended(c, log, s, digest))
    ensures Latest(Appended(c, log, s, digest)) == Latest(log)[s.job := digest]
  {
    if !(s.job in Latest(log) && Latest(log)[s.job] == digest) {
      var e := NewEntry(c, log, s, digest);
      LinkedSnoc(c, log, e);
      assert (log + [e])[..|log|] == log;
    }
  }

  lemma JobKept(c: Crypto, db: DB, db': DB, job: string, s: Save)
    requires JobMatches(c, db, job, s)
    requires SameRows(db.sessions, db'.sessions, job) && SameRows(db.events, db'.events, job)
    requires job in db'.jobs && db'.jobs[job] == db.jobs[job]
    requires job in Latest(db'.log) && Latest(db'.log)[job] == Latest(db.log)[job]
    ensures JobMatches(c, db', job, s)
  {
    SameRowsHold(db.sessions, db'.sessions, job, s.sessions);
    SameRowsHold(db.events, db'.events, job, s.events);
  }

  lemma SavedJobMatches(c: Crypto, db: DB, s: Save)
    requires Linked(c, db.log)
    ensures JobMatches(c, SaveTo(c, db, s), s.job, s)
  {
    AppendKeepsChain(c, db.log, s, SaveDigest(c, s));
    ReplacedHolds(db.sessions, s.job, s.sessions);
    ReplacedHolds(db.events, s.job, s.events);
  }

  lemma OtherJobKept(c: Crypto, db: DB, s: Save, job: string, t: Save)
    requires Linked(c, db.log) && job != s.job && JobMatches(c, db, job, t)
    ensures JobMatches(c, SaveTo(c, db, s), job, t)
  {
    AppendKeepsChain(c, db.log, s, SaveDigest(c, s));
    ReplacedHolds(db.sessions, s.job, s.sessions);
    ReplacedHolds(db.events, s.job, s.events);
    JobKept(c, db, SaveTo(c, db, s), job, t);
  }

  lemma SaveMatches(c: Crypto, db: DB, saved: map<string, Save>, s: Save)
    requires Matches(c, db, saved)
    ensures Matches(c, SaveTo(c, db, s), saved[s.job := s])
  {
    AppendKeepsChain(c, db.log, s, SaveDigest(c, s));
    SavedJobMatches(c, db, s);
    var saved' := saved[s.job := s];
    forall job | job in saved' ensures JobMatches(c, SaveTo(c, db, s), job, saved'[job]) {
      if job != s.job {
        OtherJobKept(c, db, s, job, saved[job]);
      }
    }
  }

  lemma OthersKeptByDelete(c: Crypto, db: DB, gone: string, job: string, t: Save)
    requires job != gone && JobMatches(c, db, job, t)
    ensures JobMatches(c, DeleteFrom(db, gone), job, t)
  {
    var db' := DeleteFrom(db, gone);
    assert SameRows(db.sessions, db'.sessions, job);
    assert SameRows(db.events, db'.events, job);
    JobKept(c, db, db', job, t);
  }

  lemma DeleteMatches(c: Crypto, db: DB, saved: map<string, Save>, gone: string)
    requires Matches(c, db, saved)
    ensures Matches(c, DeleteFrom(db, gone), saved - {gone})
  {
    forall job | job in saved - {gone} ensures JobMatches(c, DeleteFrom(db, gone), job, (saved - {gone})[job]) {
      OthersKeptByDelete(c, db, gone, job, saved[job]);
    }
  }

  lemma {:induction false} HistoryMatches(c: Crypto, db: DB, saved: map<string, Save>, ops: seq<Op>)
    requires Matches(c, db, saved)
    ensures Matches(c, RunOps(c, db, ops), SavedBy(saved, ops))
    decreases |ops|
  {
    if ops != [] {
      match ops[0] {
        case SaveOp(s) =>
          SaveMatches(c, db, saved, s);
          HistoryMatches(c, SaveTo(c, db, s), saved[s.job := s], ops[1..]);
        case DeleteOp(job) =>
          DeleteMatches(c, db, saved, job);
          HistoryMatches(c, DeleteFrom(db, job), saved - {job}, ops[1..]);
      }
    }
  }

  lemma ListingExists(rows: Rows, job: string) returns (texts: seq<string>)
    ensures Lists(texts, rows, job)
  {
    var keys := Enumerated(JobKeys(rows, job));
    texts := Mapped(Cell(rows, job), keys);
    assert ListsAs(keys, texts, rows, job);
  }

  ghost function Enumerated(ids: set<string>): (order: seq<string>)
    ensures Distinct(order) && (set id | id in order) == ids
  {
    if ids == {} then []
    else
      var id :| id in ids;
      var rest := Enumerated(ids - {id});
      assert id !in (set x | x in rest);
      assert (set x | x in [id] + rest) == {id} + (set x | x in rest);
      [id] + rest
  }

  /** One live job: its rows give its newest digest if and only if its last save repeated no id. */
  lemma UntamperedIffDistinct(c: Crypto, db: DB, job: string, s: Save)
    requires JobMatches(c, db, job, s)
    ensures DistinctIds(s) ==> Untampered(c, db, job, Latest(db.log)[job])
    ensures CollisionFree(c) && JsonInjective(c) && Untampered(c, db, job, Latest(db.log)[job]) ==> DistinctIds(s)
  {
    var x := ListingExists(db.sessions, job);
    var y := ListingExists(db.events, job);
    DigestOfAnyListing(c, db, job, x, y, Latest(db.log)[job]);
    ReadBack(db.sessions, job, s.sessions, x);
    ReadBack(db.events, job, s.events, y);
    if DistinctIds(s) {
      DigestForgetsOrder(c, x, Texts(s.sessions), y, Texts(s.events), s.stats);
    }
    if CollisionFree(c) && JsonInjective(c) && Untampered(c, db, job, Latest(db.log)[job]) {
      DigestCommits(c, x, Texts(s.sessions), y, Texts(s.events), s.stats, s.stats);
      assert |multiset(x)| == |multiset(Texts(s.sessions))| && |multiset(y)| == |multiset(Texts(s.events))|;
    }
  }

  /** What the digest is for: whatever has been done to a live job's rows and statistics, they give the
      digest of a save if and only if they are the documents and the statistics of that save. */
  lemma UntamperedIffSame(c: Crypto, db: DB, job: string, s: Save, x: seq<string>, y: seq<string>)
    requires CollisionFree(c) && JsonInjective(c) && job in db.jobs
    requires Lists(x, db.sessions, job) && Lists(y, db.events, job)
    ensures Untampered(c, db, job, SaveDigest(c, s)) <==>
            && multiset(x) == multiset(Texts(s.sessions))
            && multiset(y) == multiset(Texts(s.events))
            && db.jobs[job] == s.stats
  {
    DigestOfAnyListing(c, db, job, x, y, SaveDigest(c, s));
    if Untampered(c, db, job, SaveDigest(c, s)) {
      DigestCommits(c, x, Texts(s.sessions), y, Texts(s.events), db.jobs[job], s.stats);
    } else if multiset(x) == multiset(Texts(s.sessions)) && multiset(y) == multiset(Texts(s.events)) {
      DigestForgetsOrder(c, x, Texts(s.sessions), y, Texts(s.events), s.stats);
    }
  }

  /** After any history, editing a live job's rows or statistics is reported, and nothing else about
      that job is: whatever tables the log is found beside, a job it logged reads as tampered exactly
      when they differ from its last save. */
  lemma EditIsReported(c: Crypto, ops: seq<Op>, db: DB, job: string, x: seq<string>, y: seq<string>)
    requires CollisionFree(c) && JsonInjective(c)
    requires db.log == RunOps(c, EMPTY, ops).log && job in SavedBy(map[], ops) && job in db.jobs
    requires Lists(x, db.sessions, job) && Lists(y, db.events, job)
    ensures var s := SavedBy(map[], ops)[job];
            job !in Tampered(c, db) <==>
            && multiset(x) == multiset(Texts(s.sessions))
            && multiset(y) == multiset(Texts(s.events))
            && db.jobs[job] == s.stats
  {
    HistoryMatches(c, EMPTY, map[], ops);
    var s := SavedBy(map[], ops)[job];
    assert JobMatches(c, RunOps(c, EMPTY, ops), job, s);
    UntamperedIffSame(c, db, job, s, x, y);
  }

  /** Main result.  From the empty store, after any sequence of saves, re-saves, deletes and
      re-creations, verification reports ok whenever the last save of every live job has
      distinct session ids and distinct anomaly ids; without hash collisions, only then. */
  lemma VerifiesIffDistinct(c: Crypto, ops: seq<Op>)
    ensures (forall job :: job in SavedBy(map[], ops) ==> DistinctIds(SavedBy(map[], ops)[job])) ==>
              Verifies(c, RunOps(c, EMPTY, ops))
    ensures CollisionFree(c) && JsonInjective(c) && Verifies(c, RunOps(c, EMPTY, ops)) ==>
              forall job :: job in SavedBy(map[], ops) ==> DistinctIds(SavedBy(map[], ops)[job])
  {
    var db, saved := RunOps(c, EMPTY, ops), SavedBy(map[], ops);
    HistoryMatches(c, EMPTY, map[], ops);
    LinkedIffNoneBroken(c, db.log);
    forall job | job in saved
      ensures DistinctIds(saved[job]) ==> job !in Tampered(c, db)
      ensures CollisionFree(c) && JsonInjective(c) && job !in Tampered(c, db) ==> DistinctIds(saved[job])
    {
      UntamperedIffDistinct(c, db, job, saved[job]);
    }
    if forall job :: job in saved ==> DistinctIds(saved[job]) {
      assert Tampered(c, db) == {};
    }
    if CollisionFree(c) && JsonInjective(c) && Verifies(c, db) {
      forall job | job in saved ensures DistinctIds(saved[job]) {
        assert job !in Tampered(c, db);
      }
    }
  }

  // ---------------------------------------------------------------------------
  // The log of a real history is pinned by its head
  // ---------------------------------------------------------------------------

  /** A save as the application makes it: a job id, a timestamp and hashes without the separator. */
  ghost predicate BarFree(s: Save) {
    NoBar(s.job) && NoBar(s.recordedAt) && NoBar(CaptureText(s.capture))
  }

  ghost predicate Pinned(c: Crypto, log: seq<Entry>) {
    && Sound(c, log) && BarFreeJobs(log)
    && forall i :: 0 <= i < |log| ==> NoBar(log[i].hash)
  }

  lemma AppendKeepsPinned(c: Crypto, log: seq<Entry>, s: Save)
    requires Pinned(c, log) && BarFree(s) && HashesAreBarFree(c)
    ensures Pinned(c, Appended(c, log, s, SaveDigest(c, s)))
  {
    var digest := SaveDigest(c, s);
    var longer := Appended(c, log, s, digest);
    if longer != log {
      var e := NewEntry(c, log, s, digest);
      GenesisHasNoBar();
      assert NoBar(Head(log));
      assert NoBar(digest) && NoBar(e.hash);
      LinkedSnoc(c, log, e);
      forall i | 0 <= i < |longer| ensures WellFormed(longer[i]) && NoBar(longer[i].jobId) && NoBar(longer[i].hash) {
        HashBeforeSnoc(log, e, i);
      }
    }
  }

  lemma {:induction false} RunKeepsPinned(c: Crypto, db: DB, ops: seq<Op>)
    requires Pinned(c, db.log) && HashesAreBarFree(c)
    requires forall op :: op in ops && op.SaveOp? ==> BarFree(op.save)
    ensures Pinned(c, RunOps(c, db, ops).log)
    decreases |ops|
  {
    if ops != [] {
      assert ops[0] in ops && forall op :: op in ops[1..] ==> op in ops;
      if ops[0].SaveOp? {
        AppendKeepsPinned(c, db.log, ops[0].save);
      }
      RunKeepsPinned(c, ApplyOp(c, db, ops[0]), ops[1..]);
    }
  }

  /** After any history of such saves, the published head admits no other log, and no rewriting of
      an entry survives the link check. */
  lemma HistoryIsPinned(c: Crypto, ops: seq<Op>, other: seq<Entry>, k: nat, e: Entry)
    requires CollisionFree(c) && HashesAreBarFree(c)
    requires forall op :: op in ops && op.SaveOp? ==> BarFree(op.save)
    ensures var log := RunOps(c, EMPTY, ops).log;
            && (Linked(c, other) && Head(other) == Head(log) ==> SameHistory(log, other))
            && (k < |log| && Rewrites(e, log[k]) ==> FirstBroken(c, log[k := e], 0) == k)
  {
    var log := RunOps(c, EMPTY, ops).log;
    RunKeepsPinned(c, EMPTY, ops);
    if Linked(c, other) && Head(other) == Head(log) {
      HeadCommitsToHistory(c, log, other);
    }
    if k < |log| && Rewrites(e, log[k]) {
      AlterationBreaksThere(c, log, k, e);
    }
  }

  // ---------------------------------------------------------------------------
  // What the log records
  // ---------------------------------------------------------------------------

  /** The same documents and the same statistics. */
  ghost predicate SameAnalysis(s: Save, t: Save) {
    && multiset(Texts(s.sessions)) == multiset(Texts(t.sessions))
    && multiset(Texts(s.events)) == multiset(Texts(t.events))
    && s.stats == t.stats
  }

  lemma SameDigestIff(c: Crypto, s: Save, t: Save)
    requires CollisionFree(c) && JsonInjective(c)
    ensures SaveDigest(c, s) == SaveDigest(c, t) <==> SameAnalysis(s, t)
  {
    if SaveDigest(c, s) == SaveDigest(c, t) {
      DigestCommits(c, Texts(s.sessions), Texts(t.sessions), Texts(s.events), Texts(t.events), s.stats, t.stats);
    } else if SameAnalysis(s, t) {
      DigestForgetsOrder(c, Texts(s.sessions), Texts(t.sessions), Texts(s.events), Texts(t.events), s.stats);
    }
  }

  /** The last save under a job id, whether or not the job was deleted since. */
  function LastSave(ops: seq<Op>, job: string): Option<Save> {
    if ops == [] then None
    else
      var n := |ops| - 1;
      if ops[n].SaveOp? && ops[n].save.job == job then Some(ops[n].save) else LastSave(ops[..n], job)
  }

  /** `s` repeats what was last saved under its job id. */
  ghost predicate Repeats(ops: seq<Op>, s: Save) {
    LastSave(ops, s.job).Some? && SameAnalysis(LastSave(ops, s.job).value, s)
  }

  /** The saves that changed something. */
  ghost function Changes(ops: seq<Op>): seq<Save> {
    if ops == [] then []
    else
      var n := |ops| - 1;
      Changes(ops[..n]) + (if ops[n].SaveOp? && !Repeats(ops[..n], ops[n].save) then [ops[n].save] else [])
  }

  /** Entry `i` is the record of `s`. */
  ghost predicate Records(c: Crypto, log: seq<Entry>, i: nat, s: Save)
    requires i < |log|
  {
    var e := log[i];
    && e.number == i + 1
    && e.jobId == s.job && e.recordedAt == s.recordedAt && e.capture == s.capture
    && e.analysis == SaveDigest(c, s)
    && e.prev == HashBefore(log, i) && e.hash == EntryHash(c, e, e.prev)
  }

  ghost predicate RecordsAll(c: Crypto, log: seq<Entry>, saves: seq<Save>) {
    |log| == |saves| && forall i :: 0 <= i < |log| ==> Records(c, log, i, saves[i])
  }

  /** Each job's newest digest is that of its last save. */
  ghost predicate Newest(c: Crypto, log: seq<Entry>, ops: seq<Op>) {
    forall job :: if LastSave(ops, job).Some?
      then job in Latest(log) && Latest(log)[job] == SaveDigest(c, LastSave(ops, job).value)
      else job !in Latest(log)
  }

  lemma {:induction false} RunOpsSnoc(c: Crypto, db: DB, ops: seq<Op>)
    requires ops != []
    ensures RunOps(c, db, ops) == ApplyOp(c, RunOps(c, db, ops[..|ops| - 1]), ops[|ops| - 1])
    decreases |ops|
  {
    var n := |ops| - 1;
    if n > 0 {
      RunOpsSnoc(c, ApplyOp(c, db, ops[0]), ops[1..]);
      assert ops[1..][..n - 1] == ops[..n][1..];
    }
  }

  lemma RecordsOneMore(c: Crypto, log: seq<Entry>, saves: seq<Save>, s: Save)
    requires RecordsAll(c, log, saves)
    ensures RecordsAll(c, log + [NewEntry(c, log, s, SaveDigest(c, s))], saves + [s])
  {
    var e := NewEntry(c, log, s, SaveDigest(c, s));
    forall i | 0 <= i <= |log| ensures Records(c, log + [e], i, (saves + [s])[i]) {
      HashBeforeSnoc(log, e, i);
      if i < |log| {
        assert Records(c, log, i, saves[i]);
      }
      if log != [] {
        assert Records(c, log, |log| - 1, saves[|log| - 1]);
      }
    }
  }

  lemma LatestAppended(c: Crypto, log: seq<Entry>, s: Save, digest: string)
    ensures Latest(Appended(c, log, s, digest)) == Latest(log)[s.job := digest]
    ensures Appended(c, log, s, digest) ==
            if s.job in Latest(log) && Latest(log)[s.job] == digest then log else log + [NewEntry(c, log, s, digest)]
  {
    var e := NewEntry(c, log, s, digest);
    assert (log + [e])[..|log|] == log;
  }

  lemma LastSaveSnoc(ops: seq<Op>, s: Save, job: string)
    ensures LastSave(ops + [SaveOp(s)], job) == if job == s.job then Some(s) else LastSave(ops, job)
    ensures Changes(ops + [SaveOp(s)]) == if Repeats(ops, s) then Changes(ops) else Changes(ops) + [s]
  {
    assert (ops + [SaveOp(s)])[..|ops|] == ops;
  }

  lemma NewestAppended(c: Crypto, log: seq<Entry>, ops: seq<Op>, s: Save)
    requires Newest(c, log, ops)
    ensures Newest(c, Appended(c, log, s, SaveDigest(c, s)), ops + [SaveOp(s)])
  {
    LatestAppended(c, log, s, SaveDigest(c, s));
    forall job
      ensures LastSave(ops + [SaveOp(s)], job) == if job == s.job then Some(s) else LastSave(ops, job)
    {
      LastSaveSnoc(ops, s, job);
    }
  }

  lemma SkippedIff(c: Crypto, log: seq<Entry>, ops: seq<Op>, s: Save)
    requires CollisionFree(c) && JsonInjective(c) && Newest(c, log, ops)
    ensures Repeats(ops, s) <==> s.job in Latest(log) && Latest(log)[s.job] == SaveDigest(c, s)
  {
    if LastSave(ops, s.job).Some? {
      SameDigestIff(c, LastSave(ops, s.job).value, s);
    }
  }

  lemma SaveIsLogged(c: Crypto, log: seq<Entry>, ops: seq<Op>, s: Save)
    requires CollisionFree(c) && JsonInjective(c)
    requires RecordsAll(c, log, Changes(ops)) && Newest(c, log, ops)
    ensures RecordsAll(c, Appended(c, log, s, SaveDigest(c, s)), Changes(ops + [SaveOp(s)]))
  {
    SkippedIff(c, log, ops, s);
    LastSaveSnoc(ops, s, s.job);
    LatestAppended(c, log, s, SaveDigest(c, s));
    RecordsOneMore(c, log, Changes(ops), s);
  }

  lemma {:induction false} LogIsRecord(c: Crypto, ops: seq<Op>)
    requires CollisionFree(c) && JsonInjective(c)
    ensures RecordsAll(c, RunOps(c, EMPTY, ops).log, Changes(ops)) && Newest(c, RunOps(c, EMPTY, ops).log, ops)
    decreases |ops|
  {
    if ops != [] {
      var n := |ops| - 1;
      LogIsRecord(c, ops[..n]);
      RunOpsSnoc(c, EMPTY, ops);
      assert ops == ops[..n] + [ops[n]];
      if ops[n].SaveOp? {
        SaveIsLogged(c, RunOps(c, EMPTY, ops[..n]).log, ops[..n], ops[n].save);
        NewestAppended(c, RunOps(c, EMPTY, ops[..n]).log, ops[..n], ops[n].save);
      } else {
        assert Changes(ops) == Changes(ops[..n]);
      }
    }
  }

  /** Main result on the log.  After any history it holds one entry for each save that changed the
      documents or the statistics last saved under its job id, in order, numbered from one, with that
      save's timestamp, capture hash and digest, linked to the entry before it; and nothing else. */
  lemma LogRecordsChanges(c: Crypto, ops: seq<Op>)
    requires CollisionFree(c) && JsonInjective(c)
    ensures RecordsAll(c, RunOps(c, EMPTY, ops).log, Changes(ops))
  {
    LogIsRecord(c, ops);
  }

  /** So a save adds exactly one entry, or none when it repeats what was last saved. */
  lemma SaveAddsOneEntryIff(c: Crypto, ops: seq<Op>, s: Save)
    requires CollisionFree(c) && JsonInjective(c)
    ensures |RunOps(c, EMPTY, ops + [SaveOp(s)]).log| ==
            |RunOps(c, EMPTY, ops).log| + if Repeats(ops, s) then 0 else 1
  {
    LogRecordsChanges(c, ops);
    LogRecordsChanges(c, ops + [SaveOp(s)]);
    assert (ops + [SaveOp(s)])[..|ops|] == ops;
  }

  ghost predicate NextOf(log: seq<Entry>, i: nat, j: nat) {
    && i < j < |log| && log[i].jobId == log[j].jobId
    && forall k :: i < k < j ==> log[k].jobId != log[j].jobId
  }

  lemma {:induction false} LatestIs(log: seq<Entry>, i: nat)
    requires i < |log| && forall k :: i < k < |log| ==> log[k].jobId != log[i].jobId
    ensures log[i].jobId in Latest(log) && Latest(log)[log[i].jobId] == log[i].analysis
    decreases |log|
  {
    var n := |log| - 1;
    if i < n {
      LatestIs(log[..n], i);
    }
  }

  ghost predicate AllDiffer(log: seq<Entry>) {
    forall i: nat, j: nat :: NextOf(log, i, j) ==> log[i].analysis != log[j].analysis
  }

  lemma OneMoreDiffers(log: seq<Entry>, e: Entry)
    requires AllDiffer(log) && (e.jobId in Latest(log) ==> Latest(log)[e.jobId] != e.analysis)
    ensures AllDiffer(log + [e])
  {
    var longer := log + [e];
    forall i: nat, j: nat | NextOf(longer, i, j) ensures longer[i].analysis != longer[j].analysis {
      if j < |log| {
        assert forall k :: i < k < j ==> longer[k] == log[k];
        assert NextOf(log, i, j);
      } else {
        assert forall k :: i < k < |log| ==> longer[k] == log[k];
        LatestIs(log, i);
      }
    }
  }

  /** No entry of a job has the digest of that job's entry before it, collisions or none. */
  lemma {:induction false} EntriesDiffer(c: Crypto, ops: seq<Op>)
    ensures AllDiffer(RunOps(c, EMPTY, ops).log)
    decreases |ops|
  {
    if ops != [] {
      var n := |ops| - 1;
      var log := RunOps(c, EMPTY, ops[..n]).log;
      RunOpsSnoc(c, EMPTY, ops);
      EntriesDiffer(c, ops[..n]);
      if ops[n].SaveOp? {
        var s := ops[n].save;
        LatestAppended(c, log, s, SaveDigest(c, s));
        if Appended(c, log, s, SaveDigest(c, s)) != log {
          OneMoreDiffers(log, NewEntry(c, log, s, SaveDigest(c, s)));
        }
      }
    }
  }

  // ---------------------------------------------------------------------------
  // Deleted jobs leave no rows
  // ---------------------------------------------------------------------------

  ghost predicate Owned(db: DB) {
    && (forall k :: k in db.sessions ==> k.0 in db.jobs)
    && (forall k :: k in db.events ==> k.0 in db.jobs)
  }

  lemma {:induction false} InsertedOwners(rows: Rows, job: string, docs: seq<Doc>)
    ensures forall k :: k in Inserted(rows, job, docs) ==> k in rows || k.0 == job
    decreases |docs|
  {
    if docs != [] {
      InsertedOwners(rows[(job, docs[0].id) := docs[0].text], job, docs[1..]);
    }
  }

  lemma {:induction false} OwnedAlong(c: Crypto, db: DB, ops: seq<Op>)
    requires Owned(db)
    ensures Owned(RunOps(c, db, ops))
    decreases |ops|
  {
    if ops != [] {
      if ops[0].SaveOp? {
        var s := ops[0].save;
        InsertedOwners(WithoutJob(db.sessions, s.job), s.job, s.sessions);
        InsertedOwners(WithoutJob(db.events, s.job), s.job, s.events);
      }
      OwnedAlong(c, ApplyOp(c, db, ops[0]), ops[1..]);
    }
  }

  /** After any history the jobs are those saved and not deleted since, and every row is one of theirs. */
  lemma NoRowOutlivesItsJob(c: Crypto, ops: seq<Op>)
    ensures RunOps(c, EMPTY, ops).jobs.Keys == SavedBy(map[], ops).Keys
    ensures forall k :: k in RunOps(c, EMPTY, ops).sessions ==> k.0 in SavedBy(map[], ops)
    ensures forall k :: k in RunOps(c, EMPTY, ops).events ==> k.0 in SavedBy(map[], ops)
  {
    HistoryMatches(c, EMPTY, map[], ops);
    OwnedAlong(c, EMPTY, ops);
  }
}
