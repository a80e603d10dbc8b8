/** The hash-chained audit log of api/store.py: entry encoding, link verification, and what a
    published head hash commits to.  The hash and the JSON encoder are parameters; injectivity
    is assumed only where a lemma says so. */
module AuditChain {
  import opened Sorting
  import opened Wrappers

  datatype Crypto = Crypto(sha: string -> string, json: (seq<string>, seq<string>, string) -> string)

  /** Sixty-four zeros. */
  const GENESIS := ZEROS + ZEROS + ZEROS + ZEROS

  const ZEROS := "0000000000000000"

  datatype Entry = Entry(
    number: nat,
    jobId: string,
    recordedAt: string,
    analysis: string,
    capture: Option<string>,
    prev: string,
    hash: string)

  ghost predicate Collide(f: string -> string, x: string, y: string) {
    x != y && f(x) == f(y)
  }

  ghost predicate Injective(f: string -> string) {
    forall x, y :: !Collide(f, x, y)
  }

  ghost predicate CollisionFree(c: Crypto) {
    && Injective(c.sha)
    && forall x :: c.sha(x) != GENESIS
  }

  ghost predicate JsonInjective(c: Crypto) {
    forall s, e, t, s', e', t' :: c.json(s, e, t) == c.json(s', e', t') ==> s == s' && e == e' && t == t'
  }

  // ---------------------------------------------------------------------------
  // Analysis digest
  // ---------------------------------------------------------------------------

  /** Code-point order on strings. */
  predicate LexLeq(a: string, b: string) {
    a == [] || (b != [] && (a[0] < b[0] || (a[0] == b[0] && LexLeq(a[1..], b[1..]))))
  }

  lemma LexTotal(a: string, b: string)
    ensures LexLeq(a, b) || LexLeq(b, a)
  {
  }

  lemma {:induction false} LexTransitive(a: string, b: string, c: string)
    requires LexLeq(a, b) && LexLeq(b, c)
    ensures LexLeq(a, c)
  {
    if a != [] && a[0] == b[0] == c[0] {
      LexTransitive(a[1..], b[1..], c[1..]);
    }
  }

  lemma {:induction false} LexAntisymmetric(a: string, b: string)
    requires LexLeq(a, b) && LexLeq(b, a)
    ensures a == b
  {
    if a != [] {
      LexAntisymmetric(a[1..], b[1..]);
      assert a == [a[0]] + a[1..] && b == [b[0]] + b[1..];
    }
  }

  lemma LexIsAnOrder()
    ensures TotalPreorder(LexLeq) && Antisymmetric(LexLeq)
  {
    forall x, y ensures LexLeq(x, y) || LexLeq(y, x) { LexTotal(x, y); }
    forall x, y, z | LexLeq(x, y) && LexLeq(y, z) ensures LexLeq(x, z) { LexTransitive(x, y, z); }
    forall x, y | LexLeq(x, y) && LexLeq(y, x) ensures x == y { LexAntisymmetric(x, y); }
  }

  function Digest(c: Crypto, sessions: seq<string>, events: seq<string>, stats: string): string {
    c.sha(c.json(Sort(LexLeq, sessions), Sort(LexLeq, events), stats))
  }

  /** The digest sees the stored documents as multisets: row order never matters. */
  lemma DigestForgetsOrder(c: Crypto, s: seq<string>, s': seq<string>, e: seq<string>, e': seq<string>, stats: string)
    requires multiset(s) == multiset(s') && multiset(e) == multiset(e')
    ensures Digest(c, s, e, stats) == Digest(c, s', e', stats)
  {
    LexIsAnOrder();
    SortForgetsOrder(LexLeq, s, s');
    SortForgetsOrder(LexLeq, e, e');
  }

  /** ... and, without collisions, it sees nothing less. */
  lemma DigestCommits(c: Crypto, s: seq<string>, s': seq<string>, e: seq<string>, e': seq<string>,
                      t: string, t': string)
    requires CollisionFree(c) && JsonInjective(c)
    requires Digest(c, s, e, t) == Digest(c, s', e', t')
    ensures multiset(s) == multiset(s') && multiset(e) == multiset(e') && t == t'
  {
    assert !Collide(c.sha, c.json(Sort(LexLeq, s), Sort(LexLeq, e), t), c.json(Sort(LexLeq, s'), Sort(LexLeq, e'), t'));
    assert c.json(Sort(LexLeq, s), Sort(LexLeq, e), t) == c.json(Sort(LexLeq, s'), Sort(LexLeq, e'), t');
    assert Sort(LexLeq, s) == Sort(LexLeq, s') && Sort(LexLeq, e) == Sort(LexLeq, e');
  }

  /** It is the hash of the documents in ascending order: the sessions', then the anomalies', then the
      statistics. */
  lemma DigestOfAscending(c: Crypto, s: seq<string>, e: seq<string>, s': seq<string>, e': seq<string>, stats: string)
    requires Sorted(LexLeq, s') && multiset(s') == multiset(s)
    requires Sorted(LexLeq, e') && multiset(e') == multiset(e)
    ensures Digest(c, s, e, stats) == c.sha(c.json(s', e', stats))
  {
    LexIsAnOrder();
    SortIsSorted(LexLeq, s);
    SortIsSorted(LexLeq, e);
    SortedIsUnique(LexLeq, Sort(LexLeq, s), s');
    SortedIsUnique(LexLeq, Sort(LexLeq, e), e');
  }

  /** Ascending is by first differing character, a prefix before its extensions. */
  lemma LexMeans(c: char, d: char, s: string, t: string)
    ensures LexLeq("", t) && !LexLeq([c] + s, "")
    ensures LexLeq([c] + s, [d] + t) <==> c < d || (c == d && LexLeq(s, t))
  {
    assert ([c] + s)[1..] == s && ([d] + t)[1..] == t;
  }

  // ---------------------------------------------------------------------------
  // Entry encoding
  // ---------------------------------------------------------------------------

  function Decimal(n: nat): (s: string)
    ensures s != [] && NoBar(s)
  {
    var digit := ["0123456789"[n % 10]];
    if n < 10 then digit else Decimal(n / 10) + digit
  }

  lemma {:induction false} DecimalInjective(m: nat, n: nat)
    requires Decimal(m) == Decimal(n)
    ensures m == n
  {
    var a, b := Decimal(m), Decimal(n);
    assert a[|a| - 1] == "0123456789"[m % 10];
    assert b[|b| - 1] == "0123456789"[n % 10];
    assert m % 10 == n % 10;
    if m >= 10 && n >= 10 {
      assert a[..|a| - 1] == Decimal(m / 10);
      assert b[..|b| - 1] == Decimal(n / 10);
      DecimalInjective(m / 10, n / 10);
    } else {
      assert |a| == 1 <==> m < 10;
      assert |b| == 1 <==> n < 10;
    }
  }

  predicate NoBar(s: string) {
    '|' !in s
  }

  ghost predicate HashesAreBarFree(c: Crypto) {
    forall x :: NoBar(c.sha(x))
  }

  lemma GenesisHasNoBar()
    ensures NoBar(GENESIS)
  {
    assert '|' !in ZEROS;
  }

  function CaptureText(capture: Option<string>): string {
    if capture.None? then "" else capture.value
  }

  function JobAndTime(e: Entry): string {
    e.jobId + "|" + e.recordedAt
  }

  function ToAnalysis(e: Entry): string {
    JobAndTime(e) + "|" + e.analysis
  }

  function ToCapture(e: Entry): string {
    ToAnalysis(e) + "|" + CaptureText(e.capture)
  }

  function Encoded(e: Entry, prev: string): string {
    Decimal(e.number) + ("|" + (ToCapture(e) + "|" + prev))
  }

  function EntryHash(c: Crypto, e: Entry, prev: string): string {
    c.sha(Encoded(e, prev))
  }

  /** The hashed text: number, job, timestamp, digest, capture hash or nothing, and the hash before. */
  lemma EntryText(c: Crypto, e: Entry, prev: string)
    ensures EntryHash(c, e, prev) ==
            c.sha(Decimal(e.number) + "|" + e.jobId + "|" + e.recordedAt + "|" + e.analysis + "|"
                  + (if e.capture.Some? then e.capture.value else "") + "|" + prev)
  {
    var capture := if e.capture.Some? then e.capture.value else "";
    assert Encoded(e, prev) == Decimal(e.number) + "|" + e.jobId + "|" + e.recordedAt + "|" + e.analysis + "|"
                               + capture + "|" + prev;
  }

  /** What the hash covers: a missing capture and an empty one are the same. */
  predicate SameFields(e: Entry, f: Entry) {
    && e.number == f.number && e.jobId == f.jobId && e.recordedAt == f.recordedAt
    && e.analysis == f.analysis && CaptureText(e.capture) == CaptureText(f.capture)
  }

  /** A timestamp, two hashes and a capture hash never contain the separator; a job id may. */
  predicate WellFormed(e: Entry) {
    NoBar(e.recordedAt) && NoBar(e.analysis) && NoBar(CaptureText(e.capture)) && NoBar(e.prev)
  }

  /** Splitting at the last separator. */
  lemma SplitLast(a: string, b: string, a': string, b': string)
    requires NoBar(b) && NoBar(b')
    requires a + "|" + b == a' + "|" + b'
    ensures a == a' && b == b'
  {
    var s, t := a + "|" + b, a' + "|" + b';
    assert s[|a|] == '|' && t[|a'|] == '|';
    assert forall k :: |a| < k < |s| ==> s[k] in b;
    assert forall k :: |a'| < k < |t| ==> t[k] in b';
    assert |a| == |a'|;
    assert s[..|a|] == a && t[..|a'|] == a';
    assert s[|a| + 1..] == b && t[|a'| + 1..] == b';
  }

  /** Splitting at the first separator. */
  lemma SplitFirst(a: string, b: string, a': string, b': string)
    requires NoBar(a) && NoBar(a')
    requires a + ("|" + b) == a' + ("|" + b')
    ensures a == a' && b == b'
  {
    var s, t := a + ("|" + b), a' + ("|" + b');
    assert s[|a|] == '|' && t[|a'|] == '|';
    assert forall k :: 0 <= k < |a| ==> s[k] in a;
    assert forall k :: 0 <= k < |a'| ==> t[k] in a';
    assert |a| == |a'|;
    assert s[..|a|] == a && t[..|a'|] == a';
    assert s[|a| + 1..] == b && t[|a'| + 1..] == b';
  }

  /** The joined encoding determines every field, although the job id may contain the separator. */
  lemma EncodingInjective(e: Entry, prev: string, f: Entry, prev': string)
    requires WellFormed(e) && WellFormed(f) && NoBar(prev) && NoBar(prev')
    ensures Encoded(e, prev) == Encoded(f, prev') <==> SameFields(e, f) && prev == prev'
  {
    if Encoded(e, prev) == Encoded(f, prev') {
      SplitFirst(Decimal(e.number), ToCapture(e) + "|" + prev, Decimal(f.number), ToCapture(f) + "|" + prev');
      DecimalInjective(e.number, f.number);
      SplitLast(ToCapture(e), prev, ToCapture(f), prev');
      SplitLast(ToAnalysis(e), CaptureText(e.capture), ToAnalysis(f), CaptureText(f.capture));
      SplitLast(JobAndTime(e), e.analysis, JobAndTime(f), f.analysis);
      SplitLast(e.jobId, e.recordedAt, f.jobId, f.recordedAt);
    }
  }

  lemma NoBarCounts(s: string)
    ensures NoBar(s) <==> multiset(s)['|'] == 0
  {
    assert '|' in s <==> '|' in multiset(s);
  }

  /** The separators of an encoding after its number: four, and those inside its fields. */
  lemma BarsIn(e: Entry, prev: string)
    ensures multiset(ToCapture(e) + "|" + prev)['|'] ==
            4 + multiset(e.jobId)['|'] + multiset(e.recordedAt)['|'] + multiset(e.analysis)['|']
              + multiset(CaptureText(e.capture))['|'] + multiset(prev)['|']
  {
    assert multiset("|")['|'] == 1;
  }

  /** An entry whose own fields hold no separator is pinned by its encoding against every other
      entry, whatever text that one holds. */
  lemma EncodingPins(o: Entry, e: Entry)
    requires WellFormed(o) && NoBar(o.jobId)
    requires Encoded(e, e.prev) == Encoded(o, o.prev)
    ensures SameFields(e, o) && e.prev == o.prev
  {
    SplitFirst(Decimal(e.number), ToCapture(e) + "|" + e.prev, Decimal(o.number), ToCapture(o) + "|" + o.prev);
    BarsIn(o, o.prev);
    BarsIn(e, e.prev);
    NoBarsAnywhere(o);
    NoBarsAnywhere(e);
    EncodingInjective(e, e.prev, o, o.prev);
  }

  lemma NoBarsAnywhere(e: Entry)
    ensures WellFormed(e) && NoBar(e.jobId) <==>
            multiset(e.jobId)['|'] + multiset(e.recordedAt)['|'] + multiset(e.analysis)['|']
              + multiset(CaptureText(e.capture))['|'] + multiset(e.prev)['|'] == 0
  {
    NoBarCounts(e.jobId);
    NoBarCounts(e.recordedAt);
    NoBarCounts(e.analysis);
    NoBarCounts(CaptureText(e.capture));
    NoBarCounts(e.prev);
  }

  /** Text after a separator in the job id can move into the timestamp unnoticed. */
  lemma JobTextMoves(o: Entry) returns (e: Entry)
    requires !NoBar(o.jobId)
    ensures e == o.(jobId := e.jobId, recordedAt := e.recordedAt) && e.jobId != o.jobId
    ensures Encoded(e, o.prev) == Encoded(o, o.prev)
  {
    var k :| 0 <= k < |o.jobId| && o.jobId[k] == '|';
    var left, right := o.jobId[..k], o.jobId[k + 1..];
    e := o.(jobId := left, recordedAt := right + "|" + o.recordedAt);
    assert o.jobId == left + "|" + right;
    assert JobAndTime(e) == JobAndTime(o);
  }

  // ---------------------------------------------------------------------------
  // Links
  // ---------------------------------------------------------------------------

  predicate LinkHolds(c: Crypto, e: Entry, prev: string) {
    e.prev == prev && e.hash == EntryHash(c, e, prev)
  }

  function HashBefore(log: seq<Entry>, i: nat): string
    requires i <= |log|
  {
    if i == 0 then GENESIS else log[i - 1].hash
  }

  function Head(log: seq<Entry>): string {
    HashBefore(log, |log|)
  }

  ghost predicate Linked(c: Crypto, log: seq<Entry>) {
    forall i :: 0 <= i < |log| ==> LinkHolds(c, log[i], HashBefore(log, i))
  }

  lemma LinkedPrefix(c: Crypto, log: seq<Entry>)
    requires log != [] && Linked(c, log)
    ensures Linked(c, log[..|log| - 1])
    ensures Head(log[..|log| - 1]) == log[|log| - 1].prev
  {
    var n := |log| - 1;
    forall i | 0 <= i < n ensures LinkHolds(c, log[..n][i], HashBefore(log[..n], i)) {
      assert HashBefore(log[..n], i) == HashBefore(log, i);
    }
    assert LinkHolds(c, log[n], HashBefore(log, n));
  }

  lemma LinkedSnoc(c: Crypto, log: seq<Entry>, e: Entry)
    requires Linked(c, log) && LinkHolds(c, e, Head(log))
    ensures Linked(c, log + [e])
  {
    var longer := log + [e];
    forall i | 0 <= i < |longer| ensures LinkHolds(c, longer[i], HashBefore(longer, i)) {
      HashBeforeSnoc(log, e, i);
      if i < |log| {
        assert LinkHolds(c, log[i], HashBefore(log, i));
      }
    }
  }

  lemma HashBeforeSnoc(log: seq<Entry>, e: Entry, i: nat)
    requires i <= |log|
    ensures HashBefore(log + [e], i) == HashBefore(log, i)
    ensures (log + [e])[i] == if i < |log| then log[i] else e
  {
  }

  /** A log that passes the link check and whose fields stay in their alphabets. */
  ghost predicate Sound(c: Crypto, log: seq<Entry>) {
    && Linked(c, log)
    && forall i :: 0 <= i < |log| ==> WellFormed(log[i])
  }

  ghost predicate SameEntry(e: Entry, f: Entry) {
    SameFields(e, f) && e.prev == f.prev && e.hash == f.hash
  }

  ghost predicate SameHistory(log: seq<Entry>, other: seq<Entry>) {
    && |log| == |other|
    && forall i :: 0 <= i < |log| ==> SameEntry(log[i], other[i])
  }

  ghost predicate BarFreeJobs(log: seq<Entry>) {
    forall i :: 0 <= i < |log| ==> NoBar(log[i].jobId)
  }

  ghost predicate AllWellFormed(log: seq<Entry>) {
    forall i :: 0 <= i < |log| ==> WellFormed(log[i])
  }

  /** The head hash commits to the whole history: a log that ends in the same hash as a sound one
      and passes the link check has the same length and the same fields at every position,
      provided one of the two stays in its alphabet. */
  lemma {:induction false} HeadCommitsToHistory(c: Crypto, log: seq<Entry>, other: seq<Entry>)
    requires CollisionFree(c) && Sound(c, log) && Linked(c, other)
    requires BarFreeJobs(log) || AllWellFormed(other)
    requires Head(log) == Head(other)
    ensures SameHistory(log, other)
    decreases |log|
  {
    if log == [] || other == [] {
      EmptyHasNoHead(c, log);
      EmptyHasNoHead(c, other);
    } else {
      LastEntryCommitted(c, log, other);
      HeadCommitsToHistory(c, log[..|log| - 1], other[..|other| - 1]);
      SameHistorySnoc(log, other);
    }
  }

  lemma SameHistorySnoc(log: seq<Entry>, other: seq<Entry>)
    requires log != [] && other != []
    requires SameEntry(log[|log| - 1], other[|other| - 1])
    requires SameHistory(log[..|log| - 1], other[..|other| - 1])
    ensures SameHistory(log, other)
  {
    var m := |log| - 1;
    forall i | 0 <= i < |log| ensures SameEntry(log[i], other[i]) {
      if i < m {
        assert log[..m][i] == log[i] && other[..m][i] == other[i];
      }
    }
  }

  lemma EmptyHasNoHead(c: Crypto, log: seq<Entry>)
    requires CollisionFree(c) && Linked(c, log)
    ensures log == [] <==> Head(log) == GENESIS
  {
    if log != [] {
      assert LinkHolds(c, log[|log| - 1], HashBefore(log, |log| - 1));
    }
  }

  lemma LastEntryCommitted(c: Crypto, log: seq<Entry>, other: seq<Entry>)
    requires CollisionFree(c)
    requires Sound(c, log) && Linked(c, other) && log != [] && other != []
    requires BarFreeJobs(log) || AllWellFormed(other)
    requires Head(log) == Head(other)
    ensures SameEntry(log[|log| - 1], other[|other| - 1])
    ensures Sound(c, log[..|log| - 1]) && Linked(c, other[..|other| - 1])
    ensures Head(log[..|log| - 1]) == Head(other[..|other| - 1])
  {
    var e, f := log[|log| - 1], other[|other| - 1];
    assert LinkHolds(c, e, HashBefore(log, |log| - 1)) && LinkHolds(c, f, HashBefore(other, |other| - 1));
    EqualHashesPin(c, e, f);
    LinkedPrefix(c, log);
    LinkedPrefix(c, other);
  }

  /** Two entries with the hashes they should have and equal ones are the same entry. */
  lemma EqualHashesPin(c: Crypto, o: Entry, e: Entry)
    requires CollisionFree(c) && WellFormed(o) && (NoBar(o.jobId) || WellFormed(e))
    requires o.hash == EntryHash(c, o, o.prev) && e.hash == EntryHash(c, e, e.prev) && o.hash == e.hash
    ensures SameEntry(o, e)
  {
    assert !Collide(c.sha, Encoded(o, o.prev), Encoded(e, e.prev));
    if NoBar(o.jobId) {
      EncodingPins(o, e);
    } else {
      EncodingInjective(o, o.prev, e, e.prev);
    }
  }

  /** The same log with one entry's job text moved still passes the link check, under the same head. */
  lemma MovedTextPasses(c: Crypto, log: seq<Entry>, k: nat, e: Entry)
    requires Linked(c, log) && k < |log|
    requires e.hash == log[k].hash && e.prev == log[k].prev && Encoded(e, e.prev) == Encoded(log[k], e.prev)
    ensures Linked(c, log[k := e]) && Head(log[k := e]) == Head(log)
  {
    var altered := log[k := e];
    assert LinkHolds(c, log[k], HashBefore(log, k));
    SameLink(c, log[k], e, HashBefore(log, k));
    forall i | 0 <= i < |altered| ensures LinkHolds(c, altered[i], HashBefore(altered, i)) {
      SameHashBefore(log, k, e, i);
    }
    SameHashBefore(log, k, e, |log|);
  }

  lemma SameLink(c: Crypto, o: Entry, e: Entry, prev: string)
    requires LinkHolds(c, o, prev)
    requires e.hash == o.hash && e.prev == o.prev && Encoded(e, e.prev) == Encoded(o, e.prev)
    ensures LinkHolds(c, e, prev)
  {
  }

  lemma SameHashBefore(log: seq<Entry>, k: nat, e: Entry, i: nat)
    requires k < |log| && i <= |log| && e.hash == log[k].hash
    ensures HashBefore(log[k := e], i) == HashBefore(log, i)
    ensures i < |log| && i != k ==> log[k := e][i] == log[i]
  {
  }

  /** Exactly when no job id holds the separator does the head hash fix the whole history against
      every other log. */
  lemma HeadFixesHistoryIff(c: Crypto, log: seq<Entry>)
    requires CollisionFree(c) && Sound(c, log)
    ensures (forall other :: Linked(c, other) && Head(other) == Head(log) ==> SameHistory(log, other))
            <==> BarFreeJobs(log)
  {
    if BarFreeJobs(log) {
      forall other | Linked(c, other) && Head(other) == Head(log) ensures SameHistory(log, other) {
        HeadCommitsToHistory(c, log, other);
      }
    } else {
      var k :| 0 <= k < |log| && !NoBar(log[k].jobId);
      var e := JobTextMoves(log[k]);
      MovedTextPasses(c, log, k, e);
      var other := log[k := e];
      assert !SameEntry(log[k], other[k]);
      assert !SameHistory(log, other);
    }
  }

  /** The first position whose link does not hold, or the length of the log. */
  function FirstBroken(c: Crypto, log: seq<Entry>, i: nat): (k: nat)
    requires i <= |log|
    ensures i <= k <= |log|
    ensures forall j :: i <= j < k ==> LinkHolds(c, log[j], HashBefore(log, j))
    ensures k < |log| ==> !LinkHolds(c, log[k], HashBefore(log, k))
    decreases |log| - i
  {
    if i == |log| || !LinkHolds(c, log[i], HashBefore(log, i)) then i else FirstBroken(c, log, i + 1)
  }

  /** The number of the first entry whose link does not hold. */
  function BrokenAt(c: Crypto, log: seq<Entry>): Option<nat> {
    var k := FirstBroken(c, log, 0);
    if k < |log| then Some(log[k].number) else None
  }

  lemma LinkedIffNoneBroken(c: Crypto, log: seq<Entry>)
    ensures Linked(c, log) <==> FirstBroken(c, log, 0) == |log|
  {
    var k := FirstBroken(c, log, 0);
    assert k < |log| ==> !LinkHolds(c, log[k], HashBefore(log, k));
  }

  /** `e` is not what was committed at `o`, though it keeps the stored hash. */
  ghost predicate Rewrites(e: Entry, o: Entry) {
    e.hash == o.hash && !(SameFields(e, o) && e.prev == o.prev)
  }

  lemma BrokenAtAltered(c: Crypto, log: seq<Entry>, k: nat, e: Entry)
    requires Linked(c, log) && k < |log| && !LinkHolds(c, e, HashBefore(log, k))
    ensures FirstBroken(c, log[k := e], 0) == k
  {
    var altered := log[k := e];
    forall i | 0 <= i < k ensures LinkHolds(c, altered[i], HashBefore(altered, i)) {
      assert HashBefore(altered, i) == HashBefore(log, i);
      assert LinkHolds(c, log[i], HashBefore(log, i));
    }
    assert HashBefore(altered, k) == HashBefore(log, k);
  }

  /** Rewriting an entry of a linked log in any committed fields, leaving its stored hash alone,
      breaks the link check at that very entry. */
  lemma AlterationBreaksThere(c: Crypto, log: seq<Entry>, k: nat, e: Entry)
    requires CollisionFree(c) && Linked(c, log) && k < |log|
    requires WellFormed(log[k]) && (NoBar(log[k].jobId) || WellFormed(e))
    requires Rewrites(e, log[k])
    ensures FirstBroken(c, log[k := e], 0) == k
  {
    assert LinkHolds(c, log[k], HashBefore(log, k));
    if LinkHolds(c, e, HashBefore(log, k)) {
      EqualHashesPin(c, log[k], e);
    }
    BrokenAtAltered(c, log, k, e);
  }

  /** Main result on tampering.  Every rewriting of the entry at `k`, with any text at all, is
      caught at that entry if and only if the entry's job id holds no separator. */
  lemma AlterationBreaksIff(c: Crypto, log: seq<Entry>, k: nat)
    requires CollisionFree(c) && Linked(c, log) && k < |log| && WellFormed(log[k])
    ensures (forall e :: Rewrites(e, log[k]) ==> FirstBroken(c, log[k := e], 0) == k) <==> NoBar(log[k].jobId)
  {
    if NoBar(log[k].jobId) {
      forall e | Rewrites(e, log[k]) ensures FirstBroken(c, log[k := e], 0) == k {
        AlterationBreaksThere(c, log, k, e);
      }
    } else {
      var e := JobTextMoves(log[k]);
      MovedTextPasses(c, log, k, e);
      LinkedIffNoneBroken(c, log[k := e]);
      assert Rewrites(e, log[k]) && FirstBroken(c, log[k := e], 0) != k;
    }
  }

  /** One altered field needs no assumption on the alphabets. */
  lemma OneAlteredFieldBreaksThere(c: Crypto, log: seq<Entry>, k: nat, e: Entry)
    requires CollisionFree(c) && Linked(c, log) && k < |log|
    requires var o := log[k];
             || (e == o.(number := e.number) && e.number != o.number)
             || (e == o.(jobId := e.jobId) && e.jobId != o.jobId)
             || (e == o.(recordedAt := e.recordedAt) && e.recordedAt != o.recordedAt)
             || (e == o.(analysis := e.analysis) && e.analysis != o.analysis)
             || (e == o.(capture := e.capture) && CaptureText(e.capture) != CaptureText(o.capture))
             || (e == o.(prev := e.prev) && e.prev != o.prev)
             || (e == o.(hash := e.hash) && e.hash != o.hash)
    ensures FirstBroken(c, log[k := e], 0) == k
  {
    var o := log[k];
    var altered := log[k := e];
    var prev := HashBefore(log, k);
    forall i | 0 <= i < k ensures LinkHolds(c, altered[i], HashBefore(altered, i)) {
      assert HashBefore(altered, i) == HashBefore(log, i);
      assert LinkHolds(c, log[i], HashBefore(log, i));
    }
    assert HashBefore(altered, k) == prev;
    assert LinkHolds(c, o, prev);
    if e.prev == o.prev && e.hash == o.hash {
      OneFieldDiffers(e, o, prev);
      assert !Collide(c.sha, Encoded(e, prev), Encoded(o, prev));
    }
  }

  lemma OneFieldDiffers(e: Entry, o: Entry, prev: string)
    requires || (e == o.(number := e.number) && e.number != o.number)
             || (e == o.(jobId := e.jobId) && e.jobId != o.jobId)
             || (e == o.(recordedAt := e.recordedAt) && e.recordedAt != o.recordedAt)
             || (e == o.(analysis := e.analysis) && e.analysis != o.analysis)
             || (e == o.(capture := e.capture) && CaptureText(e.capture) != CaptureText(o.capture))
    ensures Encoded(e, prev) != Encoded(o, prev)
  {
    if Encoded(e, prev) == Encoded(o, prev) {
      if e.number != o.number {
        CancelRight(Decimal(e.number), Decimal(o.number), "|" + (ToCapture(o) + "|" + prev));
        DecimalInjective(e.number, o.number);
      } else {
        CancelLeft(Decimal(o.number), "|" + (ToCapture(e) + "|" + prev), "|" + (ToCapture(o) + "|" + prev));
        CancelLeft("|", ToCapture(e) + "|" + prev, ToCapture(o) + "|" + prev);
        CancelRight(ToCapture(e) + "|", ToCapture(o) + "|", prev);
        CancelRight(ToCapture(e), ToCapture(o), "|");
        ToCaptureDiffers(e, o);
      }
    }
  }

  lemma ToCaptureDiffers(e: Entry, o: Entry)
    requires ToCapture(e) == ToCapture(o)
    requires || e == o.(jobId := e.jobId) || e == o.(recordedAt := e.recordedAt)
             || e == o.(analysis := e.analysis) || e == o.(capture := e.capture)
    ensures SameFields(e, o)
  {
    if CaptureText(e.capture) != CaptureText(o.capture) {
      CancelLeft(ToAnalysis(o) + "|", CaptureText(e.capture), CaptureText(o.capture));
    } else {
      CancelRight(ToAnalysis(e) + "|", ToAnalysis(o) + "|", CaptureText(o.capture));
      CancelRight(ToAnalysis(e), ToAnalysis(o), "|");
      if e.analysis != o.analysis {
        CancelLeft(JobAndTime(o) + "|", e.analysis, o.analysis);
      } else {
        CancelRight(JobAndTime(e) + "|", JobAndTime(o) + "|", o.analysis);
        CancelRight(JobAndTime(e), JobAndTime(o), "|");
        if e.recordedAt != o.recordedAt {
          CancelLeft(o.jobId + "|", e.recordedAt, o.recordedAt);
        } else {
          CancelRight(e.jobId + "|", o.jobId + "|", o.recordedAt);
          CancelRight(e.jobId, o.jobId, "|");
        }
      }
    }
  }

  lemma CancelLeft(p: string, x: string, y: string)
    requires p + x == p + y
    ensures x == y
  {
    assert x == (p + x)[|p|..] && y == (p + y)[|p|..];
  }

  lemma CancelRight(x: string, y: string, q: string)
    requires x + q == y + q
    ensures x == y
  {
    assert |x| == |y|;
    assert x == (x + q)[..|x|] && y == (y + q)[..|y|];
  }

  // ---------------------------------------------------------------------------
  // The assumptions can be met
  // ---------------------------------------------------------------------------

  function Ones(n: nat): string {
    if n == 0 then "0" else "1" + Ones(n - 1)
  }

  lemma {:induction false} OnesEnd(m: nat, n: nat, r: string, r': string)
    requires Ones(m) + r == Ones(n) + r'
    ensures m == n && r == r'
  {
    var a, b := Ones(m) + r, Ones(n) + r';
    assert a[0] == b[0];
    if m == 0 {
      assert a[1..] == r;
      assert n == 0 && b[1..] == r';
    } else {
      assert n > 0;
      assert a[1..] == Ones(m - 1) + r && b[1..] == Ones(n - 1) + r';
      OnesEnd(m - 1, n - 1, r, r');
    }
  }

  function Framed(s: string): string {
    Ones(|s|) + s
  }

  lemma FramedEnds(s: string, t: string, r: string, r': string)
    requires Framed(s) + r == Framed(t) + r'
    ensures s == t && r == r'
  {
    assert Framed(s) + r == Ones(|s|) + (s + r) && Framed(t) + r' == Ones(|t|) + (t + r');
    OnesEnd(|s|, |t|, s + r, t + r');
    assert (s + r)[..|s|] == s && (t + r')[..|t|] == t;
    assert (s + r)[|s|..] == r && (t + r')[|t|..] == r';
  }

  function FramedList(xs: seq<string>): string {
    if xs == [] then "0" else "1" + Framed(xs[0]) + FramedList(xs[1..])
  }

  lemma {:induction false} FramedListEnds(xs: seq<string>, ys: seq<string>, r: string, r': string)
    requires FramedList(xs) + r == FramedList(ys) + r'
    ensures xs == ys && r == r'
  {
    var a, b := FramedList(xs) + r, FramedList(ys) + r';
    assert a[0] == b[0];
    if xs == [] || ys == [] {
      assert a[1..] == r && b[1..] == r';
    } else {
      assert a[1..] == Framed(xs[0]) + (FramedList(xs[1..]) + r);
      assert b[1..] == Framed(ys[0]) + (FramedList(ys[1..]) + r');
      FramedEnds(xs[0], ys[0], FramedList(xs[1..]) + r, FramedList(ys[1..]) + r');
      FramedListEnds(xs[1..], ys[1..], r, r');
      assert xs == [xs[0]] + xs[1..] && ys == [ys[0]] + ys[1..];
    }
  }

  function Document(s: seq<string>, e: seq<string>, t: string): string {
    FramedList(s) + (FramedList(e) + t)
  }

  /** A character, with the separator spelt out. */
  function Spelt(c: char): string {
    if c == '|' then "~b" else if c == '~' then "~t" else [c]
  }

  function Unbarred(s: string): string {
    if s == "" then "" else Spelt(s[0]) + Unbarred(s[1..])
  }

  lemma {:induction false} UnbarredHasNoBar(s: string)
    ensures NoBar(Unbarred(s))
  {
    if s != "" {
      UnbarredHasNoBar(s[1..]);
      assert NoBar(Spelt(s[0]));
    }
  }

  lemma SpeltEnds(c: char, d: char, r: string, t: string)
    requires Spelt(c) + r == Spelt(d) + t
    ensures c == d && r == t
  {
    var a, b := Spelt(c) + r, Spelt(d) + t;
    assert a[0] == Spelt(c)[0] && b[0] == Spelt(d)[0];
    if a[0] == '~' {
      assert a[1] == Spelt(c)[1] && b[1] == Spelt(d)[1];
    }
    assert a[|Spelt(c)|..] == r && b[|Spelt(d)|..] == t;
  }

  lemma {:induction false} UnbarredInjective(s: string, t: string)
    requires Unbarred(s) == Unbarred(t)
    ensures s == t
    decreases |s|
  {
    if s != "" && t != "" {
      SpeltEnds(s[0], t[0], Unbarred(s[1..]), Unbarred(t[1..]));
      UnbarredInjective(s[1..], t[1..]);
      assert s == [s[0]] + s[1..] && t == [t[0]] + t[1..];
    }
  }

  /** The conditions put on hash and encoder, here and of a store's history, are consistent: some pair
      meets them all. */
  lemma AssumptionsCanBeMet() returns (c: Crypto)
    ensures CollisionFree(c) && JsonInjective(c) && HashesAreBarFree(c)
  {
    var lead := GENESIS + "#";
    c := Crypto(x => lead + Unbarred(x), Document);
    GenesisHasNoBar();
    forall x, y ensures !Collide(c.sha, x, y) {
      assert (lead + Unbarred(x))[|lead|..] == Unbarred(x) && (lead + Unbarred(y))[|lead|..] == Unbarred(y);
      if Unbarred(x) == Unbarred(y) {
        UnbarredInjective(x, y);
      }
    }
    forall x ensures c.sha(x) != GENESIS && NoBar(c.sha(x)) {
      assert |lead + Unbarred(x)| > |GENESIS|;
      UnbarredHasNoBar(x);
    }
    forall s, e, t, s', e', t' | c.json(s, e, t) == c.json(s', e', t') ensures s == s' && e == e' && t == t' {
      FramedListEnds(s, s', FramedList(e) + t, FramedList(e') + t');
      FramedListEnds(e, e', t, t');
    }
  }

  // ---------------------------------------------------------------------------
  // What the printed and reported numbers are
  // ---------------------------------------------------------------------------

  /** The number a string of digits writes. */
  function NumberOf(s: string): int {
    if s == "" then 0 else NumberOf(s[..|s| - 1]) * 10 + (s[|s| - 1] as int - '0' as int)
  }

  /** A number is printed in decimal, without a leading zero. */
  lemma {:induction false} DecimalMeans(n: nat)
    ensures NumberOf(Decimal(n)) == n
    ensures forall c :: c in Decimal(n) ==> '0' <= c <= '9'
    ensures n > 0 ==> Decimal(n)[0] != '0'
  {
    var s := Decimal(n);
    if n < 10 {
      assert s[..0] == "";
    } else {
      DecimalMeans(n / 10);
      assert s[..|s| - 1] == Decimal(n / 10);
    }
  }

  /** What a broken chain reports: the number of the first entry whose link fails. */
  lemma BrokenAtMeans(c: Crypto, log: seq<Entry>, k: nat)
    ensures BrokenAt(c, log) == None <==> Linked(c, log)
    ensures k < |log| && !LinkHolds(c, log[k], HashBefore(log, k))
            && (forall j :: 0 <= j < k ==> LinkHolds(c, log[j], HashBefore(log, j))) ==>
              BrokenAt(c, log) == Some(log[k].number)
  {
    LinkedIffNoneBroken(c, log);
    if k < |log| && !LinkHolds(c, log[k], HashBefore(log, k))
       && forall j :: 0 <= j < k ==> LinkHolds(c, log[j], HashBefore(log, j)) {
      FirstBrokenIs(c, log, 0, k);
    }
  }

  lemma {:induction false} FirstBrokenIs(c: Crypto, log: seq<Entry>, i: nat, k: nat)
    requires i <= k < |log| && !LinkHolds(c, log[k], HashBefore(log, k))
    requires forall j :: i <= j < k ==> LinkHolds(c, log[j], HashBefore(log, j))
    ensures FirstBroken(c, log, i) == k
    decreases k - i
  {
    if i < k {
      FirstBrokenIs(c, log, i + 1, k);
    }
  }

  /** The published head is the last entry's hash, and sixty-four zeros before any entry. */
  lemma HeadMeans(log: seq<Entry>)
    ensures log != [] ==> Head(log) == log[|log| - 1].hash
    ensures log == [] ==> Head(log) == GENESIS
    ensures |GENESIS| == 64 && forall c :: c in GENESIS ==> c == '0'
  {
    assert forall c :: c in ZEROS ==> c == '0';
  }
}
