/** The CEF printer (reporting/export.py) and the independent reader that shows its output is unambiguous. */
module Cef {

  import AuditChain
  import Rules
  import opened Sorting

  // ---------------------------------------------------------------------------
  // Escaping, and a reader that undoes it
  // ---------------------------------------------------------------------------

  /** Backslash and the delimiter, each behind a backslash. */
  function Mark(d: char, c: char): string {
    if c == '\\' || c == d then ['\\', c] else [c]
  }

  function Escape(d: char, s: string): string {
    if s == "" then "" else Mark(d, s[0]) + Escape(d, s[1..])
  }

  /** What stands before the first unescaped delimiter, unescaped; the whole text if there is none. */
  datatype Cut = Found(field: string, rest: string) | Whole(field: string)

  function Prepend(c: char, cut: Cut): Cut {
    cut.(field := [c] + cut.field)
  }

  function CutAt(d: char, s: string): (r: Cut)
    ensures r.Found? ==> |r.rest| < |s|
    decreases |s|
  {
    if s == "" then Whole("")
    else if s[0] == '\\' && |s| > 1 then Prepend(s[1], CutAt(d, s[2..]))
    else if s[0] == d then Found("", s[1..])
    else Prepend(s[0], CutAt(d, s[1..]))
  }

  lemma CutMark(d: char, c: char, tail: string)
    requires d != '\\'
    ensures CutAt(d, Mark(d, c) + tail) == Prepend(c, CutAt(d, tail))
  {
    var text := Mark(d, c) + tail;
    if |Mark(d, c)| == 2 {
      assert text[2..] == tail;
    } else {
      assert text[1..] == tail;
    }
  }

  lemma {:induction false} CutEscaped(d: char, s: string, rest: string)
    requires d != '\\'
    ensures CutAt(d, Escape(d, s) + [d] + rest) == Found(s, rest)
  {
    if s == "" {
      assert "" + [d] + rest == [d] + rest;
    } else {
      CutEscaped(d, s[1..], rest);
      var mark, tail := Mark(d, s[0]), Escape(d, s[1..]);
      assert mark + tail + [d] + rest == mark + (tail + [d] + rest);
      CutMark(d, s[0], tail + [d] + rest);
      assert s == [s[0]] + s[1..];
    }
  }

  lemma {:induction false} CutEscapedEnd(d: char, s: string)
    requires d != '\\'
    ensures CutAt(d, Escape(d, s)) == Whole(s)
  {
    if s != "" {
      CutEscapedEnd(d, s[1..]);
      CutMark(d, s[0], Escape(d, s[1..]));
      assert s == [s[0]] + s[1..];
    }
  }

  lemma {:induction false} EscapeJoins(d: char, a: string, b: string)
    ensures Escape(d, a + b) == Escape(d, a) + Escape(d, b)
  {
    if a == "" {
      assert a + b == b;
    } else {
      EscapeJoins(d, a[1..], b);
      EscapeJoinsFirst(d, a[0], a[1..], b);
      assert a == [a[0]] + a[1..];
    }
  }

  lemma EscapeJoinsFirst(d: char, c: char, a: string, b: string)
    requires Escape(d, a + b) == Escape(d, a) + Escape(d, b)
    ensures Escape(d, ([c] + a) + b) == Escape(d, [c] + a) + Escape(d, b)
  {
    EscapeFirst(d, c, a + b);
    EscapeFirst(d, c, a);
    Regroup([c], a, b);
    Regroup(Mark(d, c), Escape(d, a), Escape(d, b));
  }

  lemma Regroup(a: string, b: string, c: string)
    ensures (a + b) + c == a + (b + c)
  {
  }

  lemma EscapeFirst(d: char, c: char, rest: string)
    ensures Escape(d, [c] + rest) == Mark(d, c) + Escape(d, rest)
  {
    assert ([c] + rest)[1..] == rest;
  }

  predicate Plain(d: char, s: string) {
    '\\' !in s && d !in s
  }

  lemma {:induction false} NothingToEscape(d: char, s: string)
    requires Plain(d, s)
    ensures Escape(d, s) == s
  {
    if s != "" {
      NothingToEscape(d, s[1..]);
    }
  }

  // ---------------------------------------------------------------------------
  // The two escapes of the source
  // ---------------------------------------------------------------------------

  function ReplaceChar(s: string, c: char, put: string): string {
    if s == "" then "" else (if s[0] == c then put else [s[0]]) + ReplaceChar(s[1..], c, put)
  }

  /** Every carriage return followed by a line feed, left to right, becomes one space. */
  function ReplaceCrlf(s: string): string
    decreases |s|
  {
    if s == "" then ""
    else if |s| > 1 && s[0] == '\r' && s[1] == '\n' then " " + ReplaceCrlf(s[2..])
    else [s[0]] + ReplaceCrlf(s[1..])
  }

  function Spaced(s: string): string {
    ReplaceChar(ReplaceChar(ReplaceCrlf(s), '\n', " "), '\r', " ")
  }

  function EscapeHeader(s: string): string {
    Escape('|', s)
  }

  /** The five replacements, in the order the source makes them. */
  function EscapeExtension(s: string): string {
    Spaced(ReplaceChar(ReplaceChar(s, '\\', "\\\\"), '=', "\\="))
  }

  lemma {:induction false} TwoPassesEscape(s: string)
    ensures ReplaceChar(ReplaceChar(s, '\\', "\\\\"), '=', "\\=") == Escape('=', s)
  {
    if s != "" {
      TwoPassesEscape(s[1..]);
      var rest := ReplaceChar(s[1..], '\\', "\\\\");
      var first := if s[0] == '\\' then "\\\\" else [s[0]];
      ReplaceCharJoins(first, rest, '=', "\\=");
      if s[0] == '\\' {
        assert "\\\\"[1..] == "\\" && "\\"[1..] == "";
      } else {
        assert first[1..] == "";
      }
    }
  }

  lemma {:induction false} ReplaceCharJoins(a: string, b: string, c: char, put: string)
    ensures ReplaceChar(a + b, c, put) == ReplaceChar(a, c, put) + ReplaceChar(b, c, put)
  {
    if a == "" {
      assert a + b == b;
    } else {
      ReplaceCharJoins(a[1..], b, c, put);
      assert (a + b)[1..] == a[1..] + b;
      var first := if a[0] == c then put else [a[0]];
      Regroup(first, ReplaceChar(a[1..], c, put), ReplaceChar(b, c, put));
    }
  }

  lemma {:induction false} CrlfCommutes(s: string)
    ensures ReplaceCrlf(Escape('=', s)) == Escape('=', ReplaceCrlf(s))
    decreases |s|
  {
    if s == "" {
    } else if |s| > 1 && s[0] == '\r' && s[1] == '\n' {
      CrlfCommutes(s[2..]);
      CrlfPasses(s[2..]);
      assert s == ['\r'] + (['\n'] + s[2..]);
      EscapeFirst('=', ' ', ReplaceCrlf(s[2..]));
    } else {
      CrlfCommutes(s[1..]);
      var rest := Escape('=', s[1..]);
      if s[0] == '\r' && rest != "" {
        assert s[1] != '\n';
        assert rest[0] == Mark('=', s[1])[0];
      }
      MarkPassesCrlf(s[0], rest);
      EscapeFirst('=', s[0], ReplaceCrlf(s[1..]));
    }
  }

  lemma CrlfPasses(rest: string)
    ensures ReplaceCrlf(Escape('=', ['\r'] + (['\n'] + rest))) == " " + ReplaceCrlf(Escape('=', rest))
  {
    EscapeFirst('=', '\r', ['\n'] + rest);
    EscapeFirst('=', '\n', rest);
    var e := ['\r'] + (['\n'] + Escape('=', rest));
    assert e[2..] == Escape('=', rest);
  }

  lemma MarkPassesCrlf(c: char, rest: string)
    requires c == '\r' ==> rest == "" || rest[0] != '\n'
    ensures ReplaceCrlf(Mark('=', c) + rest) == Mark('=', c) + ReplaceCrlf(rest)
  {
    var s := Mark('=', c) + rest;
    if |Mark('=', c)| == 1 {
      assert s[1..] == rest;
    } else {
      assert s[1..] == [c] + rest;
      assert s[1..][1..] == rest;
    }
  }

  lemma {:induction false} SpaceCommutes(s: string, c: char)
    requires c != '\\' && c != '='
    ensures ReplaceChar(Escape('=', s), c, " ") == Escape('=', ReplaceChar(s, c, " "))
  {
    if s != "" {
      SpaceCommutes(s[1..], c);
      var rest := Escape('=', s[1..]);
      var put := if s[0] == c then ' ' else s[0];
      ReplaceCharJoins(Mark('=', s[0]), rest, c, " ");
      MarkPassesSpace(s[0], c);
      EscapeFirst('=', put, ReplaceChar(s[1..], c, " "));
    }
  }

  lemma MarkPassesSpace(x: char, c: char)
    requires c != '\\' && c != '='
    ensures ReplaceChar(Mark('=', x), c, " ") == Mark('=', if x == c then ' ' else x)
  {
    assert [x][1..] == "" && " " == [' '];
    assert ReplaceChar([x], c, " ") == [if x == c then ' ' else x];
    if |Mark('=', x)| == 2 {
      assert Mark('=', x)[1..] == [x];
      assert ReplaceChar(Mark('=', x), c, " ") == ['\\'] + [x];
    } else {
      assert x != '=' && x != '\\';
    }
  }

  /** Escaping and turning line breaks into spaces commute, so one read undoes the escaping. */
  lemma ExtensionEscapeMeaning(s: string)
    ensures EscapeExtension(s) == Escape('=', Spaced(s))
  {
    TwoPassesEscape(s);
    CrlfCommutes(s);
    SpaceCommutes(ReplaceCrlf(s), '\n');
    SpaceCommutes(ReplaceChar(ReplaceCrlf(s), '\n', " "), '\r');
  }

  lemma {:induction false} ReplaceRemoves(s: string, c: char, d: char)
    requires c != ' '
    ensures c !in ReplaceChar(s, c, " ")
    ensures d != ' ' && d !in s ==> d !in ReplaceChar(s, c, " ")
  {
    if s != "" {
      ReplaceRemoves(s[1..], c, d);
    }
  }

  /** No line break survives in an extension value. */
  lemma SpacedHasNoBreak(s: string)
    ensures '\n' !in Spaced(s) && '\r' !in Spaced(s)
  {
    ReplaceRemoves(ReplaceCrlf(s), '\n', '\n');
    ReplaceRemoves(ReplaceChar(ReplaceCrlf(s), '\n', " "), '\r', '\n');
  }

  lemma {:induction false} ReplaceNothing(s: string, c: char)
    requires c !in s
    ensures ReplaceChar(s, c, " ") == s
  {
    if s != "" {
      ReplaceNothing(s[1..], c);
    }
  }

  lemma {:induction false} CrlfNothing(s: string)
    requires '\n' !in s
    ensures ReplaceCrlf(s) == s
  {
    if s != "" {
      CrlfNothing(s[1..]);
    }
  }

  /** A value without line breaks is read back exactly. */
  lemma SpacedKeeps(s: string)
    requires '\n' !in s && '\r' !in s
    ensures Spaced(s) == s
  {
    CrlfNothing(s);
    ReplaceNothing(s, '\n');
    ReplaceNothing(s, '\r');
  }

  // ---------------------------------------------------------------------------
  // One line
  // ---------------------------------------------------------------------------

  function Joined(sep: string, parts: seq<string>): string {
    if parts == [] then ""
    else if |parts| == 1 then parts[0]
    else parts[0] + sep + Joined(sep, parts[1..])
  }

  datatype Value = None | Str(text: string) | Int(n: nat)

  type Pairs = seq<(string, Value)>

  function Text(v: Value): string {
    match v
    case None => "None"
    case Str(t) => t
    case Int(n) => AuditChain.Decimal(n)
  }

  predicate Empty(v: Value) {
    v == None || v == Str("")
  }

  function Shown(pairs: Pairs): Pairs {
    if pairs == [] then []
    else if Empty(pairs[0].1) then Shown(pairs[1..])
    else [pairs[0]] + Shown(pairs[1..])
  }

  function PrintPair(p: (string, Value)): string {
    p.0 + "=" + EscapeExtension(Text(p.1))
  }

  function PrintPairs(pairs: Pairs): seq<string> {
    if pairs == [] then [] else [PrintPair(pairs[0])] + PrintPairs(pairs[1..])
  }

  datatype Record = Record(sig: string, name: string, level: nat, extension: Pairs)

  function HeaderFields(r: Record): seq<string> {
    ["CEF:0", "VaultScope", "IPsec Analyzer", "1.0", r.sig, r.name, AuditChain.Decimal(r.level)]
  }

  /** The version and the severity are printed as they are, the other five escaped. */
  function PrintedHeader(r: Record): seq<string> {
    ["CEF:0", EscapeHeader("VaultScope"), EscapeHeader("IPsec Analyzer"), EscapeHeader("1.0"),
     EscapeHeader(r.sig), EscapeHeader(r.name), AuditChain.Decimal(r.level)]
  }

  function CefLine(r: Record): string {
    Joined("|", PrintedHeader(r)) + "|" + Joined(" ", PrintPairs(Shown(r.extension)))
  }

  // ---------------------------------------------------------------------------
  // The reader
  // ---------------------------------------------------------------------------

  datatype Header = Header(fields: seq<string>, rest: string) | NoHeader

  /** The first `n` fields, each ended by an unescaped bar. */
  function ReadFields(n: nat, s: string): Header {
    if n == 0 then Header([], s)
    else match CutAt('|', s)
      case Whole(_) => NoHeader
      case Found(field, rest) => AddField(field, ReadFields(n - 1, rest))
  }

  function AddField(field: string, h: Header): Header {
    if h.Header? then Header([field] + h.fields, h.rest) else NoHeader
  }

  function LastSpace(s: string): (k: int)
    ensures -1 <= k < |s|
  {
    if s == "" then -1
    else if s[|s| - 1] == ' ' then |s| - 1
    else LastSpace(s[..|s| - 1])
  }

  /** Values end at the space before the next key. */
  function ReadPairs(key: string, s: string): seq<(string, string)>
    decreases |s|
  {
    match CutAt('=', s)
    case Whole(value) => [(key, value)]
    case Found(segment, rest) =>
      var k := LastSpace(segment);
      [(key, if k < 0 then "" else segment[..k])] + ReadPairs(segment[k + 1..], rest)
  }

  function ReadExtension(s: string): seq<(string, string)> {
    match CutAt('=', s)
    case Whole(_) => []
    case Found(key, rest) => ReadPairs(key, rest)
  }

  datatype Event = Event(fields: seq<string>, extension: seq<(string, string)>) | Unreadable

  function ReadLine(s: string): Event {
    var h := ReadFields(7, s);
    if h.Header? then Event(h.fields, ReadExtension(h.rest)) else Unreadable
  }

  /** What a record tells its reader: empty values dropped, line breaks in values turned into spaces. */
  function Told(pairs: Pairs): seq<(string, string)> {
    if pairs == [] then []
    else if Empty(pairs[0].1) then Told(pairs[1..])
    else [(pairs[0].0, Spaced(Text(pairs[0].1)))] + Told(pairs[1..])
  }

  function Meaning(r: Record): Event {
    Event(HeaderFields(r), Told(r.extension))
  }

  // ---------------------------------------------------------------------------
  // The reader inverts the printer
  // ---------------------------------------------------------------------------

  function EscapedAll(fields: seq<string>): seq<string> {
    Mapped(EscapeHeader, fields)
  }

  lemma {:induction false} HeaderReadsBack(fields: seq<string>, rest: string)
    requires fields != []
    ensures ReadFields(|fields|, Joined("|", EscapedAll(fields)) + "|" + rest) == Header(fields, rest)
  {
    var text := Joined("|", EscapedAll(fields)) + "|" + rest;
    var first := EscapeHeader(fields[0]);
    if |fields| == 1 {
      assert EscapedAll(fields[1..]) == [];
      assert EscapedAll(fields) == [first];
      assert text == first + "|" + rest;
      OneField(fields[0], rest);
      assert fields == [fields[0]];
    } else {
      HeaderReadsBack(fields[1..], rest);
      var more := Joined("|", EscapedAll(fields[1..])) + "|" + rest;
      assert EscapedAll(fields)[1..] == EscapedAll(fields[1..]);
      assert text == first + "|" + more;
      FieldInFront(fields[0], fields[1..], more, rest);
      assert fields == [fields[0]] + fields[1..];
    }
  }

  lemma OneField(field: string, rest: string)
    ensures ReadFields(1, EscapeHeader(field) + "|" + rest) == Header([field], rest)
  {
    CutEscaped('|', field, rest);
    assert [field] + [] == [field];
  }

  lemma FieldInFront(field: string, fields: seq<string>, more: string, rest: string)
    requires ReadFields(|fields|, more) == Header(fields, rest)
    ensures ReadFields(1 + |fields|, EscapeHeader(field) + "|" + more) == Header([field] + fields, rest)
  {
    CutEscaped('|', field, more);
  }

  predicate Digits(s: string) {
    forall c :: c in s ==> '0' <= c <= '9'
  }

  lemma {:induction false} DecimalIsDigits(n: nat)
    ensures Digits(AuditChain.Decimal(n))
  {
    if n >= 10 {
      DecimalIsDigits(n / 10);
    }
  }

  lemma PrintedAsIs(r: Record)
    ensures EscapeHeader("CEF:0") == "CEF:0"
    ensures EscapeHeader(AuditChain.Decimal(r.level)) == AuditChain.Decimal(r.level)
  {
    NothingToEscape('|', "CEF:0");
    DecimalIsDigits(r.level);
    NothingToEscape('|', AuditChain.Decimal(r.level));
  }

  lemma EscapedSeven(a: string, b: string, c: string, d: string, e: string, f: string, g: string)
    ensures EscapedAll([a, b, c, d, e, f, g]) ==
              [EscapeHeader(a), EscapeHeader(b), EscapeHeader(c), EscapeHeader(d), EscapeHeader(e),
               EscapeHeader(f), EscapeHeader(g)]
  {
  }

  /** Escaping would leave the two fields that are printed as they are untouched. */
  lemma PrintedHeaderIsEscaped(r: Record)
    ensures PrintedHeader(r) == EscapedAll(HeaderFields(r))
  {
    PrintedAsIs(r);
    EscapedSeven("CEF:0", "VaultScope", "IPsec Analyzer", "1.0", r.sig, r.name, AuditChain.Decimal(r.level));
  }

  predicate CleanKey(k: string) {
    Plain('=', k) && ' ' !in k && '\n' !in k
  }

  ghost predicate CleanKeys(pairs: Pairs) {
    forall i :: 0 <= i < |pairs| ==> CleanKey(pairs[i].0)
  }

  lemma {:induction false} LastSpaceBefore(v: string, k: string)
    requires ' ' !in k
    ensures LastSpace(v + " " + k) == |v|
  {
    var s := v + " " + k;
    if k == "" {
      assert s == v + " ";
    } else {
      assert s[|s| - 1] == k[|k| - 1];
      assert s[..|s| - 1] == v + " " + k[..|k| - 1];
      LastSpaceBefore(v, k[..|k| - 1]);
    }
  }

  /** The printed pairs after the first key and its equals sign. */
  function AfterKey(pairs: Pairs): string
    requires pairs != []
  {
    EscapeExtension(Text(pairs[0].1)) + if |pairs| == 1 then "" else " " + Joined(" ", PrintPairs(pairs[1..]))
  }

  lemma {:induction false} PrintPairsLength(pairs: Pairs)
    ensures |PrintPairs(pairs)| == |pairs|
  {
    if pairs != [] {
      PrintPairsLength(pairs[1..]);
    }
  }

  lemma PairsSplit(pairs: Pairs)
    requires pairs != []
    ensures Joined(" ", PrintPairs(pairs)) == pairs[0].0 + "=" + AfterKey(pairs)
  {
    PrintPairsLength(pairs);
    var printed := PrintPairs(pairs[1..]);
    JoinedFirst(pairs[0].0 + "=", EscapeExtension(Text(pairs[0].1)), printed);
    assert printed == [] <==> |pairs| == 1;
  }

  lemma JoinedFirst(key: string, value: string, rest: seq<string>)
    ensures Joined(" ", [key + value] + rest) == key + (value + if rest == [] then "" else " " + Joined(" ", rest))
  {
    if rest == [] {
      assert [key + value] + rest == [key + value];
      assert value + "" == value;
    } else {
      assert ([key + value] + rest)[1..] == rest;
      Regroup(key, value, " " + Joined(" ", rest));
    }
  }

  /** The text after a key holds that key's value, then the next key, up to the next equals sign. */
  lemma AfterKeyStep(pairs: Pairs)
    requires |pairs| > 1 && CleanKey(pairs[1].0)
    ensures AfterKey(pairs) == Escape('=', Spaced(Text(pairs[0].1)) + " " + pairs[1].0) + "=" + AfterKey(pairs[1..])
  {
    var value, next := Spaced(Text(pairs[0].1)), pairs[1].0;
    ExtensionEscapeMeaning(Text(pairs[0].1));
    PairsSplit(pairs[1..]);
    PlainTail(value, next);
    var rest := AfterKey(pairs[1..]);
    assert Escape('=', value) + (" " + (next + "=" + rest)) == (Escape('=', value) + (" " + next)) + "=" + rest;
  }

  lemma PlainTail(value: string, next: string)
    requires CleanKey(next)
    ensures Escape('=', value + " " + next) == Escape('=', value) + (" " + next)
  {
    EscapeJoins('=', value, " " + next);
    NothingToEscape('=', " " + next);
    assert value + (" " + next) == value + " " + next;
  }

  lemma ReadPairsStep(key: string, value: string, next: string, rest: string)
    requires CleanKey(next)
    ensures ReadPairs(key, Escape('=', value + " " + next) + "=" + rest) == [(key, value)] + ReadPairs(next, rest)
  {
    var segment := value + " " + next;
    CutEscaped('=', segment, rest);
    LastSpaceBefore(value, next);
    assert segment[..|value|] == value && segment[|value| + 1..] == next;
  }

  lemma {:induction false} PairsReadBack(pairs: Pairs)
    requires pairs != [] && CleanKeys(pairs) && Shown(pairs) == pairs
    ensures ReadPairs(pairs[0].0, AfterKey(pairs)) == Told(pairs)
  {
    var key, value := pairs[0].0, Spaced(Text(pairs[0].1));
    ShownHead(pairs);
    if |pairs| == 1 {
      ExtensionEscapeMeaning(Text(pairs[0].1));
      CutEscapedEnd('=', value);
      assert AfterKey(pairs) == Escape('=', value);
      assert Told(pairs[1..]) == [];
    } else {
      assert CleanKey(pairs[1].0);
      AfterKeyStep(pairs);
      ReadPairsStep(key, value, pairs[1].0, AfterKey(pairs[1..]));
      PairsReadBack(pairs[1..]);
    }
  }

  lemma ShownHead(pairs: Pairs)
    requires pairs != [] && Shown(pairs) == pairs
    ensures !Empty(pairs[0].1) && Shown(pairs[1..]) == pairs[1..]
  {
    ShownLength(pairs[1..]);
    assert ([pairs[0]] + Shown(pairs[1..]))[1..] == Shown(pairs[1..]);
  }

  lemma {:induction false} ShownLength(pairs: Pairs)
    ensures |Shown(pairs)| <= |pairs|
  {
    if pairs != [] {
      ShownLength(pairs[1..]);
    }
  }

  lemma {:induction false} ShownFacts(pairs: Pairs)
    requires CleanKeys(pairs)
    ensures Shown(Shown(pairs)) == Shown(pairs)
    ensures Told(Shown(pairs)) == Told(pairs)
    ensures CleanKeys(Shown(pairs))
  {
    if pairs != [] {
      ShownFacts(pairs[1..]);
      assert ([pairs[0]] + Shown(pairs[1..]))[1..] == Shown(pairs[1..]);
    }
  }

  lemma ExtensionReadsBack(pairs: Pairs)
    requires CleanKeys(pairs)
    ensures ReadExtension(Joined(" ", PrintPairs(Shown(pairs)))) == Told(pairs)
  {
    ShownFacts(pairs);
    var shown := Shown(pairs);
    if shown != [] {
      PairsSplit(shown);
      var key := shown[0].0;
      assert CleanKey(key);
      NothingToEscape('=', key);
      CutEscaped('=', key, AfterKey(shown));
      PairsReadBack(shown);
    }
  }

  /** Main result for one line: header fields come back exactly, and every non-empty pair up to line breaks. */
  lemma LineReadsBack(r: Record)
    requires CleanKeys(r.extension)
    ensures ReadLine(CefLine(r)) == Meaning(r)
  {
    PrintedHeaderIsEscaped(r);
    HeaderReadsBack(HeaderFields(r), Joined(" ", PrintPairs(Shown(r.extension))));
    ExtensionReadsBack(r.extension);
  }

  lemma LinesDiffer(a: Record, b: Record)
    requires CleanKeys(a.extension) && CleanKeys(b.extension)
    requires CefLine(a) == CefLine(b)
    ensures a.sig == b.sig && a.name == b.name && a.level == b.level && Told(a.extension) == Told(b.extension)
  {
    LineReadsBack(a);
    LineReadsBack(b);
    assert HeaderFields(a)[4] == HeaderFields(b)[4] && HeaderFields(a)[5] == HeaderFields(b)[5];
    assert HeaderFields(a)[6] == HeaderFields(b)[6];
    AuditChain.DecimalInjective(a.level, b.level);
  }

  // ---------------------------------------------------------------------------
  // The feed
  // ---------------------------------------------------------------------------

  datatype Finding = Finding(ruleId: string, description: string, severity: Rules.Severity, cve: Value,
                             standard: string, inferredFrom: seq<string>)

  datatype Session = Session(id: string, initiator: string, responder: string, version: string, encryption: string,
                             dhGroup: string, riskScore: nat, modelVersion: string, predictedType: string,
                             timestamp: string, findings: seq<Finding>)

  datatype Anomaly = Anomaly(sessionId: string, anomalyType: string, description: string, severity: Rules.Severity,
                             evidence: seq<nat>, timestamp: string)

  function Level(v: Rules.Severity): nat {
    match v
    case CRITICAL => 10
    case HIGH => 8
    case MEDIUM => 5
    case LOW => 3
    case SAFE => 0
  }

  function Base(s: Session): Pairs {
    [("src", Str(s.initiator)), ("dst", Str(s.responder)),
     ("cs1Label", Str("sessionId")), ("cs1", Str(s.id)),
     ("cs2Label", Str("ikeVersion")), ("cs2", Str(s.version)),
     ("cs3Label", Str("encryption")), ("cs3", Str(s.encryption)),
     ("cs4Label", Str("dhGroup")), ("cs4", Str(s.dhGroup)),
     ("cn1Label", Str("riskScore")), ("cn1", Int(s.riskScore)),
     ("cs5Label", Str("trafficType")),
     ("cs5", Str(if s.modelVersion == "no-esp-observed" then "" else s.predictedType)),
     ("rt", Str(s.timestamp))]
  }

  function CleanRecord(s: Session): Record {
    Record("VS-CLEAN", "No security findings", Level(Rules.SAFE), Base(s))
  }

  function FindingExtension(f: Finding): Pairs {
    [("cs6Label", Str("standard")), ("cs6", Str(f.standard))]
    + (if f.inferredFrom == [] then []
       else [("flexString1Label", Str("inferredFields")), ("flexString1", Str(Joined(",", f.inferredFrom)))])
    + (if Empty(f.cve) then [] else [("cve", f.cve)])
  }

  function FindingRecord(s: Session, f: Finding): Record {
    Record(f.ruleId, f.description, Level(f.severity), Base(s) + FindingExtension(f))
  }

  function FindingRecords(s: Session, findings: seq<Finding>): seq<Record> {
    if findings == [] then []
    else FindingRecords(s, findings[..|findings| - 1]) + [FindingRecord(s, findings[|findings| - 1])]
  }

  function SessionRecords(s: Session): seq<Record> {
    if s.findings == [] then [CleanRecord(s)] else FindingRecords(s, s.findings)
  }

  function RecordsOf(sessions: seq<Session>): seq<Record> {
    if sessions == [] then []
    else RecordsOf(sessions[..|sessions| - 1]) + SessionRecords(sessions[|sessions| - 1])
  }

  /** Addresses by session id; a repeated id keeps its last addresses. */
  function Peers(sessions: seq<Session>): map<string, (string, string)> {
    if sessions == [] then map[]
    else
      var s := sessions[|sessions| - 1];
      Peers(sessions[..|sessions| - 1])[s.id := (s.initiator, s.responder)]
  }

  function AnomalyRecord(peers: map<string, (string, string)>, a: Anomaly): Record {
    var p := if a.sessionId in peers then peers[a.sessionId] else ("", "");
    Record(a.anomalyType, a.description, Level(a.severity),
           [("src", Str(p.0)), ("dst", Str(p.1)), ("cs1Label", Str("sessionId")), ("cs1", Str(a.sessionId)),
            ("cs6Label", Str("evidenceFrames")), ("cs6", Str(Joined(",", Mapped(AuditChain.Decimal, a.evidence)))),
            ("rt", Str(a.timestamp))])
  }

  function AnomalyRecords(peers: map<string, (string, string)>, anomalies: seq<Anomaly>): seq<Record> {
    if anomalies == [] then []
    else AnomalyRecords(peers, anomalies[..|anomalies| - 1]) + [AnomalyRecord(peers, anomalies[|anomalies| - 1])]
  }

  function Records(sessions: seq<Session>, anomalies: seq<Anomaly>): seq<Record> {
    RecordsOf(sessions) + AnomalyRecords(Peers(sessions), anomalies)
  }

  function Lines(records: seq<Record>): seq<string> {
    Mapped(CefLine, records)
  }

  lemma LinesGrow(a: seq<Record>, b: seq<Record>)
    ensures Lines(a + b) == Lines(a) + Lines(b)
  {
    MappedAppend(CefLine, a, b);
  }

  lemma LinesAdd(a: seq<Record>, r: Record)
    ensures Lines(a + [r]) == Lines(a) + [CefLine(r)]
  {
    MappedSnoc(CefLine, a, r);
  }

  /** One line per finding, one per clean session, one per anomaly. */
  method ToCef(sessions: seq<Session>, anomalies: seq<Anomaly>) returns (text: string)
    ensures text == Joined("\n", Lines(Records(sessions, anomalies)))
  {
    var lines := SessionLines(sessions);
    lines := AddAnomalyLines(lines, RecordsOf(sessions), Peers(sessions), anomalies);
    text := Joined("\n", lines);
  }

  method SessionLines(sessions: seq<Session>) returns (lines: seq<string>)
    ensures lines == Lines(RecordsOf(sessions))
  {
    lines := [];
    var i := 0;
    while i < |sessions|
      invariant 0 <= i <= |sessions|
      invariant lines == Lines(RecordsOf(sessions[..i]))
    {
      var more := LinesForSession(sessions[i]);
      assert sessions[..i + 1][..i] == sessions[..i];
      LinesGrow(RecordsOf(sessions[..i]), SessionRecords(sessions[i]));
      lines := lines + more;
      i := i + 1;
    }
    assert sessions[..i] == sessions;
  }

  /** One pass through the loop over sessions: a clean session has one line, else one per finding. */
  method LinesForSession(s: Session) returns (lines: seq<string>)
    ensures lines == Lines(SessionRecords(s))
  {
    if s.findings == [] {
      return [CefLine(CleanRecord(s))];
    }
    lines := [];
    var j := 0;
    while j < |s.findings|
      invariant 0 <= j <= |s.findings|
      invariant lines == Lines(FindingRecords(s, s.findings[..j]))
    {
      var line := FindingLine(s, s.findings, j);
      lines := lines + [line];
      j := j + 1;
    }
    assert s.findings[..j] == s.findings;
  }

  method FindingLine(s: Session, findings: seq<Finding>, j: nat) returns (line: string)
    requires j < |findings|
    ensures Lines(FindingRecords(s, findings[..j + 1])) == Lines(FindingRecords(s, findings[..j])) + [line]
  {
    FindingStep(s, findings, j);
    line := CefLine(FindingRecord(s, findings[j]));
  }

  lemma FindingStep(s: Session, findings: seq<Finding>, j: nat)
    requires j < |findings|
    ensures Lines(FindingRecords(s, findings[..j + 1]))
         == Lines(FindingRecords(s, findings[..j])) + [CefLine(FindingRecord(s, findings[j]))]
  {
    assert findings[..j + 1][..j] == findings[..j];
    LinesAdd(FindingRecords(s, findings[..j]), FindingRecord(s, findings[j]));
  }

  /** The records after the sessions and the first `k` anomalies. */
  function RecordsThrough(records: seq<Record>, peers: map<string, (string, string)>,
                          anomalies: seq<Anomaly>, k: nat): seq<Record>
    requires k <= |anomalies|
  {
    records + AnomalyRecords(peers, anomalies[..k])
  }

  method AddAnomalyLines(before: seq<string>, ghost records: seq<Record>, peers: map<string, (string, string)>,
                         anomalies: seq<Anomaly>) returns (lines: seq<string>)
    requires before == Lines(records)
    ensures lines == Lines(records + AnomalyRecords(peers, anomalies))
  {
    lines := before;
    assert RecordsThrough(records, peers, anomalies, 0) == records;
    var k := 0;
    while k < |anomalies|
      invariant 0 <= k <= |anomalies|
      invariant lines == Lines(RecordsThrough(records, peers, anomalies, k))
    {
      var line := AnomalyLine(records, peers, anomalies, k);
      lines := lines + [line];
      k := k + 1;
    }
    assert anomalies[..k] == anomalies;
  }

  method AnomalyLine(ghost records: seq<Record>, peers: map<string, (string, string)>, anomalies: seq<Anomaly>, k: nat)
    returns (line: string)
    requires k < |anomalies|
    ensures Lines(RecordsThrough(records, peers, anomalies, k + 1))
         == Lines(RecordsThrough(records, peers, anomalies, k)) + [line]
  {
    AnomalyStep(records, peers, anomalies, k);
    line := CefLine(AnomalyRecord(peers, anomalies[k]));
  }

  lemma AnomalyStep(records: seq<Record>, peers: map<string, (string, string)>, anomalies: seq<Anomaly>, k: nat)
    requires k < |anomalies|
    ensures Lines(RecordsThrough(records, peers, anomalies, k + 1))
         == Lines(RecordsThrough(records, peers, anomalies, k)) + [CefLine(AnomalyRecord(peers, anomalies[k]))]
  {
    assert anomalies[..k + 1][..k] == anomalies[..k];
    AddOne(records, AnomalyRecords(peers, anomalies[..k]), AnomalyRecord(peers, anomalies[k]));
  }

  lemma AddOne(a: seq<Record>, b: seq<Record>, r: Record)
    ensures Lines(a + (b + [r])) == Lines(a + b) + [CefLine(r)]
  {
    assert a + (b + [r]) == (a + b) + [r];
    LinesAdd(a + b, r);
  }

  // ---------------------------------------------------------------------------
  // The line count
  // ---------------------------------------------------------------------------

  function Expected(sessions: seq<Session>): nat {
    if sessions == [] then 0
    else (if sessions[0].findings == [] then 1 else |sessions[0].findings|) + Expected(sessions[1..])
  }

  lemma {:induction false} ExpectedLast(sessions: seq<Session>)
    requires sessions != []
    ensures Expected(sessions) == Expected(sessions[..|sessions| - 1])
              + var f := |sessions[|sessions| - 1].findings|; if f == 0 then 1 else f
  {
    if |sessions| > 1 {
      ExpectedLast(sessions[1..]);
      assert sessions[1..][..|sessions| - 2] == sessions[..|sessions| - 1][1..];
    }
  }

  lemma {:induction false} FindingRecordsLength(s: Session, findings: seq<Finding>)
    ensures |FindingRecords(s, findings)| == |findings|
  {
    if findings != [] {
      FindingRecordsLength(s, findings[..|findings| - 1]);
    }
  }

  lemma {:induction false} SessionLineCount(sessions: seq<Session>)
    ensures |RecordsOf(sessions)| == Expected(sessions)
  {
    if sessions != [] {
      var s := sessions[|sessions| - 1];
      SessionLineCount(sessions[..|sessions| - 1]);
      ExpectedLast(sessions);
      FindingRecordsLength(s, s.findings);
    }
  }

  lemma {:induction false} AnomalyLineCount(peers: map<string, (string, string)>, anomalies: seq<Anomaly>)
    ensures |AnomalyRecords(peers, anomalies)| == |anomalies|
  {
    if anomalies != [] {
      AnomalyLineCount(peers, anomalies[..|anomalies| - 1]);
    }
  }

  lemma LineCount(sessions: seq<Session>, anomalies: seq<Anomaly>)
    ensures |Lines(Records(sessions, anomalies))| == Expected(sessions) + |anomalies|
  {
    SessionLineCount(sessions);
    AnomalyLineCount(Peers(sessions), anomalies);
  }

  // ---------------------------------------------------------------------------
  // Every key the printer uses is clean
  // ---------------------------------------------------------------------------

  lemma SessionKeysClean(s: Session, f: Finding)
    ensures CleanKeys(Base(s)) && CleanKeys(Base(s) + FindingExtension(f))
  {
    BaseKeysClean(s);
    FindingKeysClean(f);
    CleanKeysJoin(Base(s), FindingExtension(f));
  }

  lemma BaseKeysClean(s: Session)
    ensures CleanKeys(Base(s))
  {
  }

  lemma FindingKeysClean(f: Finding)
    ensures CleanKeys(FindingExtension(f))
  {
  }

  lemma CleanKeysJoin(a: Pairs, b: Pairs)
    requires CleanKeys(a) && CleanKeys(b)
    ensures CleanKeys(a + b)
  {
  }

  lemma AnomalyKeysClean(peers: map<string, (string, string)>, a: Anomaly)
    ensures CleanKeys(AnomalyRecord(peers, a).extension)
  {
  }

  ghost predicate AllClean(records: seq<Record>) {
    forall i :: 0 <= i < |records| ==> CleanKeys(records[i].extension)
  }

  lemma {:induction false} FindingRecordsClean(s: Session, findings: seq<Finding>)
    ensures AllClean(FindingRecords(s, findings))
  {
    if findings != [] {
      FindingRecordsClean(s, findings[..|findings| - 1]);
      SessionKeysClean(s, findings[|findings| - 1]);
    }
  }

  lemma {:induction false} SessionsClean(sessions: seq<Session>)
    ensures AllClean(RecordsOf(sessions))
  {
    if sessions != [] {
      var s := sessions[|sessions| - 1];
      SessionsClean(sessions[..|sessions| - 1]);
      FindingRecordsClean(s, s.findings);
      SessionKeysClean(s, Finding("", "", Rules.SAFE, None, "", []));
    }
  }

  lemma {:induction false} AnomaliesClean(peers: map<string, (string, string)>, anomalies: seq<Anomaly>)
    ensures AllClean(AnomalyRecords(peers, anomalies))
  {
    if anomalies != [] {
      AnomaliesClean(peers, anomalies[..|anomalies| - 1]);
      AnomalyKeysClean(peers, anomalies[|anomalies| - 1]);
    }
  }

  lemma RecordsClean(sessions: seq<Session>, anomalies: seq<Anomaly>)
    ensures AllClean(Records(sessions, anomalies))
  {
    SessionsClean(sessions);
    AnomaliesClean(Peers(sessions), anomalies);
  }

  // ---------------------------------------------------------------------------
  // Splitting the feed into lines
  // ---------------------------------------------------------------------------

  function Split(s: string): (r: seq<string>)
    ensures r != []
  {
    if s == "" then [""]
    else
      var rest := Split(s[1..]);
      if s[0] == '\n' then [""] + rest else [[s[0]] + rest[0]] + rest[1..]
  }

  ghost predicate Unbroken(lines: seq<string>) {
    forall i :: 0 <= i < |lines| ==> '\n' !in lines[i]
  }

  lemma {:induction false} SplitIsUnbroken(s: string)
    ensures Unbroken(Split(s))
  {
    if s != "" {
      SplitIsUnbroken(s[1..]);
    }
  }

  lemma {:induction false} SplitWhole(s: string)
    requires '\n' !in s
    ensures Split(s) == [s]
  {
    if s != "" {
      SplitWhole(s[1..]);
      assert s == [s[0]] + s[1..];
    }
  }

  lemma {:induction false} SplitAtBreak(first: string, rest: string)
    requires '\n' !in first
    ensures Split(first + "\n" + rest) == [first] + Split(rest)
  {
    var s := first + "\n" + rest;
    if first == "" {
      assert s[1..] == rest;
    } else {
      SplitAtBreak(first[1..], rest);
      assert s[1..] == first[1..] + "\n" + rest;
      assert first == [first[0]] + first[1..];
    }
  }

  lemma {:induction false} SplitJoined(lines: seq<string>)
    requires lines != [] && Unbroken(lines)
    ensures Split(Joined("\n", lines)) == lines
  {
    if |lines| == 1 {
      SplitWhole(lines[0]);
    } else {
      SplitJoined(lines[1..]);
      SplitAtBreak(lines[0], Joined("\n", lines[1..]));
    }
  }

  lemma {:induction false} EscapeKeepsChars(d: char, s: string, c: char)
    requires c != '\\'
    ensures c in Escape(d, s) <==> c in s
  {
    if s != "" {
      EscapeKeepsChars(d, s[1..], c);
      assert s == [s[0]] + s[1..];
    }
  }

  lemma {:induction false} JoinedHas(c: char, sep: string, parts: seq<string>)
    requires c !in sep
    ensures c in Joined(sep, parts) <==> exists i :: 0 <= i < |parts| && c in parts[i]
  {
    if |parts| > 1 {
      JoinedHas(c, sep, parts[1..]);
      assert parts == [parts[0]] + parts[1..];
    }
  }

  lemma {:induction false} PrintedPairsUnbroken(pairs: Pairs)
    requires CleanKeys(pairs)
    ensures Unbroken(PrintPairs(pairs))
  {
    if pairs != [] {
      PrintedPairsUnbroken(pairs[1..]);
      var value := Text(pairs[0].1);
      assert CleanKey(pairs[0].0);
      ExtensionEscapeMeaning(value);
      SpacedHasNoBreak(value);
      EscapeKeepsChars('=', Spaced(value), '\n');
    }
  }

  predicate BrokenHeader(r: Record) {
    '\n' in r.sig || '\n' in r.name
  }

  lemma EscapedJoinBreaks(fields: seq<string>)
    ensures '\n' in Joined("|", EscapedAll(fields)) <==> exists i :: 0 <= i < |fields| && '\n' in fields[i]
  {
    JoinedHas('\n', "|", EscapedAll(fields));
    forall i | 0 <= i < |fields| ensures '\n' in EscapedAll(fields)[i] <==> '\n' in fields[i] {
      EscapeKeepsChars('|', fields[i], '\n');
    }
  }

  lemma HeaderFieldsBreak(r: Record)
    ensures (exists i :: 0 <= i < |HeaderFields(r)| && '\n' in HeaderFields(r)[i]) <==> BrokenHeader(r)
  {
    DecimalIsDigits(r.level);
    assert HeaderFields(r)[4] == r.sig && HeaderFields(r)[5] == r.name;
  }

  lemma HeaderBreaks(r: Record)
    ensures '\n' in Joined("|", PrintedHeader(r)) <==> BrokenHeader(r)
  {
    PrintedHeaderIsEscaped(r);
    EscapedJoinBreaks(HeaderFields(r));
    HeaderFieldsBreak(r);
  }

  /** The extension never breaks a line; the header does exactly when its signature or name holds a line feed. */
  lemma LineBreaksIff(r: Record)
    requires CleanKeys(r.extension)
    ensures '\n' in CefLine(r) <==> BrokenHeader(r)
  {
    HeaderBreaks(r);
    ShownFacts(r.extension);
    PrintedPairsUnbroken(Shown(r.extension));
    JoinedHas('\n', " ", PrintPairs(Shown(r.extension)));
  }

  /** Main result: the feed splits back into its lines exactly when no header field holds a line feed. */
  lemma FeedSplitsIff(sessions: seq<Session>, anomalies: seq<Anomaly>)
    requires Records(sessions, anomalies) != []
    ensures var records := Records(sessions, anomalies);
            Split(Joined("\n", Lines(records))) == Lines(records) <==>
            forall i :: 0 <= i < |records| ==> !BrokenHeader(records[i])
  {
    var records := Records(sessions, anomalies);
    RecordsClean(sessions, anomalies);
    forall i | 0 <= i < |records| ensures '\n' in Lines(records)[i] <==> BrokenHeader(records[i]) {
      LineBreaksIff(records[i]);
    }
    SplitIsUnbroken(Joined("\n", Lines(records)));
    if Unbroken(Lines(records)) {
      SplitJoined(Lines(records));
    } else {
      var i :| 0 <= i < |records| && '\n' in Lines(records)[i];
      assert BrokenHeader(records[i]);
    }
  }

  /** Reading the feed line by line then gives back every record. */
  lemma FeedReadsBack(sessions: seq<Session>, anomalies: seq<Anomaly>)
    requires Records(sessions, anomalies) != []
    requires forall i :: 0 <= i < |Records(sessions, anomalies)| ==> !BrokenHeader(Records(sessions, anomalies)[i])
    ensures Mapped(ReadLine, Split(Joined("\n", Lines(Records(sessions, anomalies)))))
         == Mapped(Meaning, Records(sessions, anomalies))
  {
    var records := Records(sessions, anomalies);
    FeedSplitsIff(sessions, anomalies);
    RecordsClean(sessions, anomalies);
    forall i | 0 <= i < |records| ensures ReadLine(Lines(records)[i]) == Meaning(records[i]) {
      LineReadsBack(records[i]);
    }
  }

  /** A line feed in a finding's description splits its event in two. */
  lemma NewlineInNameSplitsTheEvent(s: Session, f: Finding)
    requires s.findings == [f] && f.description == "a\nb"
    ensures Split(Joined("\n", Lines(Records([s], [])))) != Lines(Records([s], []))
  {
    OneFindingOneRecord(s, f);
    assert "a\nb"[1] == '\n';
    assert BrokenHeader(Records([s], [])[0]);
    FeedSplitsIff([s], []);
  }

  lemma OneFindingOneRecord(s: Session, f: Finding)
    requires s.findings == [f]
    ensures Records([s], []) == [FindingRecord(s, f)]
  {
    assert [s][..0] == [] && [f][..0] == [];
    assert FindingRecords(s, [f]) == [] + [FindingRecord(s, f)];
    assert RecordsOf([s]) == RecordsOf([]) + SessionRecords(s);
    assert AnomalyRecords(Peers([s]), []) == [];
  }

  // ---------------------------------------------------------------------------
  // What a record says
  // ---------------------------------------------------------------------------

  /** The five severities on the scale of zero to ten. */
  lemma LevelMeans(v: Rules.Severity)
    ensures Level(v) == if v.CRITICAL? then 10 else if v.HIGH? then 8 else if v.MEDIUM? then 5
                        else if v.LOW? then 3 else 0
  {
  }

  /** The seven header fields of every line. */
  lemma HeaderMeans(r: Record)
    ensures HeaderFields(r) ==
            ["CEF:0", "VaultScope", "IPsec Analyzer", "1.0"] + [r.sig, r.name, AuditChain.Decimal(r.level)]
  {
  }

  /** What each numbered key is called. */
  lemma LabelsMean(s: Session)
    ensures var b := Base(s);
            && ("cs1Label", Str("sessionId")) in b && ("cs2Label", Str("ikeVersion")) in b
            && ("cs3Label", Str("encryption")) in b && ("cs4Label", Str("dhGroup")) in b
            && ("cn1Label", Str("riskScore")) in b && ("cs5Label", Str("trafficType")) in b
  {
    var b := Base(s);
    assert b[2] in b && b[4] in b && b[6] in b && b[8] in b && b[10] in b && b[12] in b;
  }

  ghost predicate Tells(r: Record, key: string, text: string) {
    (key, Str(text)) in r.extension
  }

  lemma BaseTells(s: Session)
    ensures var b := Base(s);
            && ("src", Str(s.initiator)) in b && ("dst", Str(s.responder)) in b
            && ("cs1", Str(s.id)) in b && ("cs2", Str(s.version)) in b
            && ("cs3", Str(s.encryption)) in b && ("cs4", Str(s.dhGroup)) in b
            && ("cn1", Int(s.riskScore)) in b && ("rt", Str(s.timestamp)) in b
            && ("cs5", Str(if s.modelVersion == "no-esp-observed" then "" else s.predictedType)) in b
  {
    var b := Base(s);
    assert b[0] == ("src", Str(s.initiator)) && b[1] == ("dst", Str(s.responder));
    assert b[3] == ("cs1", Str(s.id)) && b[5] == ("cs2", Str(s.version));
    assert b[7] == ("cs3", Str(s.encryption)) && b[9] == ("cs4", Str(s.dhGroup));
    assert b[11] == ("cn1", Int(s.riskScore)) && b[14] == ("rt", Str(s.timestamp));
    assert b[13] == ("cs5", Str(if s.modelVersion == "no-esp-observed" then "" else s.predictedType));
  }

  lemma InFront(a: Pairs, b: Pairs)
    ensures forall p :: p in a || p in b ==> p in a + b
  {
  }

  /** A finding's record carries its rule, description and severity, and tells the session's addresses, id,
      version, cipher, group, score, traffic type and time. */
  lemma FindingRecordMeans(s: Session, f: Finding)
    ensures var r := FindingRecord(s, f);
            && r.sig == f.ruleId && r.name == f.description && r.level == Level(f.severity)
            && Tells(r, "src", s.initiator) && Tells(r, "dst", s.responder) && Tells(r, "cs1", s.id)
            && Tells(r, "cs2", s.version) && Tells(r, "cs3", s.encryption) && Tells(r, "cs4", s.dhGroup)
            && ("cn1", Int(s.riskScore)) in r.extension && Tells(r, "rt", s.timestamp)
            && Tells(r, "cs5", if s.modelVersion == "no-esp-observed" then "" else s.predictedType)
  {
    BaseTells(s);
    InFront(Base(s), FindingExtension(f));
  }

  /** And the finding's standard, the fields it was inferred from, and its advisory number, if it has any. */
  lemma FindingRecordTells(s: Session, f: Finding)
    ensures Tells(FindingRecord(s, f), "cs6", f.standard)
    ensures f.inferredFrom != [] ==> Tells(FindingRecord(s, f), "flexString1", Joined(",", f.inferredFrom))
    ensures !Empty(f.cve) ==> ("cve", f.cve) in FindingRecord(s, f).extension
  {
    var e := FindingExtension(f);
    var standard := [("cs6Label", Str("standard")), ("cs6", Str(f.standard))];
    var inferred := if f.inferredFrom == [] then []
                    else [("flexString1Label", Str("inferredFields")),
                          ("flexString1", Str(Joined(",", f.inferredFrom)))];
    var cve := if Empty(f.cve) then [] else [("cve", f.cve)];
    assert e == standard + inferred + cve;
    assert standard[1] in standard;
    InFront(standard, inferred);
    InFront(standard + inferred, cve);
    InFront(Base(s), e);
    if f.inferredFrom != [] {
      assert inferred[1] in inferred;
    }
    if !Empty(f.cve) {
      assert cve[0] in cve;
    }
  }

  /** A session without findings has the one record that says so. */
  lemma CleanRecordMeans(s: Session)
    ensures s.findings == [] ==>
              && |SessionRecords(s)| == 1
              && var r := SessionRecords(s)[0];
                 && r.sig == "VS-CLEAN" && r.name == "No security findings" && r.level == 0
                 && Tells(r, "src", s.initiator) && Tells(r, "dst", s.responder) && Tells(r, "cs1", s.id)
                 && ("cn1", Int(s.riskScore)) in r.extension
  {
    BaseTells(s);
  }

  /** Otherwise its records are its findings', in order. */
  lemma FindingRecordsInOrder(s: Session, findings: seq<Finding>, f: Finding)
    ensures s.findings != [] ==> SessionRecords(s) == FindingRecords(s, s.findings)
    ensures FindingRecords(s, []) == []
    ensures FindingRecords(s, findings + [f]) == FindingRecords(s, findings) + [FindingRecord(s, f)]
  {
    assert (findings + [f])[..|findings|] == findings;
  }

  /** The sessions' records follow one another in the order of the sessions. */
  lemma RecordsInOrder(sessions: seq<Session>, s: Session)
    ensures RecordsOf([]) == []
    ensures RecordsOf(sessions + [s]) == RecordsOf(sessions) + SessionRecords(s)
  {
    assert (sessions + [s])[..|sessions|] == sessions;
  }

  /** The addresses of an anomaly are those of the last session with its session id. */
  lemma {:induction false} PeersMean(sessions: seq<Session>, k: nat)
    requires k < |sessions| && forall j :: k < j < |sessions| ==> sessions[j].id != sessions[k].id
    ensures sessions[k].id in Peers(sessions)
    ensures Peers(sessions)[sessions[k].id] == (sessions[k].initiator, sessions[k].responder)
    decreases |sessions|
  {
    var n := |sessions| - 1;
    if k < n {
      PeersMean(sessions[..n], k);
    }
  }

  lemma {:induction false} UnknownHasNoPeers(sessions: seq<Session>, id: string)
    requires forall i :: 0 <= i < |sessions| ==> sessions[i].id != id
    ensures id !in Peers(sessions)
    decreases |sessions|
  {
    if sessions != [] {
      UnknownHasNoPeers(sessions[..|sessions| - 1], id);
    }
  }

  /** An anomaly's record carries its type, description and severity, and tells its session, the addresses
      known for it, its evidence and its time. */
  lemma AnomalyRecordMeans(peers: map<string, (string, string)>, a: Anomaly)
    ensures var r := AnomalyRecord(peers, a);
            && r.sig == a.anomalyType && r.name == a.description && r.level == Level(a.severity)
            && Tells(r, "cs1", a.sessionId) && Tells(r, "rt", a.timestamp)
            && Tells(r, "cs6", Joined(",", Mapped(AuditChain.Decimal, a.evidence)))
            && Tells(r, "src", if a.sessionId in peers then peers[a.sessionId].0 else "")
            && Tells(r, "dst", if a.sessionId in peers then peers[a.sessionId].1 else "")
  {
    var e := AnomalyRecord(peers, a).extension;
    assert e[0] in e && e[1] in e && e[3] in e && e[5] in e && e[6] in e;
  }

  /** The anomalies' records follow the sessions', in order. */
  lemma AnomalyRecordsInOrder(peers: map<string, (string, string)>, anomalies: seq<Anomaly>, a: Anomaly)
    ensures AnomalyRecords(peers, []) == []
    ensures AnomalyRecords(peers, anomalies + [a]) == AnomalyRecords(peers, anomalies) + [AnomalyRecord(peers, a)]
  {
    assert (anomalies + [a])[..|anomalies|] == anomalies;
  }
}
