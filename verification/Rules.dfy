/** Rule scoring and compliance (core/rules/engine.py, compliance.py) over the shipped tables
    (rules.yaml, compliance.yaml), and what hiding fields from the capture can do to them. */
module Rules {

  datatype Value = Missing | Word(text: string) | Flag(on: bool) | Number(n: int) | Items(count: nat)

  datatype Field =
    | Version | AggressiveMode | Encryption | Integrity | DhGroup | PfsStatus | AuthMethod | IpVersion
    | SaLifetime | Vendor | FragmentedIke | AntiReplay | DpdStatus | CertExpired | PqcStatus | GatewayMismatches

  /** A session, as the rules read it; an absent field resolves to Missing. */
  type Session = map<Field, Value>

  function Resolve(s: Session, f: Field): Value {
    if f in s then s[f] else Missing
  }

  // ---------------------------------------------------------------------------
  // The regular expressions the tables use
  // ---------------------------------------------------------------------------

  /** Start of text, word boundary, a character (any case), or an optional character. */
  datatype Atom = Start | Boundary | Char(c: char) | Optional(c: char)

  type Pattern = seq<seq<Atom>>

  function LowerOf(c: char): char {
    if 'A' <= c <= 'Z' then c - 'A' + 'a' else c
  }

  predicate WordChar(text: string, i: int) {
    0 <= i < |text| && (var c := LowerOf(text[i]); 'a' <= c <= 'z' || '0' <= c <= '9' || c == '_')
  }

  predicate MatchesAt(atoms: seq<Atom>, text: string, i: nat)
    decreases |atoms|
  {
    if atoms == [] then true
    else match atoms[0]
      case Start => i == 0 && MatchesAt(atoms[1..], text, i)
      case Boundary => WordChar(text, i - 1) != WordChar(text, i) && MatchesAt(atoms[1..], text, i)
      case Char(c) => i < |text| && LowerOf(text[i]) == c && MatchesAt(atoms[1..], text, i + 1)
      case Optional(c) =>
        || (i < |text| && LowerOf(text[i]) == c && MatchesAt(atoms[1..], text, i + 1))
        || MatchesAt(atoms[1..], text, i)
  }

  predicate Search(p: Pattern, text: string) {
    exists k, i :: 0 <= k < |p| && 0 <= i <= |text| && MatchesAt(p[k], text, i)
  }

  function Text(s: string): seq<Atom> {
    seq(|s|, i requires 0 <= i < |s| => Char(s[i]))
  }

  // ---------------------------------------------------------------------------
  // Clauses, rules, scoring
  // ---------------------------------------------------------------------------

  datatype Op =
    | Eq(expected: Value) | In(options: seq<Value>) | Gt(bound: int) | Regex(pattern: Pattern) | NonEmpty(wanted: bool)

  datatype Clause = Clause(field: Field, op: Op)

  datatype Severity = CRITICAL | HIGH | MEDIUM | LOW | SAFE

  datatype Rule = Rule(id: string, severity: Severity, advisory: bool, when: seq<Clause>)

  /** A value as the search op sees it: a missing one reads as "None".  The tables search words only. */
  function Shown(v: Value): string {
    match v
    case Missing => "None"
    case Word(t) => t
    case Flag(on) => if on then "True" else "False"
    case _ => ""
  }

  predicate Truthy(v: Value) {
    match v
    case Missing => false
    case Word(t) => t != ""
    case Flag(on) => on
    case Number(n) => n != 0
    case Items(n) => n > 0
  }

  /** Membership compares a flag with a number as one or zero; `Eq` does not. */
  function Counted(v: Value): Value {
    match v
    case Flag(on) => Number(if on then 1 else 0)
    case _ => v
  }

  predicate Among(v: Value, options: seq<Value>) {
    exists e :: e in options && Counted(v) == Counted(e)
  }

  predicate Holds(v: Value, op: Op) {
    match op
    case Eq(e) => v == e
    case In(es) => Among(v, es)
    case Gt(b) => v.Number? && v.n > b
    case Regex(p) => Search(p, Shown(v))
    case NonEmpty(w) => Truthy(v) == w
  }

  predicate Fires(s: Session, r: Rule) {
    forall c :: c in r.when ==> Holds(Resolve(s, c.field), c.op)
  }

  function Penalty(v: Severity): nat {
    match v
    case CRITICAL => 40
    case HIGH => 20
    case MEDIUM => 10
    case LOW => 5
    case SAFE => 0
  }

  /** Position in the severity order, worst first. */
  function Badness(v: Severity): nat {
    match v
    case CRITICAL => 4
    case HIGH => 3
    case MEDIUM => 2
    case LOW => 1
    case SAFE => 0
  }

  function Triggered(s: Session, rules: seq<Rule>): seq<Rule> {
    if rules == [] then []
    else (if Fires(s, rules[0]) then [rules[0]] else []) + Triggered(s, rules[1..])
  }

  function PenaltySum(rules: seq<Rule>): nat {
    if rules == [] then 0
    else (if rules[0].advisory then 0 else Penalty(rules[0].severity)) + PenaltySum(rules[1..])
  }

  function RiskScore(findings: seq<Rule>): nat {
    if PenaltySum(findings) >= 100 then 0 else 100 - PenaltySum(findings)
  }

  function Overall(findings: seq<Rule>): Severity {
    if findings == [] then SAFE
    else
      var rest := Overall(findings[1..]);
      if findings[0].advisory || Badness(findings[0].severity) <= Badness(rest) then rest else findings[0].severity
  }

  // ---------------------------------------------------------------------------
  // The shipped rule table
  // ---------------------------------------------------------------------------

  function Group(n: string): seq<Atom> {
    [Boundary] + Text("group") + [Optional(' ')] + Text(n) + [Boundary]
  }

  const R01 :=
    Rule("R01", CRITICAL, false,
         [Clause(Encryption, Regex([[Start] + Text("des") + [Boundary], [Start] + Text("null") + [Boundary]]))])
  const R02 := Rule("R02", HIGH, false, [Clause(Encryption, Regex([[Start] + Text("3des")]))])
  const R03 := Rule("R03", CRITICAL, false, [Clause(DhGroup, Regex([Text("modp768"), Group("1")]))])
  const R04 := Rule("R04", CRITICAL, false, [Clause(DhGroup, Regex([Text("modp1024"), Group("2")]))])
  const R05 := Rule("R05", HIGH, false, [Clause(DhGroup, Regex([Text("modp1536"), Group("5")]))])
  const R06 :=
    Rule("R06", CRITICAL, false,
         [Clause(Version, Eq(Word("IKEv1"))), Clause(AggressiveMode, Eq(Flag(true))),
          Clause(AuthMethod, Eq(Word("PSK")))])
  const R07 := Rule("R07", HIGH, false, [Clause(Version, Eq(Word("IKEv1")))])
  const R08 := Rule("R08", CRITICAL, false, [Clause(Integrity, Regex([Text("md5")]))])
  const R09 :=
    Rule("R09", HIGH, false, [Clause(Integrity, Regex([Text("sha") + [Optional('-')] + Text("1") + [Boundary]]))])
  const R10 := Rule("R10", MEDIUM, false, [Clause(PfsStatus, Eq(Word("disabled")))])
  const R11 := Rule("R11", MEDIUM, false, [Clause(SaLifetime, Gt(86400))])
  const R12 := Rule("R12", LOW, false, [Clause(SaLifetime, Gt(28800))])
  const R13 :=
    Rule("R13", HIGH, false,
         [Clause(AuthMethod, Eq(Word("PSK"))),
          Clause(DhGroup, Regex([Text("modp768"), Text("modp1024"), Text("modp1536")]))])
  const R14 := Rule("R14", HIGH, false, [Clause(FragmentedIke, Eq(Flag(true))), Clause(Vendor, Regex([Text("cisco")]))])
  const R15 := Rule("R15", HIGH, false, [Clause(AntiReplay, Eq(Flag(false)))])
  const R16 := Rule("R16", CRITICAL, false, [Clause(CertExpired, Eq(Flag(true)))])
  const R17 := Rule("R17", LOW, false, [Clause(DpdStatus, Eq(Word("disabled")))])
  const R18 := Rule("R18", LOW, false, [Clause(Version, Eq(Word("IKEv1"))), Clause(IpVersion, Eq(Word("IPv6")))])
  const R19 := Rule("R19", MEDIUM, false, [Clause(Version, Eq(Word("IKEv1"))), Clause(AggressiveMode, Eq(Flag(true)))])
  const R20 := Rule("R20", LOW, true, [Clause(PqcStatus, Eq(Word("classical")))])
  const R21 := Rule("R21", MEDIUM, false, [Clause(GatewayMismatches, NonEmpty(true))])

  const RULES := [R01, R02, R03, R04, R05, R06, R07, R08, R09, R10, R11, R12, R13, R14, R15, R16, R17, R18, R19,
                  R20, R21]

  /** The fields a capture may fail to reveal. */
  predicate Hideable(f: Field) {
    match f
    case Version => false
    case AggressiveMode => false
    case IpVersion => false
    case FragmentedIke => false
    case GatewayMismatches => false
    case _ => true
  }

  // ---------------------------------------------------------------------------
  // Compliance baselines
  // ---------------------------------------------------------------------------

  datatype Requirement = Requirement(field: Field, op: Op, requirementLabel: string)

  datatype Baseline = Baseline(id: string, violatedBy: seq<string>, requirements: seq<Requirement>)

  datatype Status = Pass | Fail | NotAssessed

  datatype Violation = ByRule(ruleId: string) | Unmet(requirementLabel: string)

  datatype ComplianceResult = ComplianceResult(baselineId: string, status: Status, violations: seq<Violation>,
                                               unassessed: seq<string>)

  const STRONG_DH: Pattern :=
    [Text("modp3072"), Text("modp4096"), Text("modp6144"), Text("modp8192"),
     Text("ecp256"), Text("ecp384"), Text("ecp521"), Text("brainpool"), Text("ml-kem")]

  const BASELINES := [
    Baseline("NIST-800-77r1", ["R01", "R02", "R03", "R04", "R05", "R06", "R07", "R08", "R09", "R10", "R11", "R13",
                               "R15", "R16", "R19", "R21"], []),
    Baseline("NIST-800-131A", ["R01", "R02", "R03", "R04", "R05", "R08", "R16"], []),
    Baseline("BSI-TR-02102-3", ["R01", "R02", "R03", "R04", "R05", "R06", "R07", "R08", "R09", "R10", "R11", "R13",
                                "R15", "R16", "R19"],
             [Requirement(Encryption, Regex([[Start] + Text("aes")]), "AES encryption"),
              Requirement(DhGroup, Regex(STRONG_DH), "DH >= 3000 bit or ECP / Brainpool")]),
    Baseline("CNSA-2.0", ["R01", "R02", "R03", "R04", "R05", "R06", "R07", "R08", "R09", "R10", "R11", "R13",
                          "R15", "R16", "R19", "R20"],
             [Requirement(Encryption, Regex([Text("aes-256")]), "AES-256")]),
    Baseline("CERT-IN", ["R01", "R02", "R03", "R04", "R06", "R08", "R14", "R16"], []),
    Baseline("TEC-ITSAR", ["R01", "R02", "R03", "R04", "R05", "R06", "R07", "R08", "R09", "R15", "R16"], [])]

  predicate Unrevealed(v: Value) {
    v == Missing || v == Word("unknown")
  }

  function RuleViolations(ids: seq<string>, fired: set<string>): seq<Violation> {
    if ids == [] then []
    else (if ids[0] in fired then [ByRule(ids[0])] else []) + RuleViolations(ids[1..], fired)
  }

  /** What one requirement adds to the violations, and to the unassessed labels. */
  function UnmetBy(s: Session, q: Requirement): seq<Violation> {
    var v := Resolve(s, q.field);
    if !Unrevealed(v) && !Holds(v, q.op) then [Unmet(q.requirementLabel)] else []
  }

  function UnassessedBy(s: Session, q: Requirement): seq<string> {
    if Unrevealed(Resolve(s, q.field)) then [q.requirementLabel] else []
  }

  function UnmetRequirements(s: Session, reqs: seq<Requirement>): seq<Violation> {
    if reqs == [] then [] else UnmetBy(s, reqs[0]) + UnmetRequirements(s, reqs[1..])
  }

  function Unassessed(s: Session, reqs: seq<Requirement>): seq<string> {
    if reqs == [] then [] else UnassessedBy(s, reqs[0]) + Unassessed(s, reqs[1..])
  }

  function ResultFor(s: Session, fired: set<string>, b: Baseline): ComplianceResult {
    var violations := RuleViolations(b.violatedBy, fired) + UnmetRequirements(s, b.requirements);
    var unassessed := Unassessed(s, b.requirements);
    ComplianceResult(b.id, if violations != [] then Fail else if unassessed != [] then NotAssessed else Pass,
                     violations, unassessed)
  }

  /** The two nested loops of `assess_compliance`. */
  method AssessCompliance(s: Session, fired: set<string>, baselines: seq<Baseline>)
    returns (results: seq<ComplianceResult>)
    ensures |results| == |baselines|
    ensures forall i :: 0 <= i < |results| ==> results[i] == ResultFor(s, fired, baselines[i])
  {
    results := [];
    var i := 0;
    while i < |baselines|
      invariant 0 <= i <= |baselines| && |results| == i
      invariant forall j :: 0 <= j < i ==> results[j] == ResultFor(s, fired, baselines[j])
    {
      var r := AssessOne(s, fired, baselines[i]);
      results := results + [r];
      i := i + 1;
    }
  }

  method AssessOne(s: Session, fired: set<string>, b: Baseline) returns (r: ComplianceResult)
    ensures r == ResultFor(s, fired, b)
  {
    var byRule := RuleViolations(b.violatedBy, fired);
    var unmet, unassessed := CheckRequirements(s, b.requirements);
    var violations := byRule + unmet;
    var status := if violations != [] then Fail else if unassessed != [] then NotAssessed else Pass;
    r := ComplianceResult(b.id, status, violations, unassessed);
  }

  lemma RequirementStep(s: Session, reqs: seq<Requirement>, i: nat, unmet: seq<Violation>, unassessed: seq<string>)
    requires i < |reqs|
    ensures unmet + UnmetRequirements(s, reqs[i..])
         == unmet + UnmetBy(s, reqs[i]) + UnmetRequirements(s, reqs[i + 1..])
    ensures unassessed + Unassessed(s, reqs[i..])
         == unassessed + UnassessedBy(s, reqs[i]) + Unassessed(s, reqs[i + 1..])
  {
    assert reqs[i..][1..] == reqs[i + 1..];
  }

  method CheckRequirements(s: Session, reqs: seq<Requirement>) returns (unmet: seq<Violation>, unassessed: seq<string>)
    ensures unmet == UnmetRequirements(s, reqs)
    ensures unassessed == Unassessed(s, reqs)
  {
    unmet, unassessed := [], [];
    var i := 0;
    while i < |reqs|
      invariant 0 <= i <= |reqs|
      invariant UnmetRequirements(s, reqs) == unmet + UnmetRequirements(s, reqs[i..])
      invariant Unassessed(s, reqs) == unassessed + Unassessed(s, reqs[i..])
    {
      var moreUnmet, moreUnassessed := CheckOne(s, reqs[i]);
      RequirementStep(s, reqs, i, unmet, unassessed);
      unmet, unassessed := unmet + moreUnmet, unassessed + moreUnassessed;
      i := i + 1;
    }
  }

  /** The branches of one pass through the inner loop. */
  method CheckOne(s: Session, q: Requirement) returns (unmet: seq<Violation>, unassessed: seq<string>)
    ensures unmet == UnmetBy(s, q) && unassessed == UnassessedBy(s, q)
  {
    unmet, unassessed := [], [];
    var actual := Resolve(s, q.field);
    if Unrevealed(actual) {
      unassessed := [q.requirementLabel];
    } else if !Holds(actual, q.op) {
      unmet := [Unmet(q.requirementLabel)];
    }
  }

  // ---------------------------------------------------------------------------
  // Hidden values satisfy no clause
  // ---------------------------------------------------------------------------

  /** The letters of the two texts a hidden value shows as. */
  const HIDDEN_LETTERS := {'u', 'n', 'k', 'o', 'w', 'e'}

  predicate NeedsOtherLetter(atoms: seq<Atom>) {
    atoms != [] && ((atoms[0].Char? && atoms[0].c !in HIDDEN_LETTERS) || NeedsOtherLetter(atoms[1..]))
  }

  lemma {:induction false} NoMatchWithout(atoms: seq<Atom>, text: string, i: nat)
    requires NeedsOtherLetter(atoms)
    requires forall j :: 0 <= j < |text| ==> LowerOf(text[j]) in HIDDEN_LETTERS
    ensures !MatchesAt(atoms, text, i)
    decreases |atoms|
  {
    if NeedsOtherLetter(atoms[1..]) {
      NoMatchWithout(atoms[1..], text, i);
      NoMatchWithout(atoms[1..], text, i + 1);
    }
  }

  predicate RejectsHidden(op: Op) {
    match op
    case Eq(e) => !Unrevealed(e)
    case In(es) => forall e :: e in es ==> !Unrevealed(e)
    case Gt(_) => true
    case Regex(p) => forall k :: 0 <= k < |p| ==> NeedsOtherLetter(p[k])
    case NonEmpty(_) => false
  }

  lemma HiddenHoldsNothing(v: Value, op: Op)
    requires Unrevealed(v) && RejectsHidden(op)
    ensures !Holds(v, op)
  {
    if op.Regex? {
      var text := Shown(v);
      assert text == "None" || text == "unknown";
      assert forall j :: 0 <= j < |text| ==> LowerOf(text[j]) in HIDDEN_LETTERS;
      forall k, i: nat | 0 <= k < |op.pattern| && i <= |text| ensures !MatchesAt(op.pattern[k], text, i) {
        NoMatchWithout(op.pattern[k], text, i);
      }
    }
  }

  lemma NeedsAt(atoms: seq<Atom>, k: nat)
    requires k < |atoms| && atoms[k].Char? && atoms[k].c !in HIDDEN_LETTERS
    ensures NeedsOtherLetter(atoms)
    decreases k
  {
    if k > 0 {
      NeedsAt(atoms[1..], k - 1);
    }
  }

  /** Every clause of the table on a hideable field rejects hidden values. */
  ghost predicate HidingSafe(r: Rule) {
    forall c :: c in r.when && Hideable(c.field) ==> RejectsHidden(c.op)
  }

  lemma EncryptionRulesSafe()
    ensures HidingSafe(R01) && HidingSafe(R02)
  {
    NeedsAt([Start] + Text("des") + [Boundary], 1);
    NeedsAt([Start] + Text("null") + [Boundary], 3);
    NeedsAt([Start] + Text("3des"), 1);
  }

  lemma DhRulesSafe()
    ensures HidingSafe(R03) && HidingSafe(R04) && HidingSafe(R05) && HidingSafe(R13)
  {
    NeedsAt(Text("modp768"), 0);
    NeedsAt(Text("modp1024"), 0);
    NeedsAt(Text("modp1536"), 0);
    NeedsAt(Group("1"), 1);
    NeedsAt(Group("2"), 1);
    NeedsAt(Group("5"), 1);
  }

  lemma OtherRegexRulesSafe()
    ensures HidingSafe(R08) && HidingSafe(R09) && HidingSafe(R14)
  {
    NeedsAt(Text("md5"), 0);
    NeedsAt(Text("sha") + [Optional('-')] + Text("1") + [Boundary], 0);
    NeedsAt(Text("cisco"), 0);
  }

  /** No clause of these rules searches text, so each is safe by its operator alone. */
  predicate Plain(r: Rule) {
    forall c :: c in r.when ==> !Hideable(c.field) || c.op.Gt? || (c.op.Eq? && !Unrevealed(c.op.expected))
  }

  lemma PlainIsSafe(r: Rule)
    requires Plain(r)
    ensures HidingSafe(r)
  {
  }

  lemma PlainRules()
    ensures Plain(R06) && Plain(R07) && Plain(R10) && Plain(R11) && Plain(R12) && Plain(R15)
  {
  }

  lemma MorePlainRules()
    ensures Plain(R16) && Plain(R17) && Plain(R18) && Plain(R19) && Plain(R20) && Plain(R21)
  {
  }

  lemma ShippedTableIsHidingSafe()
    ensures AllSafe(RULES)
  {
    EncryptionRulesSafe();
    DhRulesSafe();
    OtherRegexRulesSafe();
    PlainRules();
    MorePlainRules();
    forall r | r in RULES ensures HidingSafe(r) {
      if Plain(r) {
        PlainIsSafe(r);
      }
    }
  }

  // ---------------------------------------------------------------------------
  // Hiding fields
  // ---------------------------------------------------------------------------

  /** `h` is `s` with some hideable fields turned to unknown or missing. */
  ghost predicate Hides(h: Session, s: Session) {
    forall f :: Resolve(h, f) == Resolve(s, f) || (Hideable(f) && Unrevealed(Resolve(h, f)))
  }

  lemma HidingFiresNoRule(h: Session, s: Session, r: Rule)
    requires Hides(h, s) && HidingSafe(r) && Fires(h, r)
    ensures Fires(s, r)
  {
    forall c | c in r.when ensures Holds(Resolve(s, c.field), c.op) {
      assert Holds(Resolve(h, c.field), c.op);
      if Hideable(c.field) && Unrevealed(Resolve(h, c.field)) {
        HiddenHoldsNothing(Resolve(h, c.field), c.op);
      }
    }
  }

  ghost predicate AllSafe(rules: seq<Rule>) {
    forall r :: r in rules ==> HidingSafe(r)
  }

  lemma {:induction false} HidingAddsNoFinding(h: Session, s: Session, rules: seq<Rule>)
    requires Hides(h, s) && AllSafe(rules)
    ensures forall r :: r in Triggered(h, rules) ==> r in Triggered(s, rules)
  {
    if rules != [] {
      HidingAddsNoFinding(h, s, rules[1..]);
      if Fires(h, rules[0]) {
        HidingFiresNoRule(h, s, rules[0]);
      }
    }
  }

  lemma PenaltyOfFirst(s: Session, rules: seq<Rule>)
    requires rules != []
    ensures PenaltySum(Triggered(s, rules)) == PenaltySum(Triggered(s, rules[1..]))
              + if Fires(s, rules[0]) && !rules[0].advisory then Penalty(rules[0].severity) else 0
  {
    var rest := Triggered(s, rules[1..]);
    if Fires(s, rules[0]) {
      assert ([rules[0]] + rest)[1..] == rest;
    } else {
      assert [] + rest == rest;
    }
  }

  lemma {:induction false} HidingAddsNoPenalty(h: Session, s: Session, rules: seq<Rule>)
    requires Hides(h, s) && AllSafe(rules)
    ensures PenaltySum(Triggered(h, rules)) <= PenaltySum(Triggered(s, rules))
  {
    if rules != [] {
      HidingAddsNoPenalty(h, s, rules[1..]);
      PenaltyOfFirst(h, rules);
      PenaltyOfFirst(s, rules);
      if Fires(h, rules[0]) {
        HidingFiresNoRule(h, s, rules[0]);
      }
    }
  }

  /** The overall severity is the worst of the scored findings, and safe without any. */
  lemma {:induction false} OverallIsWorst(findings: seq<Rule>)
    ensures forall r :: r in findings && !r.advisory ==> Badness(r.severity) <= Badness(Overall(findings))
    ensures Overall(findings) == SAFE || exists r :: r in findings && !r.advisory && r.severity == Overall(findings)
  {
    if findings != [] {
      OverallIsWorst(findings[1..]);
      assert findings == [findings[0]] + findings[1..];
    }
  }

  lemma FewerFindingsNoWorse(few: seq<Rule>, many: seq<Rule>)
    requires forall r :: r in few ==> r in many
    ensures Badness(Overall(few)) <= Badness(Overall(many))
  {
    OverallIsWorst(few);
    OverallIsWorst(many);
  }

  function FiredIds(findings: seq<Rule>): set<string> {
    set r | r in findings :: r.id
  }

  lemma {:induction false} RuleViolationsGrow(ids: seq<string>, few: set<string>, many: set<string>)
    requires few <= many
    ensures RuleViolations(ids, few) != [] ==> RuleViolations(ids, many) != []
  {
    if ids != [] {
      RuleViolationsGrow(ids[1..], few, many);
    }
  }

  lemma {:induction false} UnmetShrinks(h: Session, s: Session, reqs: seq<Requirement>)
    requires Hides(h, s)
    ensures UnmetRequirements(h, reqs) != [] ==> UnmetRequirements(s, reqs) != []
  {
    if reqs != [] {
      UnmetShrinks(h, s, reqs[1..]);
    }
  }

  /** A baseline that did not fail does not fail once fields are hidden. */
  lemma HidingFailsNoBaseline(h: Session, s: Session, few: set<string>, many: set<string>, b: Baseline)
    requires Hides(h, s) && few <= many
    requires ResultFor(s, many, b).status != Fail
    ensures ResultFor(h, few, b).status != Fail
  {
    RuleViolationsGrow(b.violatedBy, few, many);
    UnmetShrinks(h, s, b.requirements);
  }

  /** Main result, for the shipped rule table and the shipped baselines. */
  lemma HidingIsNeverPunished(h: Session, s: Session)
    requires Hides(h, s)
    ensures var seen, full := Triggered(h, RULES), Triggered(s, RULES);
            && (forall r :: r in seen ==> r in full)
            && RiskScore(seen) >= RiskScore(full)
            && Badness(Overall(seen)) <= Badness(Overall(full))
            && forall i :: 0 <= i < |BASELINES| && ResultFor(s, FiredIds(full), BASELINES[i]).status != Fail ==>
                 ResultFor(h, FiredIds(seen), BASELINES[i]).status != Fail
  {
    ShippedTableIsHidingSafe();
    HidingAddsNoFinding(h, s, RULES);
    HidingAddsNoPenalty(h, s, RULES);
    var seen, full := Triggered(h, RULES), Triggered(s, RULES);
    FewerFindingsNoWorse(seen, full);
    assert FiredIds(seen) <= FiredIds(full);
    forall i | 0 <= i < |BASELINES| && ResultFor(s, FiredIds(full), BASELINES[i]).status != Fail
      ensures ResultFor(h, FiredIds(seen), BASELINES[i]).status != Fail
    {
      HidingFailsNoBaseline(h, s, FiredIds(seen), FiredIds(full), BASELINES[i]);
    }
  }

  /** A scored critical finding forces the verdict, whatever the score. */
  lemma CriticalForcesVerdict(findings: seq<Rule>, r: Rule)
    requires r in findings && !r.advisory && r.severity == CRITICAL
    ensures Overall(findings) == CRITICAL && RiskScore(findings) <= 60
  {
    OverallIsWorst(findings);
    PenaltyOfMember(findings, r);
  }

  lemma {:induction false} PenaltyOfMember(findings: seq<Rule>, r: Rule)
    requires r in findings && !r.advisory
    ensures PenaltySum(findings) >= Penalty(r.severity)
  {
    if r != findings[0] {
      PenaltyOfMember(findings[1..], r);
    }
  }

  // ---------------------------------------------------------------------------
  // What a clause, a score and a result mean
  // ---------------------------------------------------------------------------

  /** A flag and the number it counts as, either way round. */
  ghost predicate OneOrZero(v: Value, e: Value) {
    || (v, e) == (Flag(true), Number(1)) || (v, e) == (Number(1), Flag(true))
    || (v, e) == (Flag(false), Number(0)) || (v, e) == (Number(0), Flag(false))
  }

  /** The text a search reads for a value. */
  ghost predicate Written(v: Value, t: string) {
    v == Word(t) || (v, t) == (Missing, "None") || (v, t) == (Flag(true), "True") || (v, t) == (Flag(false), "False")
  }

  /** The operators on a value, one by one. */
  lemma HoldsMeans(v: Value, expected: Value, options: seq<Value>, bound: int, pattern: Pattern)
    ensures Holds(v, Eq(expected)) <==> v == expected
    ensures Holds(v, Gt(bound)) <==> v.Number? && v.n > bound
    ensures Holds(v, NonEmpty(true)) <==>
              (v.Word? && v.text != "") || v == Flag(true) || (v.Number? && v.n != 0) || (v.Items? && v.count != 0)
    ensures Holds(v, NonEmpty(false)) <==> !Holds(v, NonEmpty(true))
    ensures Holds(v, In(options)) <==>
              v in options || exists e :: e in options && OneOrZero(v, e)
    ensures Holds(v, Regex(pattern)) ==>
              v.Number? || v.Items? || exists t :: Written(v, t) && Search(pattern, t)
    ensures forall t :: Written(v, t) ==> (Search(pattern, t) <==> Holds(v, Regex(pattern)))
  {
    forall e ensures Counted(v) == Counted(e) <==> v == e || OneOrZero(v, e) {
    }
    if Holds(v, In(options)) {
      var e :| e in options && Counted(v) == Counted(e);
      assert v == e || OneOrZero(v, e);
    }
    if Holds(v, Regex(pattern)) && !v.Number? && !v.Items? {
      assert Written(v, Shown(v));
    }
  }

  /** A word occurs in a text at `i`, letters of either case. */
  ghost predicate OccursAt(w: string, text: string, i: nat) {
    i + |w| <= |text| && forall k :: 0 <= k < |w| ==> LowerOf(text[i + k]) == w[k]
  }

  lemma OccursFrom(w: string, text: string, i: nat)
    requires w != ""
    ensures OccursAt(w, text, i) <==> i < |text| && LowerOf(text[i]) == w[0] && OccursAt(w[1..], text, i + 1)
  {
    if OccursAt(w, text, i) {
      assert LowerOf(text[i + 0]) == w[0];
      forall k | 0 <= k < |w| - 1 ensures LowerOf(text[(i + 1) + k]) == w[1..][k] {
        assert LowerOf(text[i + (k + 1)]) == w[k + 1];
      }
    }
    if i < |text| && LowerOf(text[i]) == w[0] && OccursAt(w[1..], text, i + 1) {
      forall k | 0 <= k < |w| ensures LowerOf(text[i + k]) == w[k] {
        if k > 0 {
          assert LowerOf(text[(i + 1) + (k - 1)]) == w[1..][k - 1];
        }
      }
    }
  }

  lemma {:induction false} TextMatches(w: string, text: string, i: nat)
    ensures MatchesAt(Text(w), text, i) <==> OccursAt(w, text, i) || (w == "" && i > |text|)
    decreases |w|
  {
    if w != "" {
      assert Text(w)[0] == Char(w[0]) && Text(w)[1..] == Text(w[1..]);
      TextMatches(w[1..], text, i + 1);
      OccursFrom(w, text, i);
    }
  }

  /** A plain pattern finds a word anywhere, an anchored one only at the start. */
  lemma SearchMeans(w: string, text: string)
    requires w != ""
    ensures Search([Text(w)], text) <==> exists i: nat :: OccursAt(w, text, i)
    ensures Search([[Start] + Text(w)], text) <==> OccursAt(w, text, 0)
  {
    var plain, anchored := [Text(w)], [[Start] + Text(w)];
    forall i: nat ensures MatchesAt(plain[0], text, i) <==> OccursAt(w, text, i) {
      TextMatches(w, text, i);
    }
    if i: nat :| OccursAt(w, text, i) {
      assert MatchesAt(plain[0], text, i) && i <= |text|;
    }
    assert ([Start] + Text(w))[1..] == Text(w);
    TextMatches(w, text, 0);
    forall i: nat ensures MatchesAt(anchored[0], text, i) <==> i == 0 && OccursAt(w, text, 0) {
    }
    if OccursAt(w, text, 0) {
      assert MatchesAt(anchored[0], text, 0);
    }
  }

  /** A boundary stands where a letter, digit or underscore meets anything else or an end. */
  lemma BoundaryMeans(text: string, i: nat)
    ensures MatchesAt([Boundary], text, i) <==>
            (i > 0 && WordChar(text, i - 1)) != (i < |text| && WordChar(text, i))
    ensures i < |text| ==>
              (WordChar(text, i) <==>
               'a' <= text[i] <= 'z' || 'A' <= text[i] <= 'Z' || '0' <= text[i] <= '9' || text[i] == '_')
  {
    assert [Boundary][1..] == [];
  }

  /** A rule is triggered when each of its clauses holds. */
  lemma {:induction false} TriggeredMeans(s: Session, rules: seq<Rule>, r: Rule)
    ensures r in Triggered(s, rules) <==>
            r in rules && forall c :: c in r.when ==> Holds(if c.field in s then s[c.field] else Missing, c.op)
  {
    if rules != [] {
      TriggeredMeans(s, rules[1..], r);
      assert rules == [rules[0]] + rules[1..];
    }
  }

  /** How many scored findings have a severity. */
  function Scored(findings: seq<Rule>, v: Severity): nat {
    if findings == [] then 0
    else (if findings[0].severity == v && !findings[0].advisory then 1 else 0) + Scored(findings[1..], v)
  }

  /** The score is a hundred less forty, twenty, ten and five for each scored finding, and no less than zero. */
  lemma {:induction false} PenaltyMeans(findings: seq<Rule>)
    ensures PenaltySum(findings) == 40 * Scored(findings, CRITICAL) + 20 * Scored(findings, HIGH)
                                    + 10 * Scored(findings, MEDIUM) + 5 * Scored(findings, LOW)
  {
    if findings != [] {
      PenaltyMeans(findings[1..]);
    }
  }

  lemma ScoreMeans(findings: seq<Rule>)
    ensures var lost := 40 * Scored(findings, CRITICAL) + 20 * Scored(findings, HIGH)
                        + 10 * Scored(findings, MEDIUM) + 5 * Scored(findings, LOW);
            RiskScore(findings) == if lost > 100 then 0 else 100 - lost
  {
    PenaltyMeans(findings);
  }

  /** The verdict is the worst severity that some scored finding has, and safe when none has any. */
  lemma {:induction false} VerdictMeans(findings: seq<Rule>)
    ensures Overall(findings) ==
            if Scored(findings, CRITICAL) > 0 then CRITICAL
            else if Scored(findings, HIGH) > 0 then HIGH
            else if Scored(findings, MEDIUM) > 0 then MEDIUM
            else if Scored(findings, LOW) > 0 then LOW
            else SAFE
  {
    if findings != [] {
      VerdictMeans(findings[1..]);
    }
  }

  lemma {:induction false} RuleViolationsMean(ids: seq<string>, fired: set<string>, v: Violation)
    ensures v in RuleViolations(ids, fired) <==> v.ByRule? && v.ruleId in ids && v.ruleId in fired
  {
    if ids != [] {
      RuleViolationsMean(ids[1..], fired, v);
      assert ids == [ids[0]] + ids[1..];
    }
  }

  lemma {:induction false} RequirementsMean(s: Session, reqs: seq<Requirement>, v: Violation, name: string)
    ensures v in UnmetRequirements(s, reqs) <==>
            v.Unmet? && exists q :: q in reqs && q.requirementLabel == v.requirementLabel
                                    && Resolve(s, q.field) !in {Missing, Word("unknown")}
                                    && !Holds(Resolve(s, q.field), q.op)
    ensures name in Unassessed(s, reqs) <==>
            exists q :: q in reqs && q.requirementLabel == name && Resolve(s, q.field) in {Missing, Word("unknown")}
  {
    if reqs != [] {
      RequirementsMean(s, reqs[1..], v, name);
      assert reqs == [reqs[0]] + reqs[1..];
    }
  }

  /** A baseline's violations are its rules that fired and its requirements that a revealed value fails; an
      unrevealed value leaves its requirement unassessed; any violation fails it, else anything unassessed
      leaves it undecided. */
  lemma ResultMeans(s: Session, fired: set<string>, b: Baseline, v: Violation, name: string)
    ensures var r := ResultFor(s, fired, b);
            && r.baselineId == b.id
            && (v in r.violations <==>
                  || (v.ByRule? && v.ruleId in b.violatedBy && v.ruleId in fired)
                  || (v.Unmet? && exists q :: q in b.requirements && q.requirementLabel == v.requirementLabel
                                              && Resolve(s, q.field) !in {Missing, Word("unknown")}
                                              && !Holds(Resolve(s, q.field), q.op)))
            && (name in r.unassessed <==>
                  exists q :: q in b.requirements && q.requirementLabel == name
                              && Resolve(s, q.field) in {Missing, Word("unknown")})
            && r.status == (if r.violations != [] then Fail else if r.unassessed != [] then NotAssessed else Pass)
  {
    RuleViolationsMean(b.violatedBy, fired, v);
    RequirementsMean(s, b.requirements, v, name);
  }

  // ---------------------------------------------------------------------------
  // When the shipped rules fire
  // ---------------------------------------------------------------------------

  predicate Is(s: Session, f: Field, v: Value) {
    f in s && s[f] == v
  }

  lemma OneClause(s: Session, r: Rule, c: Clause)
    requires r.when == [c]
    ensures Fires(s, r) <==> Holds(Resolve(s, c.field), c.op)
  {
    assert c in r.when;
  }

  lemma TwoClauses(s: Session, r: Rule, c: Clause, d: Clause)
    requires r.when == [c, d]
    ensures Fires(s, r) <==> Holds(Resolve(s, c.field), c.op) && Holds(Resolve(s, d.field), d.op)
  {
    assert c in r.when && d in r.when;
  }

  /** The rules that compare one field with one value. */
  lemma SingleValueRules(s: Session)
    ensures Fires(s, R07) <==> Is(s, Version, Word("IKEv1"))
    ensures Fires(s, R10) <==> Is(s, PfsStatus, Word("disabled"))
    ensures Fires(s, R15) <==> Is(s, AntiReplay, Flag(false))
    ensures Fires(s, R16) <==> Is(s, CertExpired, Flag(true))
    ensures Fires(s, R17) <==> Is(s, DpdStatus, Word("disabled"))
    ensures Fires(s, R20) <==> Is(s, PqcStatus, Word("classical"))
  {
    OneClause(s, R07, R07.when[0]);
    OneClause(s, R10, R10.when[0]);
    OneClause(s, R15, R15.when[0]);
    OneClause(s, R16, R16.when[0]);
    OneClause(s, R17, R17.when[0]);
    OneClause(s, R20, R20.when[0]);
  }

  /** Lifetimes over a day and over eight hours, and any noted gateway mismatch. */
  lemma ThresholdRules(s: Session)
    ensures Fires(s, R11) <==> SaLifetime in s && s[SaLifetime].Number? && s[SaLifetime].n > 24 * 3600
    ensures Fires(s, R12) <==> SaLifetime in s && s[SaLifetime].Number? && s[SaLifetime].n > 8 * 3600
    ensures Fires(s, R21) <==> Truthy(Resolve(s, GatewayMismatches))
  {
    OneClause(s, R11, R11.when[0]);
    OneClause(s, R12, R12.when[0]);
    OneClause(s, R21, R21.when[0]);
  }

  /** The rules on IKEv1 and its aggressive mode. */
  lemma PairedRules(s: Session)
    ensures Fires(s, R06) <==>
            Is(s, Version, Word("IKEv1")) && Is(s, AggressiveMode, Flag(true)) && Is(s, AuthMethod, Word("PSK"))
    ensures Fires(s, R18) <==> Is(s, Version, Word("IKEv1")) && Is(s, IpVersion, Word("IPv6"))
    ensures Fires(s, R19) <==> Is(s, Version, Word("IKEv1")) && Is(s, AggressiveMode, Flag(true))
  {
    TwoClauses(s, R18, R18.when[0], R18.when[1]);
    TwoClauses(s, R19, R19.when[0], R19.when[1]);
    assert R06.when[0] in R06.when && R06.when[1] in R06.when && R06.when[2] in R06.when;
  }

  /** The rules that look for one word: triple DES at the start of the cipher, MD5 in the integrity, and a
      Cisco that fragments. */
  lemma WordRules(s: Session)
    ensures Fires(s, R02) <==> OccursAt("3des", Shown(Resolve(s, Encryption)), 0)
    ensures Fires(s, R08) <==> exists i: nat :: OccursAt("md5", Shown(Resolve(s, Integrity)), i)
    ensures Fires(s, R14) <==> Is(s, FragmentedIke, Flag(true))
                               && exists i: nat :: OccursAt("cisco", Shown(Resolve(s, Vendor)), i)
  {
    OneClause(s, R02, R02.when[0]);
    OneClause(s, R08, R08.when[0]);
    TwoClauses(s, R14, R14.when[0], R14.when[1]);
    SearchMeans("3des", Shown(Resolve(s, Encryption)));
    SearchMeans("md5", Shown(Resolve(s, Integrity)));
    SearchMeans("cisco", Shown(Resolve(s, Vendor)));
  }

  /** The severities of the shipped table, and the one rule that only advises. */
  lemma ShippedSeverities(r: Rule)
    requires r in RULES
    ensures r.severity == if r in {R01, R03, R04, R06, R08, R16} then CRITICAL
                          else if r in {R02, R05, R07, R09, R13, R14, R15} then HIGH
                          else if r in {R10, R11, R19, R21} then MEDIUM else LOW
    ensures r.advisory <==> r == R20
  {
  }

  /** A word, and then the rest of the pattern. */
  lemma {:induction false} TextThen(w: string, rest: seq<Atom>, text: string, i: nat)
    requires w != ""
    ensures MatchesAt(Text(w) + rest, text, i) <==> OccursAt(w, text, i) && MatchesAt(rest, text, i + |w|)
    decreases |w|
  {
    var atoms := Text(w) + rest;
    assert atoms[0] == Char(w[0]) && atoms[1..] == Text(w[1..]) + rest;
    if |w| == 1 {
      assert Text(w[1..]) + rest == rest;
      assert OccursAt(w, text, i) <==> i < |text| && LowerOf(text[i + 0]) == w[0];
    } else {
      TextThen(w[1..], rest, text, i + 1);
      OccursFrom(w, text, i);
    }
  }

  /** A word that ends where it stands: the end of the text, or a character no word has, follows. */
  predicate EndsAt(text: string, i: nat)
    requires 0 < i <= |text|
  {
    WordChar(text, i - 1) != WordChar(text, i)
  }

  /** A DES or null cipher at the start of the name, as a whole word. */
  lemma BrokenCipherRule(s: Session)
    ensures var text := Shown(Resolve(s, Encryption));
            Fires(s, R01) <==>
            || (OccursAt("des", text, 0) && EndsAt(text, 3))
            || (OccursAt("null", text, 0) && EndsAt(text, 4))
  {
    var text := Shown(Resolve(s, Encryption));
    OneClause(s, R01, R01.when[0]);
    var p := R01.when[0].op.pattern;
    WholeWordAtStart("des", text);
    WholeWordAtStart("null", text);
    SearchTwo(p[0], p[1], text);
    assert p == [p[0], p[1]];
  }

  lemma WholeWordAtStart(w: string, text: string)
    requires w != ""
    ensures Search([[Start] + Text(w) + [Boundary]], text) <==> OccursAt(w, text, 0) && EndsAt(text, |w|)
  {
    var atoms := [Start] + Text(w) + [Boundary];
    assert atoms[0] == Start && atoms[1..] == Text(w) + [Boundary];
    TextThen(w, [Boundary], text, 0);
    BoundaryMeans(text, |w|);
    forall i: nat ensures MatchesAt(atoms, text, i) <==> i == 0 && MatchesAt(Text(w) + [Boundary], text, 0) {
    }
    if MatchesAt(atoms, text, 0) {
      assert MatchesAt([atoms][0], text, 0);
    }
  }

  lemma SearchTwo(p: seq<Atom>, q: seq<Atom>, text: string)
    ensures Search([p, q], text) <==> Search([p], text) || Search([q], text)
  {
    if k, i :| 0 <= k < 2 && 0 <= i <= |text| && MatchesAt([p, q][k], text, i) {
      if k == 0 {
        assert MatchesAt([p][0], text, i);
      } else {
        assert MatchesAt([q][0], text, i);
      }
    }
    if i :| 0 <= i <= |text| && MatchesAt([p][0], text, i) {
      assert MatchesAt([p, q][0], text, i);
    }
    if i :| 0 <= i <= |text| && MatchesAt([q][0], text, i) {
      assert MatchesAt([p, q][1], text, i);
    }
  }
}
