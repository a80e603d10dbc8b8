/** Starting, looping and stopping live runs (api/live.py `_loop`, api/main.py `live_start` and
    `live_stop`) as a state machine: one step per stretch of code between two awaits, under any
    interleaving with start and stop requests, file growth and the end of the source.

    A capture file is append-only, so how much of it an analysis covered is a length in bytes. */
module LiveLifecycle {

  const MAX_PACKETS := 250_000
  const HEADER_LEN := 24

  datatype State = Running | Stopped | Error

  /** Where a run's loop task is.  `last` is the loop's local `finished`. */
  datatype Pc =
    | WaitForFile
    | Top
    | StopSource
    | Stat(last: bool)
    | Ticking(last: bool)
    | Decide(last: bool)
    | Sleep
    | FinalStop(last: bool)
    | Settle(last: bool)
    | Failing
    | Ended(last: bool)   // left the loop through its break
    | Crashed             // an exception was handled
    | Dead                // stopping the source raised while another exception was handled

  datatype Run = Run(
    pc: Pc,
    state: State,
    stopping: bool,
    sourceRunning: bool,
    sourceError: bool,
    frozen: bool,          // the source has been stopped: the file no longer grows
    fileLen: nat,
    size: int,             // the loop's `size`, -1 before the first analysis
    analysed: nat,         // bytes covered by the latest completed analysis
    packets: nat)

  /** The environment's choices while a loop task takes one step. */
  datatype Choice = Fine(packets: nat, seen: nat) | Raises

  function NewRun(len: nat): Run {
    Run(WaitForFile, Running, false, true, false, false, len, -1, 0, 0)
  }

  function SourceStopped(r: Run): Run {
    r.(frozen := true, sourceRunning := false)
  }

  /** How far an analysis read: at least what was measured before it began, at most the file as it
      is when it completes. */
  function ReadUpTo(r: Run, seen: nat): nat {
    if seen > r.fileLen || r.size > r.fileLen then r.fileLen else if seen < r.size then r.size else seen
  }

  /** One step of the loop task. */
  function Advance(r: Run, c: Choice): Run {
    match r.pc
    case WaitForFile => if c.Raises? then r.(pc := Failing) else r.(pc := Top)
    case Top => r.(pc := if r.stopping || !r.sourceRunning then StopSource else Stat(false))
    case StopSource => if c.Raises? then r.(pc := Failing) else SourceStopped(r).(pc := Stat(true))
    case Stat(last) =>
      if r.fileLen >= HEADER_LEN && r.fileLen != r.size
      then r.(size := r.fileLen, pc := Ticking(last))
      else r.(pc := Decide(last))
    case Ticking(last) =>
      if c.Raises? then r.(pc := Failing)
      else r.(analysed := ReadUpTo(r, c.seen), packets := c.packets, pc := Decide(last))
    case Decide(last) => r.(pc := if last || r.packets >= MAX_PACKETS then FinalStop(last) else Sleep)
    case Sleep => r.(pc := Top)
    case FinalStop(last) => if c.Raises? then r.(pc := Failing) else SourceStopped(r).(pc := Settle(last))
    case Settle(last) => r.(state := if r.sourceError then Error else Stopped, pc := Ended(last))
    case Failing =>
      if c.Raises? then r.(pc := Dead) else SourceStopped(r).(state := Error, pc := Crashed)
    case Ended(_) => r
    case Crashed => r
    case Dead => r
  }

  function AdvanceAll(r: Run, choices: seq<Choice>): Run
    decreases |choices|
  {
    if choices == [] then r else AdvanceAll(Advance(r, choices[0]), choices[1..])
  }

  // ---------------------------------------------------------------------------
  // The registry: the global `_run`, the start lock, and every run whose loop was started
  // ---------------------------------------------------------------------------

  datatype Lock = Free | Checking | Starting

  datatype Registry = Registry(runs: seq<Run>, current: int, lock: Lock)

  datatype Action =
    | AcquireLock                            // a start request enters the critical section
    | CheckActive(refused: bool)             // 409 when a run is active; `refused`: the request itself is bad
    | SourceStarted(ok: bool, len: nat)      // the source came up, or 503
    | StopRequest                            // POST /live/stop
    | LoopStep(i: nat, choice: Choice)
    | FileGrows(i: nat, bytes: nat)
    | SourceEnds(i: nat, failed: bool)

  const INITIAL := Registry([], -1, Free)

  function WithRun(g: Registry, i: nat, r: Run): Registry
    requires i < |g.runs|
  {
    g.(runs := g.runs[i := r])
  }

  function Next(g: Registry, a: Action): Registry {
    match a
    case AcquireLock => if g.lock.Free? then g.(lock := Checking) else g
    case CheckActive(refused) =>
      if !g.lock.Checking? then g
      else if 0 <= g.current < |g.runs| && g.runs[g.current].state == Running then g.(lock := Free)
      else if refused then g.(lock := Free)
      else g.(lock := Starting)
    case SourceStarted(ok, len) =>
      if !g.lock.Starting? then g
      else if ok then Registry(g.runs + [NewRun(len)], |g.runs|, Free)
      else g.(lock := Free)
    case StopRequest =>
      if 0 <= g.current < |g.runs|
      then WithRun(g, g.current, g.runs[g.current].(stopping := true))
      else g
    case LoopStep(i, c) => if i < |g.runs| then WithRun(g, i, Advance(g.runs[i], c)) else g
    case FileGrows(i, bytes) =>
      if i < |g.runs| && !g.runs[i].frozen
      then WithRun(g, i, g.runs[i].(fileLen := g.runs[i].fileLen + bytes))
      else g
    case SourceEnds(i, failed) =>
      if i < |g.runs| && g.runs[i].sourceRunning
      then WithRun(g, i, g.runs[i].(sourceRunning := false, sourceError := failed))
      else g
  }

  function Runs(g: Registry, actions: seq<Action>): Registry
    decreases |actions|
  {
    if actions == [] then g else Runs(Next(g, actions[0]), actions[1..])
  }

  // ---------------------------------------------------------------------------
  // Invariants of one run
  // ---------------------------------------------------------------------------

  ghost predicate Over(pc: Pc) {
    pc.Ended? || pc.Crashed?
  }

  /** The latest analysis saw the whole file, or the file never grew past its global header. */
  ghost predicate Covered(r: Run) {
    r.fileLen >= HEADER_LEN ==> r.analysed == r.fileLen
  }

  /** The loop's last iteration has begun: the file is frozen, and covered once decided. */
  ghost predicate LastPass(r: Run) {
    match r.pc
    case Stat(true) => r.frozen
    case Ticking(true) => r.frozen && r.size == r.fileLen
    case Decide(true) => r.frozen && Covered(r)
    case FinalStop(true) => r.frozen && Covered(r)
    case Settle(true) => r.frozen && Covered(r)
    case Ended(true) => r.frozen && Covered(r)
    case _ => true
  }

  /** What was measured was also analysed, except in the window between the two. */
  ghost predicate SizeTracksAnalysis(r: Run) {
    && -1 <= r.size <= r.fileLen
    && r.analysed <= r.fileLen
    && (!r.pc.Ticking? && !r.pc.Failing? && !r.pc.Crashed? && !r.pc.Dead? ==> r.size <= r.analysed)
    && (r.size == -1 || r.size >= HEADER_LEN)
  }

  /** A run has left `running` exactly when its loop task is over, and its file is then frozen. */
  ghost predicate Outcome(r: Run) {
    && (r.state != Running <==> Over(r.pc))
    && (r.pc.Crashed? ==> r.state == Error)
    && (Over(r.pc) || r.pc.Settle? ==> r.frozen)
  }

  /** Only the pass that began stopped or finished freezes the file before its exit. */
  ghost predicate Unfrozen(r: Run) {
    match r.pc
    case WaitForFile => !r.frozen
    case Top => !r.frozen
    case StopSource => !r.frozen
    case Stat(false) => !r.frozen
    case Ticking(false) => !r.frozen
    case Decide(false) => !r.frozen
    case Sleep => !r.frozen
    case FinalStop(false) => !r.frozen
    case _ => true
  }

  ghost predicate RunInv(r: Run) {
    && Outcome(r)
    && LastPass(r)
    && SizeTracksAnalysis(r)
    && Unfrozen(r)
  }

  ghost predicate InBounds(r: Run) {
    -1 <= r.size <= r.fileLen && r.analysed <= r.fileLen && (r.size == -1 || r.size >= HEADER_LEN)
  }

  /** A step measures or analyses the file as it is, or leaves both figures alone. */
  lemma AdvanceFigures(r: Run, c: Choice)
    ensures var n := Advance(r, c);
            && n.fileLen == r.fileLen
            && (n.size == r.size || n.size == r.fileLen >= HEADER_LEN)
            && (n.analysed == r.analysed || r.size <= n.analysed <= r.fileLen || n.analysed == r.fileLen)
  {
  }

  lemma AdvanceKeepsBounds(r: Run, c: Choice)
    requires InBounds(r)
    ensures InBounds(Advance(r, c))
  {
    AdvanceFigures(r, c);
  }

  lemma AdvanceKeepsSize(r: Run, c: Choice)
    requires SizeTracksAnalysis(r)
    ensures SizeTracksAnalysis(Advance(r, c))
  {
    AdvanceKeepsBounds(r, c);
  }

  lemma AdvanceKeepsLastPass(r: Run, c: Choice)
    requires LastPass(r) && SizeTracksAnalysis(r)
    ensures LastPass(Advance(r, c))
  {
  }

  lemma AdvanceKeepsOutcome(r: Run, c: Choice)
    requires Outcome(r)
    ensures Outcome(Advance(r, c))
  {
  }

  lemma AdvanceKeepsUnfrozen(r: Run, c: Choice)
    requires Unfrozen(r)
    ensures Unfrozen(Advance(r, c))
  {
  }

  lemma AdvanceKeepsRunInv(r: Run, c: Choice)
    requires RunInv(r)
    ensures RunInv(Advance(r, c))
  {
    AdvanceKeepsOutcome(r, c);
    AdvanceKeepsUnfrozen(r, c);
    AdvanceKeepsSize(r, c);
    AdvanceKeepsLastPass(r, c);
  }

  /** The current run is the last started; no other is running, and none while a new one is being
      brought up. */
  ghost predicate RegistryInv(g: Registry) {
    && g.current == |g.runs| - 1
    && (forall i :: 0 <= i < |g.runs| ==> RunInv(g.runs[i]))
    && (forall i :: 0 <= i < |g.runs| && g.runs[i].state == Running ==> i == g.current && !g.lock.Starting?)
  }

  lemma NextKeepsInv(g: Registry, a: Action)
    requires RegistryInv(g)
    ensures RegistryInv(Next(g, a))
  {
    if a.LoopStep? && a.i < |g.runs| {
      AdvanceKeepsRunInv(g.runs[a.i], a.choice);
    }
  }

  lemma {:induction false} RunsKeepInv(g: Registry, actions: seq<Action>)
    requires RegistryInv(g)
    ensures RegistryInv(Runs(g, actions))
    decreases |actions|
  {
    if actions != [] {
      NextKeepsInv(g, actions[0]);
      RunsKeepInv(Next(g, actions[0]), actions[1..]);
    }
  }

  // ---------------------------------------------------------------------------
  // Main results
  // ---------------------------------------------------------------------------

  /** Whatever the interleaving, two different runs are never running together. */
  lemma AtMostOneRunning(actions: seq<Action>, i: nat, j: nat)
    ensures var g := Runs(INITIAL, actions);
            i < |g.runs| && j < |g.runs| && g.runs[i].state == Running && g.runs[j].state == Running ==> i == j
  {
    RunsKeepInv(INITIAL, actions);
  }

  lemma FinalStep(g: Registry, a: Action, i: nat)
    requires i < |g.runs| && g.runs[i].state != Running && RunInv(g.runs[i])
    ensures i < |Next(g, a).runs|
    ensures var r := Next(g, a).runs[i];
            r.state == g.runs[i].state && r.fileLen == g.runs[i].fileLen && r.analysed == g.runs[i].analysed
  {
  }

  /** A run never leaves `running` twice: once it has, its state and its file are final. */
  lemma {:induction false} FinalStateIsFinal(g: Registry, actions: seq<Action>, i: nat)
    requires RegistryInv(g)
    requires i < |g.runs| && g.runs[i].state != Running
    ensures i < |Runs(g, actions).runs|
    ensures var r := Runs(g, actions).runs[i];
            && r.state == g.runs[i].state
            && r.fileLen == g.runs[i].fileLen
            && r.analysed == g.runs[i].analysed
    decreases |actions|
  {
    if actions != [] {
      NextKeepsInv(g, actions[0]);
      FinalStep(g, actions[0], i);
      FinalStateIsFinal(Next(g, actions[0]), actions[1..], i);
    }
  }

  lemma {:induction false} RunsAppend(g: Registry, a: seq<Action>, b: seq<Action>)
    ensures Runs(g, a + b) == Runs(Runs(g, a), b)
    decreases |a|
  {
    if a == [] {
      assert a + b == b;
    } else {
      assert (a + b)[1..] == a[1..] + b;
      RunsAppend(Next(g, a[0]), a[1..], b);
    }
  }

  /** A run that left its loop in an iteration that began stopped or with its source finished
      has analysed the entire file, and the file stays that way in every continuation. */
  lemma LastAnalysisCoversFinalFile(actions: seq<Action>, more: seq<Action>, i: nat)
    requires i < |Runs(INITIAL, actions).runs|
    requires Runs(INITIAL, actions).runs[i].pc == Ended(true)
    ensures var g := Runs(INITIAL, actions + more);
            && i < |g.runs| && Covered(g.runs[i])
            && g.runs[i].fileLen == Runs(INITIAL, actions).runs[i].fileLen
            && g.runs[i].state in {Stopped, Error}
  {
    var g := Runs(INITIAL, actions);
    RunsKeepInv(INITIAL, actions);
    assert RunInv(g.runs[i]);
    FinalStateIsFinal(g, more, i);
    RunsAppend(INITIAL, actions, more);
    assert g.runs[i].state in {Stopped, Error};
  }

  /** Every continuation in which run `i` reaches its end leaves it covered. */
  ghost predicate AlwaysEndsCovered(g: Registry, i: nat) {
    forall more :: EndsCovered(Runs(g, more), i)
  }

  ghost predicate EndsCovered(g: Registry, i: nat) {
    i < |g.runs| && g.runs[i].pc.Ended? ==> Covered(g.runs[i])
  }

  /** Past the exit of a pass that began stopped or finished. */
  ghost predicate LeavingLast(pc: Pc) {
    pc in {FinalStop(true), Settle(true), Ended(true), Failing, Crashed, Dead}
  }

  lemma {:induction false} LeavingLastStays(g: Registry, more: seq<Action>, i: nat)
    requires i < |g.runs| && LeavingLast(g.runs[i].pc)
    ensures i < |Runs(g, more).runs| && LeavingLast(Runs(g, more).runs[i].pc)
    decreases |more|
  {
    if more != [] {
      LeavingLastStays(Next(g, more[0]), more[1..], i);
    }
  }

  /** From the exit of a pass at the packet limit: the file grows once more, and the run ends. */
  lemma UncoveredExit(g: Registry, i: nat) returns (more: seq<Action>)
    requires RegistryInv(g) && i < |g.runs| && g.runs[i].pc == FinalStop(false)
    ensures !EndsCovered(Runs(g, more), i)
  {
    var grow, go := FileGrows(i, HEADER_LEN), LoopStep(i, Fine(0, 0));
    more := [grow] + ([go] + [go]);
    assert more[1..] == [go] + [go] && ([go] + [go])[1..] == [go] && [go][1..] == [];
    var r := g.runs[i];
    var g1 := Next(g, grow);
    assert g1.runs[i] == r.(fileLen := r.fileLen + HEADER_LEN);
    var g2 := Next(g1, go);
    assert g2.runs[i] == SourceStopped(g1.runs[i]).(pc := Settle(false));
    var g3 := Next(g2, go);
    assert Runs(g, more) == Runs(g1, [go] + [go]);
    assert Runs(g1, [go] + [go]) == Runs(g2, [go]);
    assert Runs(g2, [go]) == Runs(g3, []);
    assert g3.runs[i].pc == Ended(false) && g3.runs[i].fileLen == r.fileLen + HEADER_LEN;
    assert g3.runs[i].analysed == r.analysed <= r.fileLen;
  }

  /** The exact condition at the loop's exit: the run is sure to end with its whole file analysed
      if and only if the pass it is leaving began stopped or with its source finished. */
  lemma ExitIsCoveredIff(actions: seq<Action>, i: nat)
    requires var g := Runs(INITIAL, actions); i < |g.runs| && g.runs[i].pc.FinalStop?
    ensures AlwaysEndsCovered(Runs(INITIAL, actions), i) <==> Runs(INITIAL, actions).runs[i].pc.last
  {
    var g := Runs(INITIAL, actions);
    RunsKeepInv(INITIAL, actions);
    if g.runs[i].pc.last {
      forall more ensures EndsCovered(Runs(g, more), i) {
        LeavingLastStays(g, more, i);
        RunsKeepInv(g, more);
        assert RunInv(Runs(g, more).runs[i]);
      }
    } else {
      var more := UncoveredExit(g, i);
    }
  }

  /** An analysis may have read the file up to any length from the one measured before it began to the one
      the file has when it completes, and up to no other. */
  lemma AnalysisReads(r: Run, packets: nat, n: nat)
    requires r.pc.Ticking? && r.size <= r.fileLen
    ensures r.size <= n <= r.fileLen <==> exists seen: nat :: Advance(r, Fine(packets, seen)).analysed == n
  {
    if r.size <= n <= r.fileLen {
      assert Advance(r, Fine(packets, n)).analysed == n;
    }
  }

  // ---------------------------------------------------------------------------
  // Starting and stopping
  // ---------------------------------------------------------------------------

  ghost predicate NoneRunning(g: Registry) {
    forall i :: 0 <= i < |g.runs| ==> g.runs[i].state != Running
  }

  /** A start request whose configuration is refused or not, and whose source comes up or not. */
  function Start(refused: bool, ok: bool, len: nat): seq<Action> {
    [AcquireLock, CheckActive(refused), SourceStarted(ok, len)]
  }

  lemma RunsOfThree(g: Registry, a: Action, b: Action, c: Action)
    ensures Runs(g, [a, b, c]) == Next(Next(Next(g, a), b), c)
  {
    assert [a, b, c][1..] == [b, c] && [b, c][1..] == [c] && [c][1..] == [];
    assert Runs(g, [a, b, c]) == Runs(Next(g, a), [b, c]);
    assert Runs(Next(g, a), [b, c]) == Runs(Next(Next(g, a), b), [c]);
  }

  /** Main result on starting.  When the lock is free, a start request adds a run, running and current,
      if and only if no run is running, the request is not refused and its source comes up; otherwise
      it leaves everything as it was. */
  lemma StartIsAcceptedIff(actions: seq<Action>, refused: bool, ok: bool, len: nat)
    requires Runs(INITIAL, actions).lock.Free?
    ensures var g := Runs(INITIAL, actions);
            var after := Runs(g, Start(refused, ok, len));
            if NoneRunning(g) && !refused && ok then
              && |after.runs| == |g.runs| + 1 && after.runs[..|g.runs|] == g.runs
              && after.current == |g.runs| && after.lock.Free?
              && var r := after.runs[|g.runs|];
                 && r.state == Running && r.pc.WaitForFile? && r.sourceRunning && !r.stopping && !r.sourceError
                 && r.fileLen == len && r.analysed == 0
            else
              after == g
  {
    var g := Runs(INITIAL, actions);
    RunsKeepInv(INITIAL, actions);
    RunsOfThree(g, AcquireLock, CheckActive(refused), SourceStarted(ok, len));
    assert NoneRunning(g) <==> g.current == -1 || g.runs[g.current].state != Running;
  }

  /** While one start request holds the lock another gets nowhere. */
  lemma SecondStartWaits(g: Registry)
    requires !g.lock.Free?
    ensures Next(g, AcquireLock) == g
  {
  }

  /** A stop request reaches the running run, if there is one, and touches no other. */
  lemma StopReachesTheRunningRun(actions: seq<Action>, i: nat)
    requires i < |Runs(INITIAL, actions).runs|
    ensures var g := Runs(INITIAL, actions);
            var after := Next(g, StopRequest);
            && |after.runs| == |g.runs| && after.current == g.current && after.lock == g.lock
            && after.runs[i] == g.runs[i].(stopping := g.runs[i].stopping || i == |g.runs| - 1)
            && (g.runs[i].state == Running ==> after.runs[i].stopping)
  {
    RunsKeepInv(INITIAL, actions);
  }

  // ---------------------------------------------------------------------------
  // How a run ends
  // ---------------------------------------------------------------------------

  /** With the source over, the recorded error stands and decides the outcome. */
  ghost predicate Marked(r: Run, failed: bool) {
    && !r.sourceRunning && r.sourceError == failed
    && (r.pc.Ended? ==> r.state == if failed then Error else Stopped)
    && (r.pc.Crashed? ==> r.state == Error)
  }

  lemma {:induction false} MarkStays(g: Registry, more: seq<Action>, i: nat, failed: bool)
    requires i < |g.runs| && Marked(g.runs[i], failed)
    ensures i < |Runs(g, more).runs| && Marked(Runs(g, more).runs[i], failed)
    decreases |more|
  {
    if more != [] {
      MarkStays(Next(g, more[0]), more[1..], i, failed);
    }
  }

  lemma {:induction false} SourceOverWhenEnded(actions: seq<Action>)
    ensures forall i :: 0 <= i < |Runs(INITIAL, actions).runs| ==> SourceLives(Runs(INITIAL, actions).runs[i])
  {
    SourceLivesAlong(INITIAL, actions);
  }

  ghost predicate SourceLives(r: Run) {
    r.sourceRunning ==> !r.pc.Settle? && !r.pc.Ended? && !r.pc.Crashed?
  }

  lemma AdvanceSourceLives(r: Run, c: Choice)
    requires SourceLives(r)
    ensures SourceLives(Advance(r, c))
  {
  }

  lemma {:induction false} SourceLivesAlong(g: Registry, actions: seq<Action>)
    requires forall i :: 0 <= i < |g.runs| ==> SourceLives(g.runs[i])
    ensures forall i :: 0 <= i < |Runs(g, actions).runs| ==> SourceLives(Runs(g, actions).runs[i])
    decreases |actions|
  {
    if actions != [] {
      var a := actions[0];
      if a.LoopStep? && a.i < |g.runs| {
        AdvanceSourceLives(g.runs[a.i], a.choice);
      }
      SourceLivesAlong(Next(g, a), actions[1..]);
    }
  }

  /** A source that ends while its run goes on decides how the run ends: in error if it failed, else
      stopped, unless an exception ends the run in error. */
  lemma SourceEndDecides(actions: seq<Action>, i: nat, failed: bool, more: seq<Action>)
    requires i < |Runs(INITIAL, actions).runs| && Runs(INITIAL, actions).runs[i].sourceRunning
    ensures var end := Runs(Next(Runs(INITIAL, actions), SourceEnds(i, failed)), more);
            && i < |end.runs|
            && (end.runs[i].pc.Ended? ==> end.runs[i].state == if failed then Error else Stopped)
            && (end.runs[i].pc.Crashed? ==> end.runs[i].state == Error)
  {
    SourceOverWhenEnded(actions);
    MarkStays(Next(Runs(INITIAL, actions), SourceEnds(i, failed)), more, i, failed);
  }

  ghost predicate Unfailed(r: Run) {
    !r.sourceError && (r.pc.Ended? ==> r.state == Stopped)
  }

  /** A run whose source never failed ends stopped, or in error through an exception. */
  lemma {:induction false} UnfailedEndsStopped(g: Registry, actions: seq<Action>, i: nat)
    requires i < |g.runs| ==> Unfailed(g.runs[i])
    requires forall a :: a in actions ==> a != SourceEnds(i, true)
    ensures i < |Runs(g, actions).runs| ==> Unfailed(Runs(g, actions).runs[i])
    decreases |actions|
  {
    if actions != [] {
      assert actions[0] in actions && forall a :: a in actions[1..] ==> a in actions;
      UnfailedEndsStopped(Next(g, actions[0]), actions[1..], i);
    }
  }

  // ---------------------------------------------------------------------------
  // Going on, and the two limits
  // ---------------------------------------------------------------------------

  /** In the loop, with no reason to leave it. */
  ghost predicate GoesOn(r: Run) {
    && r.pc in {WaitForFile, Top, Stat(false), Ticking(false), Decide(false), Sleep}
    && !r.stopping && r.sourceRunning && r.packets < 250_000
  }

  /** A run nobody stops, whose source lives and whose captures stay below 250,000 packets, never
      leaves its loop. */
  lemma {:induction false} RunGoesOn(r: Run, choices: seq<Choice>)
    requires GoesOn(r) && forall c :: c in choices ==> c.Fine? && c.packets < 250_000
    ensures GoesOn(AdvanceAll(r, choices)) && AdvanceAll(r, choices).state == r.state
    decreases |choices|
  {
    if choices != [] {
      assert choices[0] in choices && forall c :: c in choices[1..] ==> c in choices;
      RunGoesOn(Advance(r, choices[0]), choices[1..]);
    }
  }

  /** At 250,000 packets it leaves it. */
  lemma LimitEndsTheLoop(r: Run, c: Choice, d: Choice)
    requires r.pc.Ticking? && c.Fine? && c.packets >= 250_000
    ensures Advance(Advance(r, c), d).pc == FinalStop(r.pc.last)
  {
  }

  /** One pass of the loop analyses all the bytes there are, once they are more than a file header. */
  lemma PassCovers(actions: seq<Action>, i: nat, c: Choice)
    requires i < |Runs(INITIAL, actions).runs| && Runs(INITIAL, actions).runs[i].pc.Top? && c.Fine?
    ensures var r := Runs(INITIAL, actions).runs[i];
            !r.stopping && r.sourceRunning ==>
              var k := if r.fileLen >= 24 && r.fileLen != r.size then 3 else 2;
              var after := AdvanceAll(r, seq(k, _ => c));
              after.pc == Decide(false) && (r.fileLen >= 24 ==> after.analysed == r.fileLen)
  {
    RunsKeepInv(INITIAL, actions);
    var r := Runs(INITIAL, actions).runs[i];
    assert RunInv(r);
    AdvanceThrice(r, c);
  }

  lemma AdvanceThrice(r: Run, c: Choice)
    ensures AdvanceAll(r, seq(2, _ => c)) == Advance(Advance(r, c), c)
    ensures AdvanceAll(r, seq(3, _ => c)) == Advance(Advance(Advance(r, c), c), c)
  {
    var two, three := seq(2, _ => c), seq(3, _ => c);
    assert two[1..] == [c] && [c][1..] == [] && three[1..] == two;
    assert forall q: Run :: AdvanceAll(q, [c]) == AdvanceAll(Advance(q, c), []);
    assert forall q: Run :: AdvanceAll(q, two) == AdvanceAll(Advance(q, c), [c]);
  }

  ghost predicate BelowHeader(r: Run) {
    && (r.size >= 24 || (r.size == -1 && r.analysed == 0 && !r.pc.Ticking?))
    && r.size <= r.fileLen
  }

  lemma AdvanceBelowHeader(r: Run, c: Choice)
    requires BelowHeader(r)
    ensures BelowHeader(Advance(r, c))
  {
  }

  lemma {:induction false} BelowHeaderAlong(g: Registry, actions: seq<Action>)
    requires forall i :: 0 <= i < |g.runs| ==> BelowHeader(g.runs[i])
    ensures forall i :: 0 <= i < |Runs(g, actions).runs| ==> BelowHeader(Runs(g, actions).runs[i])
    decreases |actions|
  {
    if actions != [] {
      var a := actions[0];
      if a.LoopStep? && a.i < |g.runs| {
        AdvanceBelowHeader(g.runs[a.i], a.choice);
      }
      BelowHeaderAlong(Next(g, a), actions[1..]);
    }
  }

  /** A file shorter than its header is never analysed. */
  lemma HeaderAloneIsNotAnalysed(actions: seq<Action>, i: nat)
    requires i < |Runs(INITIAL, actions).runs| && Runs(INITIAL, actions).runs[i].fileLen < 24
    ensures Runs(INITIAL, actions).runs[i].analysed == 0
  {
    BelowHeaderAlong(INITIAL, actions);
  }

  /** How many steps a loop task can still take once told to stop or left without a running source. */
  function StepsLeft(r: Run): nat {
    match r.pc
    case Stat(last) => if last then 6 else 12
    case Ticking(last) => if last then 5 else 11
    case Decide(last) => if last then 4 else 10
    case WaitForFile => 9
    case Sleep => 9
    case Top => 8
    case StopSource => 7
    case FinalStop(_) => 3
    case Settle(_) => 2
    case Failing => 1
    case _ => 0
  }

  /** Once asked to stop, or once its source has finished, a loop task is over within twelve of its
      own steps, whatever they do. */
  lemma {:induction false} StopTakesEffect(r: Run, choices: seq<Choice>)
    requires r.stopping || !r.sourceRunning
    requires |choices| >= StepsLeft(r)
    ensures var r' := AdvanceAll(r, choices);
            r'.pc.Ended? || r'.pc.Crashed? || r'.pc.Dead?
    decreases |choices|
  {
    if choices != [] {
      var r1 := Advance(r, choices[0]);
      assert (r1.stopping || !r1.sourceRunning) && (StepsLeft(r) > 0 ==> StepsLeft(r1) < StepsLeft(r));
      StopTakesEffect(r1, choices[1..]);
    }
  }

  /** A registry holding one run and nothing else going on. */
  function Solo(r: Run): Registry {
    Registry([r], 0, Free)
  }

  lemma SoloNext(r: Run, a: Action, rest: seq<Action>)
    ensures a.LoopStep? && a.i == 0 ==> Runs(Solo(r), [a] + rest) == Runs(Solo(Advance(r, a.choice)), rest)
    ensures a.FileGrows? && a.i == 0 && !r.frozen ==>
              Runs(Solo(r), [a] + rest) == Runs(Solo(r.(fileLen := r.fileLen + a.bytes)), rest)
    ensures a.StopRequest? ==> Runs(Solo(r), [a] + rest) == Runs(Solo(r.(stopping := true)), rest)
  {
    assert ([a] + rest)[1..] == rest;
    assert forall q: Run :: [r][0 := q] == [q];
  }

  lemma StartSolo(len: nat, rest: seq<Action>)
    ensures Runs(INITIAL, [AcquireLock] + ([CheckActive(false)] + ([SourceStarted(true, len)] + rest)))
            == Runs(Solo(NewRun(len)), rest)
  {
    var a3 := [SourceStarted(true, len)] + rest;
    var a2 := [CheckActive(false)] + a3;
    var a1 := [AcquireLock] + a2;
    assert a1[1..] == a2 && a2[1..] == a3 && a3[1..] == rest;
    var g1 := Registry([], -1, Checking);
    var g2 := Registry([], -1, Starting);
    assert Next(INITIAL, AcquireLock) == g1;
    assert Next(g1, CheckActive(false)) == g2;
    assert [] + [NewRun(len)] == [NewRun(len)];
    assert Next(g2, SourceStarted(true, len)) == Solo(NewRun(len));
    assert Runs(INITIAL, a1) == Runs(g1, a2);
    assert Runs(g1, a2) == Runs(g2, a3);
  }

  /** The first pass over a 100-byte file whose analysis counts `packets`. */
  lemma FirstPass(packets: nat, rest: seq<Action>)
    ensures var go := LoopStep(0, Fine(0, 0));
            Runs(Solo(NewRun(100)), [go] + ([go] + ([go] + ([LoopStep(0, Fine(packets, 100))] + rest))))
            == Runs(Solo(NewRun(100).(pc := Decide(false), size := 100, analysed := 100, packets := packets)), rest)
  {
    var go := LoopStep(0, Fine(0, 0));
    var s3 := [LoopStep(0, Fine(packets, 100))] + rest;
    var s2 := [go] + s3;
    var r0 := NewRun(100);
    SoloNext(r0, go, [go] + s2);
    SoloNext(r0.(pc := Top), go, s2);
    SoloNext(r0.(pc := Stat(false)), go, s3);
    SoloNext(r0.(pc := Ticking(false), size := 100), s3[0], rest);
  }

  /** 60 bytes and a stop request arrive after a pass that reached the packet limit. */
  lemma LimitExit(r: Run)
    requires r.pc == Decide(false) && r.packets >= MAX_PACKETS && !r.frozen && !r.sourceError
    ensures var go := LoopStep(0, Fine(0, 0));
            Runs(Solo(r), [FileGrows(0, 60)] + ([StopRequest] + ([go] + ([go] + ([go] + [])))))
            == Solo(r.(pc := Ended(false), state := Stopped, fileLen := r.fileLen + 60,
                       stopping := true, frozen := true, sourceRunning := false))
  {
    var go := LoopStep(0, Fine(0, 0));
    var s2: seq<Action> := [go] + [];
    var s1 := [go] + s2;
    var s0 := [go] + s1;
    var r1 := r.(fileLen := r.fileLen + 60);
    var r2 := r1.(stopping := true);
    var r3 := r2.(pc := FinalStop(false));
    var r4 := SourceStopped(r3).(pc := Settle(false));
    SoloNext(r, FileGrows(0, 60), [StopRequest] + s0);
    SoloNext(r1, StopRequest, s0);
    SoloNext(r2, go, s1);
    SoloNext(r3, go, s2);
    SoloNext(r4, go, []);
  }

  /** At the packet limit the guarantee fails: bytes that arrive after the analysis and before
      the source stops are never analysed, although the run ends `stopped` -- even when the
      operator asked it to stop meanwhile. */
  lemma LimitCanMissTheTail() returns (actions: seq<Action>)
    ensures var g := Runs(INITIAL, actions);
            && |g.runs| == 1
            && g.runs[0].state == Stopped
            && g.runs[0].stopping
            && !Covered(g.runs[0])
  {
    var go := LoopStep(0, Fine(0, 0));
    var exit := [FileGrows(0, 60)] + ([StopRequest] + ([go] + ([go] + ([go] + []))));
    var pass := [go] + ([go] + ([go] + ([LoopStep(0, Fine(MAX_PACKETS, 100))] + exit)));
    actions := [AcquireLock] + ([CheckActive(false)] + ([SourceStarted(true, 100)] + pass));
    StartSolo(100, pass);
    FirstPass(MAX_PACKETS, exit);
    LimitExit(NewRun(100).(pc := Decide(false), size := 100, analysed := 100, packets := MAX_PACKETS));
  }

  /** An exception in any stretch of the loop that can raise ends the run in error, its source stopped;
      unless stopping it raises too, which leaves the run as it was with its task dead. */
  lemma ExceptionMeans(r: Run, packets: nat, seen: nat)
    requires r.pc.WaitForFile? || r.pc.StopSource? || r.pc.Ticking? || r.pc.FinalStop?
    ensures var failing := Advance(r, Raises);
            var over := Advance(failing, Fine(packets, seen));
            && failing == r.(pc := Failing)
            && over.pc == Crashed && over.state == Error && over.frozen && !over.sourceRunning
            && Advance(failing, Raises) == r.(pc := Dead)
  {
  }
}
