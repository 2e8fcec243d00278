/**
 The exploration pipeline of AutoExplorer: a hand-written depth-first search.
 Every stage keeps a stack of candidate configurations; a stage that yields no
 candidate pops the stacks below it until one has a configuration left to try,
 and a failed timing check jumps several stages back at once.

 Plugins, the cycle-count database and the timing tool are functions of a
 `World`. A plugin may answer differently on every run: its first argument is
 the number of plugin runs made so far.
 */
module AutoExplorer {
  import opened Sequences

  type RowID = int

  /** Stages 0..8, from AllOperationMachine to ImmediateGenerator. */
  type Stage = s: nat | s <= 8

  const PRUNE_UNUSED: Stage := 1
  const VLIW_CONNECT: Stage := 2
  const FU_MERGE: Stage := 3
  const BUS_MERGE: Stage := 4
  const RF_PORT_MERGE: Stage := 5
  const SHORT_IMMEDIATES: Stage := 7
  const IMMEDIATES: Stage := 8
  const UNIT_LIMIT := 4

  datatype World = World(
    plugin: (nat, Stage, RowID) -> seq<RowID>,
    cycles: RowID -> seq<nat>,
    timingTool: RowID -> bool,
    rf32Ports: RowID -> nat,
    units: RowID -> nat,
    targetFrequency: nat,
    targetCycles: nat,
    resultSize: nat)

  datatype State = State(pid: Stage, cur: RowID, stacks: seq<seq<RowID>>, finished: seq<RowID>)

  /** How one iteration, or a run of them, ends. `PoppedEmpty` and `ReadEmpty`
      are the two undefined uses of an empty vector: pop_back() and back(). */
  datatype Outcome =
    | Continue(state: State)
    | Finished(results: seq<RowID>)
    | BudgetFailed
    | PoppedEmpty
    | ReadEmpty

  function Next(s: Stage): Stage { if s < IMMEDIATES then s + 1 else s }

  function Previous(s: Stage): Stage { if s > 0 then s - 1 else s }

  function Last<T>(s: seq<T>): T
    requires s != []
  {
    s[|s| - 1]
  }

  function Init<T>(s: seq<T>): seq<T>
    requires s != []
  {
    s[..|s| - 1]
  }

  // ---------------------------------------------------------------- pruning

  function Average(ccs: seq<nat>): nat
  {
    if Sum(ccs) == 0 then 0 else Sum(ccs) / |ccs|
  }

  predicate MeetsTarget(w: World, c: RowID) { Average(w.cycles(c)) <= w.targetCycles }

  function Prune(w: World, result: seq<RowID>): seq<RowID>
  {
    if result == [] then []
    else if MeetsTarget(w, Last(result)) then Prune(w, Init(result)) + [Last(result)]
    else Prune(w, Init(result))
  }

  lemma {:induction false} PruneMembers(w: World, result: seq<RowID>)
    ensures forall c :: c in Prune(w, result) <==> c in result && MeetsTarget(w, c)
  {
    if result != [] {
      PruneMembers(w, Init(result));
      assert result == Init(result) + [Last(result)];
    }
  }

  /** Pruning keeps the order, and an answer that meets the target as it is. */
  lemma {:induction false} PruneOrder(w: World, result: seq<RowID>)
    ensures Subsequence(Prune(w, result), result)
    ensures (forall c :: c in result ==> MeetsTarget(w, c)) ==> Prune(w, result) == result
  {
    if result != [] {
      PruneOrder(w, Init(result));
      assert result == Init(result) + [Last(result)];
    }
  }

  lemma QuotientAtMost(sum: nat, n: nat, target: nat)
    requires n > 0
    ensures sum / n <= target <==> sum < (target + 1) * n
  {
    var q := sum / n;
    assert q * n <= sum < q * n + n;
    if q <= target {
      assert q * n <= target * n;
    } else {
      assert (target + 1) * n <= q * n;
    }
  }

  /** The truncating average meets the target exactly when the sum stays below
      one more cycle per application; without applications it always does. */
  lemma AverageMeaning(ccs: seq<nat>, target: nat)
    ensures Average(ccs) <= target <==> ccs == [] || Sum(ccs) < (target + 1) * |ccs|
  {
    if ccs != [] {
      QuotientAtMost(Sum(ccs), |ccs|, target);
      QuotientAtMost(0, |ccs|, target);
    }
  }

  method CalcAvgClockCycles(ccs: seq<nat>) returns (average: nat)
    ensures average == Average(ccs)
  {
    var cycleSum := 0;
    for i := 0 to |ccs|
      invariant cycleSum == Sum(ccs[..i])
    {
      assert ccs[..i + 1][..i] == ccs[..i];
      cycleSum := cycleSum + ccs[i];
    }
    assert ccs[..|ccs|] == ccs;
    if cycleSum == 0 {
      return 0;
    }
    return cycleSum / |ccs|;
  }

  method PruneConfigurations(w: World, result: seq<RowID>) returns (pruned: seq<RowID>)
    ensures pruned == Prune(w, result)
  {
    pruned := [];
    for i := 0 to |result|
      invariant pruned == Prune(w, result[..i])
    {
      assert Init(result[..i + 1]) == result[..i];
      var cc := CalcAvgClockCycles(w.cycles(result[i]));
      if cc <= w.targetCycles {
        pruned := pruned + [result[i]];
      }
    }
    assert result[..|result|] == result;
  }

  // ------------------------------------------------------- one iteration

  predicate Fits(w: World, c: RowID) { w.targetFrequency == 0 || w.timingTool(c) }

  /** `finishedResults.size() > resultSize_ - 1` on 32-bit unsigned numbers. */
  predicate Enough(w: World, finished: seq<RowID>)
  {
    |finished| > (if w.resultSize == 0 then 0xFFFF_FFFF else w.resultSize - 1)
  }

  /** The stage a failed timing check continues from. */
  function JumpTarget(w: World, c: RowID): Stage
  {
    if w.rf32Ports(c) == 2 then BUS_MERGE else RF_PORT_MERGE
  }

  /** Pops the stack below until some stage has a configuration left. */
  function FallBack(s: State): Outcome
    requires |s.stacks| == 9
    decreases s.pid
  {
    if s.pid <= FU_MERGE then Continue(s)
    else if s.stacks[s.pid - 1] == [] then PoppedEmpty
    else
      var popped := Init(s.stacks[s.pid - 1]);
      var stacks := s.stacks[s.pid - 1 := popped];
      if popped == [] then FallBack(s.(pid := s.pid - 1, stacks := stacks))
      else Continue(s.(cur := Last(popped), stacks := stacks))
  }

  /** The unit limit stops the search in front of the last stage. */
  function LimitUnits(w: World, o: Outcome, machine: RowID): Outcome
  {
    if o.Continue? && o.state.pid == IMMEDIATES && w.units(machine) > UNIT_LIMIT
    then Finished(o.state.finished) else o
  }

  function Candidates(w: World, pid: Stage, result: seq<RowID>): seq<RowID>
  {
    var pruned := Prune(w, result);
    if pruned == [] && pid == SHORT_IMMEDIATES then result else pruned
  }

  /** The last stage accepts its best candidate or prepares the jump back. */
  function Judge(w: World, s: State, best: RowID): State
  {
    if Fits(w, best) then s.(cur := best, finished := s.finished + [best])
    else s.(cur := best, pid := JumpTarget(w, best))
  }

  function Step(w: World, s: State, result: seq<RowID>): Outcome
    requires |s.stacks| == 9
  {
    var pruned := Candidates(w, s.pid, result);
    var s1 := s.(stacks := s.stacks[s.pid := pruned]);
    if s.pid == IMMEDIATES && result == [] then ReadEmpty
    else if pruned == [] then
      if s.pid <= PRUNE_UNUSED then
        if result == [] then ReadEmpty
        else LimitUnits(w, Continue(s1.(pid := s.pid + 1, cur := Last(result))), s.cur)
      else if s.pid <= FU_MERGE then BudgetFailed
      else LimitUnits(w, FallBack(s1), s.cur)
    else
      var best := Last(pruned);
      if s.pid < IMMEDIATES then LimitUnits(w, Continue(s1.(pid := s.pid + 1, cur := best)), s.cur)
      else
        var judged := Judge(w, s1, best);
        if Enough(w, judged.finished) then Finished(judged.finished)
        else LimitUnits(w, FallBack(judged), best)
  }

  // ---------------------------------------------------------- whole runs

  function Run(w: World, s: State, runs: nat, n: nat): Outcome
    requires |s.stacks| == 9
    decreases n
  {
    if n == 0 then Continue(s)
    else
      var o := Step(w, s, w.plugin(runs, s.pid, s.cur));
      if o.Continue? && |o.state.stacks| == 9 then Run(w, o.state, runs + 1, n - 1) else o
  }

  function Start(configuration: RowID): State
  {
    State(0, configuration, [[], [], [], [], [], [], [], [], []], [])
  }

  /** The two fall-back loops of the source, which are the same. */
  method FallBackLoop(generatedConfs: array<seq<RowID>>, start: State) returns (pid: Stage, currentConfID: RowID)
    requires generatedConfs.Length == 9 && start.stacks == generatedConfs[..]
    requires forall k :: FU_MERGE <= k < start.pid ==> start.stacks[k] != []
    modifies generatedConfs
    ensures FallBack(start) == Continue(State(pid, currentConfID, generatedConfs[..], start.finished))
  {
    pid, currentConfID := start.pid, start.cur;
    while pid > FU_MERGE
      invariant pid <= start.pid && currentConfID == start.cur
      invariant forall k :: FU_MERGE <= k < pid ==> generatedConfs[k] != []
      invariant FallBack(start) == FallBack(start.(pid := pid, stacks := generatedConfs[..]))
      decreases pid
    {
      ghost var stacks := generatedConfs[..];
      var popped := Init(generatedConfs[pid - 1]);
      generatedConfs[pid - 1] := popped;
      assert generatedConfs[..] == stacks[pid - 1 := popped];
      if popped == [] {
        pid := Previous(pid);
        continue;
      } else {
        currentConfID := Last(popped);
        break;
      }
    }
  }

  /** The body of the pipeline loop, after the plugin has answered. */
  method Iterate(w: World, generatedConfs: array<seq<RowID>>, s: State, result: seq<RowID>) returns (o: Outcome)
    requires generatedConfs.Length == 9 && s.stacks == generatedConfs[..] && Inv(s)
    modifies generatedConfs
    ensures o == Step(w, s, result)
    ensures o.Continue? ==> o.state.stacks == generatedConfs[..]
  {
    var pid, currentConfID, finishedResults, machine := s.pid, s.cur, s.finished, s.cur;
    var prunedResult := PruneConfigurations(w, result);
    if pid == IMMEDIATES && result == [] {
      return ReadEmpty;
    }
    if prunedResult == [] && pid == SHORT_IMMEDIATES {
      prunedResult := result;
    }
    generatedConfs[pid] := prunedResult;
    ghost var s1 := s.(stacks := s.stacks[pid := prunedResult]);
    assert generatedConfs[..] == s1.stacks;
    if prunedResult == [] {
      if pid > PRUNE_UNUSED {
        if pid == VLIW_CONNECT || pid == FU_MERGE {
          return BudgetFailed;
        }
        pid, currentConfID := FallBackLoop(generatedConfs, State(pid, currentConfID, generatedConfs[..], finishedResults));
      } else {
        if result == [] {
          return ReadEmpty;
        }
        currentConfID := Last(result);
        pid := Next(pid);
      }
    } else {
      currentConfID := Last(prunedResult);
      if pid == IMMEDIATES {
        machine := currentConfID;
        if Fits(w, currentConfID) {
          finishedResults := finishedResults + [currentConfID];
        } else {
          pid := RF_PORT_MERGE;
          if w.rf32Ports(machine) == 2 {
            pid := BUS_MERGE;
          }
        }
        if Enough(w, finishedResults) {
          return Finished(finishedResults);
        }
        FallBackKeepsInv(Judge(w, s1, currentConfID));
        pid, currentConfID := FallBackLoop(generatedConfs, State(pid, currentConfID, generatedConfs[..], finishedResults));
        pid := Previous(pid);
      }
      pid := Next(pid);
    }
    if pid == IMMEDIATES && w.units(machine) > UNIT_LIMIT {
      return Finished(finishedResults);
    }
    return Continue(State(pid, currentConfID, generatedConfs[..], finishedResults));
  }

  lemma RunUnfolds(w: World, s: State, runs: nat, n: nat)
    requires Inv(s) && n > 0
    ensures var o := Step(w, s, w.plugin(runs, s.pid, s.cur));
            && (o.Continue? ==> Inv(o.state))
            && Run(w, s, runs, n) == if o.Continue? then Run(w, o.state, runs + 1, n - 1) else o
  {
    StepKeepsInv(w, s, w.plugin(runs, s.pid, s.cur));
  }

  ghost predicate LeadsTo(w: World, s: State, runs: nat, left: nat, goal: Outcome)
  {
    Inv(s) && Run(w, s, runs, left) == goal
  }

  /** One plugin run and what the pipeline makes of it. */
  method RunPlugin(w: World, generatedConfs: array<seq<RowID>>, s: State, runs: nat, ghost left: nat, ghost goal: Outcome)
    returns (o: Outcome)
    requires generatedConfs.Length == 9 && s.stacks == generatedConfs[..]
    requires LeadsTo(w, s, runs, left, goal) && left > 0
    modifies generatedConfs
    ensures o.Continue? ==> o.state.stacks == generatedConfs[..] && LeadsTo(w, o.state, runs + 1, left - 1, goal)
    ensures !o.Continue? ==> o == goal
  {
    RunUnfolds(w, s, runs, left);
    o := Iterate(w, generatedConfs, s, w.plugin(runs, s.pid, s.cur));
  }

  /** The pipeline loop, for at most `maxRuns` plugin runs. */
  method RunPipeline(w: World, generatedConfs: array<seq<RowID>>, start: State, maxRuns: nat, ghost goal: Outcome)
    returns (o: Outcome)
    requires generatedConfs.Length == 9 && start.stacks == generatedConfs[..]
    requires LeadsTo(w, start, 0, maxRuns, goal)
    modifies generatedConfs
    ensures o == goal
  {
    var s := start;
    for runs := 0 to maxRuns
      invariant s.stacks == generatedConfs[..] && LeadsTo(w, s, runs, maxRuns - runs, goal)
    {
      o := RunPlugin(w, generatedConfs, s, runs, maxRuns - runs, goal);
      if !o.Continue? {
        return;
      }
      s := o.state;
    }
    o := Continue(s);
  }

  method Explore(w: World, configurationID: RowID, maxRuns: nat) returns (o: Outcome)
    ensures o == Run(w, Start(configurationID), 0, maxRuns)
  {
    var generatedConfs := new seq<RowID>[9](_ => []);
    var start := Start(configurationID);
    assert generatedConfs[..] == start.stacks;
    o := RunPipeline(w, generatedConfs, start, maxRuns, Run(w, start, 0, maxRuns));
  }

  // ----------------------------------------------------------- invariant

  /** Above the FU merging stage every stack below is non-empty and the current
      configuration is the top of the stack just below. */
  ghost predicate Inv(s: State)
  {
    && |s.stacks| == 9
    && (forall k :: FU_MERGE <= k < s.pid ==> s.stacks[k] != [])
    && (s.pid > FU_MERGE ==> s.cur == Last(s.stacks[s.pid - 1]))
  }

  lemma {:induction false} FallBackKeepsInv(s: State)
    requires |s.stacks| == 9
    requires forall k :: FU_MERGE <= k < s.pid ==> s.stacks[k] != []
    ensures var o := FallBack(s);
            && o.Continue? && Inv(o.state) && o.state.finished == s.finished
            && o.state.pid <= s.pid && (s.pid >= FU_MERGE ==> o.state.pid >= FU_MERGE)
            && (s.pid > FU_MERGE ==> Shrinks(o.state, s))
    decreases s.pid
  {
    if s.pid > FU_MERGE {
      var popped := Init(s.stacks[s.pid - 1]);
      if popped == [] {
        FallBackKeepsInv(s.(pid := s.pid - 1, stacks := s.stacks[s.pid - 1 := popped]));
      }
    }
  }

  /** A stage of `s'` has a shorter stack than in `s`; everything below that
      stage is unchanged. */
  ghost predicate Shrinks(s': State, s: State)
    requires |s.stacks| == 9 && |s'.stacks| == 9
  {
    || s'.pid <= FU_MERGE
    || (&& s'.pid <= s.pid
        && |s'.stacks[s'.pid - 1]| < |s.stacks[s'.pid - 1]|
        && s'.stacks[..s'.pid - 1] == s.stacks[..s'.pid - 1])
  }

  /** The search moved one stage up, or to a shorter stack at or below its stage. */
  ghost predicate Descends(s': State, s: State)
    requires |s.stacks| == 9 && |s'.stacks| == 9
  {
    || Shrinks(s', s)
    || (s'.pid == s.pid + 1 && s'.stacks[..s.pid] == s.stacks[..s.pid])
  }

  predicate FailsBudget(w: World, s: State, result: seq<RowID>)
  {
    (s.pid == VLIW_CONNECT || s.pid == FU_MERGE) && Prune(w, result) == []
  }

  /** No iteration pops an empty stack, whatever the plugin answers; back() is
      read from an empty vector exactly when a plugin of the first two stages
      or of the last one answers nothing, and the budget fails exactly when
      connecting or FU merging answers nothing that meets the target. */
  lemma StepKeepsInv(w: World, s: State, result: seq<RowID>)
    requires Inv(s)
    ensures !Step(w, s, result).PoppedEmpty?
    ensures Step(w, s, result).Continue? ==> Inv(Step(w, s, result).state)
    ensures Step(w, s, result).ReadEmpty? <==>
            result == [] && (s.pid <= PRUNE_UNUSED || s.pid == IMMEDIATES)
    ensures Step(w, s, result).BudgetFailed? <==> FailsBudget(w, s, result)
    ensures Step(w, s, result).Continue? ==>
              && s.finished <= Step(w, s, result).state.finished
              && (s.pid > FU_MERGE ==> Descends(Step(w, s, result).state, s))
    ensures Step(w, s, result).Finished? ==> s.finished <= Step(w, s, result).results
  {
    var pruned := Candidates(w, s.pid, result);
    var s1 := s.(stacks := s.stacks[s.pid := pruned]);
    if pruned == [] {
      FallBackKeepsInv(s1);
    } else if s.pid == IMMEDIATES {
      FallBackKeepsInv(Judge(w, s1, Last(pruned)));
    }
  }

  ghost predicate GoodResults(w: World, finished: seq<RowID>)
  {
    && (forall c :: c in finished ==> MeetsTarget(w, c) && Fits(w, c))
    && (w.resultSize >= 1 ==> |finished| <= w.resultSize)
  }

  lemma StepKeepsGoodResults(w: World, s: State, result: seq<RowID>)
    requires Inv(s) && GoodResults(w, s.finished) && !Enough(w, s.finished)
    ensures var o := Step(w, s, result);
            && (o.Continue? ==> GoodResults(w, o.state.finished) && !Enough(w, o.state.finished))
            && (o.Finished? ==> GoodResults(w, o.results))
  {
    PruneMembers(w, result);
    var pruned := Candidates(w, s.pid, result);
    var s1 := s.(stacks := s.stacks[s.pid := pruned]);
    if pruned == [] {
      FallBackKeepsInv(s1);
    } else if s.pid == IMMEDIATES {
      assert MeetsTarget(w, Last(pruned));
      FallBackKeepsInv(Judge(w, s1, Last(pruned)));
    }
  }

  /** Every run, of any length and with any plugin answers: no empty stack is
      popped, and what it has finished meets the cycle target and the timing
      check and is no longer than asked for. */
  lemma {:induction false} RunIsSafe(w: World, s: State, runs: nat, n: nat)
    requires Inv(s) && GoodResults(w, s.finished) && !Enough(w, s.finished)
    ensures var o := Run(w, s, runs, n);
            && !o.PoppedEmpty?
            && (o.Continue? ==> Inv(o.state) && GoodResults(w, o.state.finished))
            && (o.Finished? ==> GoodResults(w, o.results))
    decreases n
  {
    if n > 0 {
      var result := w.plugin(runs, s.pid, s.cur);
      StepKeepsInv(w, s, result);
      StepKeepsGoodResults(w, s, result);
      var o := Step(w, s, result);
      if o.Continue? {
        RunIsSafe(w, o.state, runs + 1, n - 1);
      }
    }
  }

  lemma ExplorationIsSafe(w: World, configuration: RowID, n: nat)
    ensures var o := Run(w, Start(configuration), 0, n);
            && !o.PoppedEmpty?
            && (o.Continue? ==> Inv(o.state) && GoodResults(w, o.state.finished))
            && (o.Finished? ==> GoodResults(w, o.results))
  {
    RunIsSafe(w, Start(configuration), 0, n);
  }

  // ------------------------------------------------- the steps, one by one

  /** The average over the applications is within the cycle target. */
  ghost predicate WithinTarget(w: World, c: RowID)
  {
    w.cycles(c) == [] || Sum(w.cycles(c)) < (w.targetCycles + 1) * |w.cycles(c)|
  }

  /** The last configuration of an answer that is within the target. */
  ghost predicate LastWithin(w: World, result: seq<RowID>, i: nat)
  {
    i < |result| && WithinTarget(w, result[i]) && forall k :: i < k < |result| ==> !WithinTarget(w, result[k])
  }

  ghost predicate NoneWithin(w: World, result: seq<RowID>)
  {
    forall c :: c in result ==> !WithinTarget(w, c)
  }

  lemma {:induction false} LastOfPruned(w: World, result: seq<RowID>, i: nat)
    requires LastWithin(w, result, i)
    ensures Prune(w, result) != [] && Last(Prune(w, result)) == result[i]
  {
    var last := Last(result);
    AverageMeaning(w.cycles(last), w.targetCycles);
    if i < |result| - 1 {
      assert !WithinTarget(w, last);
      LastOfPruned(w, Init(result), i);
    }
  }

  lemma {:induction false} NothingPruned(w: World, result: seq<RowID>)
    requires NoneWithin(w, result)
    ensures Prune(w, result) == []
  {
    if result != [] {
      var last := Last(result);
      assert last in result;
      AverageMeaning(w.cycles(last), w.targetCycles);
      NothingPruned(w, Init(result));
    }
  }

  /** From this stage the search goes back to stack m, the nearest below that has more
      than one configuration: its top is dropped, those above are empty now, and the
      next one on it is tried in the stage above. */
  ghost predicate GoesBack(s: State, from: nat, m: nat, s': State)
    requires |s.stacks| == 9
  {
    && 3 <= m < from <= 8 && |s.stacks[m]| > 1 && (forall k :: m < k < from ==> |s.stacks[k]| == 1)
    && |s'.stacks| == 9 && s'.pid == m + 1 && s'.cur == s.stacks[m][|s.stacks[m]| - 2]
    && s'.stacks[m] == s.stacks[m][..|s.stacks[m]| - 1] && s'.finished == s.finished
    && (forall k :: 0 <= k < m ==> s'.stacks[k] == s.stacks[k])
    && (forall k :: m < k < from ==> s'.stacks[k] == [])
  }

  lemma {:induction false} FallBackGoesBack(s: State, m: nat)
    requires |s.stacks| == 9 && 3 <= m < s.pid && |s.stacks[m]| > 1 && forall k :: m < k < s.pid ==> |s.stacks[k]| == 1
    ensures FallBack(s).Continue? && GoesBack(s, s.pid, m, FallBack(s).state)
    ensures forall k :: s.pid <= k < 9 ==> FallBack(s).state.stacks[k] == s.stacks[k]
    decreases s.pid
  {
    if s.pid - 1 > m {
      FallBackGoesBack(s.(pid := s.pid - 1, stacks := s.stacks[s.pid - 1 := []]), m);
    }
  }

  /** A failed timing check in the last stage goes back to the stage that merges ports
      (5), or, when the 32-bit file has two ports, to the one that merges buses (4),
      and from there to the nearest stack with something left. */
  lemma TimingFails(w: World, s: State, result: seq<RowID>, i: nat, m: nat)
    requires Inv(s) && s.pid == 8 && LastWithin(w, result, i) && |s.finished| < w.resultSize
    requires w.targetFrequency != 0 && !w.timingTool(result[i])
    requires 3 <= m < (if w.rf32Ports(result[i]) == 2 then 4 else 5) && |s.stacks[m]| > 1
    requires forall k :: m < k < (if w.rf32Ports(result[i]) == 2 then 4 else 5) ==> |s.stacks[k]| == 1
    ensures var o := Step(w, s, result);
            o.Continue? && GoesBack(s, if w.rf32Ports(result[i]) == 2 then 4 else 5, m, o.state)
  {
    LastOfPruned(w, result, i);
    var judged := Judge(w, s.(stacks := s.stacks[s.pid := Prune(w, result)]), result[i]);
    FallBackGoesBack(judged, m);
  }

  /** With at most one configuration on the stacks below, it goes on with FU merging. */
  lemma TimingFailsForGood(w: World, s: State, result: seq<RowID>, i: nat)
    requires Inv(s) && s.pid == 8 && LastWithin(w, result, i) && |s.finished| < w.resultSize
    requires w.targetFrequency != 0 && !w.timingTool(result[i])
    requires forall k :: 3 <= k < (if w.rf32Ports(result[i]) == 2 then 4 else 5) ==> |s.stacks[k]| == 1
    ensures var o := Step(w, s, result);
            o.Continue? && o.state.pid == 3 && o.state.cur == result[i] && o.state.finished == s.finished
  {
    LastOfPruned(w, result, i);
    FallBackPastSingles(Judge(w, s.(stacks := s.stacks[s.pid := Prune(w, result)]), result[i]));
  }

  /** An accepted configuration is finished. The search is over when enough are, or
      when more than four units would reach the last stage again; otherwise it goes
      back from the last stage. */
  lemma TimingPasses(w: World, s: State, result: seq<RowID>, i: nat, m: nat)
    requires Inv(s) && s.pid == 8 && LastWithin(w, result, i) && 0 < w.resultSize
    requires w.targetFrequency == 0 || w.timingTool(result[i])
    ensures |s.finished| + 1 >= w.resultSize ==> Step(w, s, result) == Finished(s.finished + [result[i]])
    ensures |s.finished| + 1 < w.resultSize && |s.stacks[7]| > 1 && w.units(result[i]) > 4 ==>
              Step(w, s, result) == Finished(s.finished + [result[i]])
    ensures |s.finished| + 1 < w.resultSize && 3 <= m < 8 && |s.stacks[m]| > 1 && (forall k :: m < k < 8 ==> |s.stacks[k]| == 1)
            && (m == 7 ==> w.units(result[i]) <= 4) ==>
              && Step(w, s, result).Continue?
              && GoesBack(s.(finished := s.finished + [result[i]]), 8, m, Step(w, s, result).state)
  {
    LastOfPruned(w, result, i);
    var judged := Judge(w, s.(stacks := s.stacks[s.pid := Prune(w, result)]), result[i]);
    if 3 <= m < 8 && |s.stacks[m]| > 1 && forall k :: m < k < 8 ==> |s.stacks[k]| == 1 {
      FallBackGoesBack(judged, m);
    }
    if |s.stacks[7]| > 1 {
      FallBackGoesBack(judged, 7);
    }
  }

  /** A stage below the last one with something within the target goes on with the
      last of it; into the last stage only with at most four units. */
  lemma StageAdvances(w: World, s: State, result: seq<RowID>, i: nat)
    requires Inv(s) && s.pid < 8 && LastWithin(w, result, i)
    ensures s.pid == 7 && w.units(s.cur) > 4 ==> Step(w, s, result) == Finished(s.finished)
    ensures s.pid < 7 || w.units(s.cur) <= 4 ==>
              Step(w, s, result) ==
              Continue(State(s.pid + 1, result[i], s.stacks[s.pid := Prune(w, result)], s.finished))
  {
    LastOfPruned(w, result, i);
  }

  /** What happens when nothing is within the target: the first two stages and the
      short immediates (7) go on with the last answer anyway, connecting and FU
      merging (2, 3) fail the budget, and the others go back. */
  lemma NothingWithin(w: World, s: State, result: seq<RowID>, m: nat)
    requires Inv(s) && NoneWithin(w, result)
    ensures s.pid <= 1 && result != [] ==>
              Step(w, s, result) == Continue(State(s.pid + 1, Last(result), s.stacks[s.pid := []], s.finished))
    ensures 2 <= s.pid <= 3 ==> Step(w, s, result) == BudgetFailed
    ensures s.pid == 7 && result != [] ==>
              Step(w, s, result) ==
              if w.units(s.cur) > 4 then Finished(s.finished)
              else Continue(State(8, Last(result), s.stacks[7 := result], s.finished))
    ensures GoesBackOnNothing(s, result, m) && (s.pid == 8 && m == 7 ==> w.units(s.cur) <= 4) ==>
              Step(w, s, result).Continue? && GoesBack(s, s.pid, m, Step(w, s, result).state)
    ensures s.pid == 8 && result != [] && |s.stacks[7]| > 1 && w.units(s.cur) > 4 ==> Step(w, s, result) == Finished(s.finished)
  {
    NothingPruned(w, result);
    if GoesBackOnNothing(s, result, m) {
      FallBackGoesBack(s.(stacks := s.stacks[s.pid := []]), m);
    }
    if s.pid == 8 && result != [] && |s.stacks[7]| > 1 {
      FallBackGoesBack(s.(stacks := s.stacks[s.pid := []]), 7);
    }
  }

  ghost predicate GoesBackOnNothing(s: State, result: seq<RowID>, m: nat)
    requires |s.stacks| == 9
  {
    && (4 <= s.pid <= 6 || (s.pid == 7 && result == []) || (s.pid == 8 && result != []))
    && 3 <= m < s.pid && |s.stacks[m]| > 1 && forall k :: m < k < s.pid ==> |s.stacks[k]| == 1
  }

  /** What an exploration returns: all within the target and through the timing check,
      and not more than asked for. */
  lemma ResultsInNumbers(w: World, configuration: RowID, n: nat)
    ensures var o := Run(w, Start(configuration), 0, n);
            o.Finished? ==>
              && (forall c :: c in o.results ==>
                    && (w.cycles(c) == [] || Sum(w.cycles(c)) < (w.targetCycles + 1) * |w.cycles(c)|)
                    && (w.targetFrequency != 0 ==> w.timingTool(c)))
              && (w.resultSize >= 1 ==> |o.results| <= w.resultSize)
  {
    ExplorationIsSafe(w, configuration, n);
    var o := Run(w, Start(configuration), 0, n);
    if o.Finished? {
      forall c | c in o.results
        ensures w.cycles(c) == [] || Sum(w.cycles(c)) < (w.targetCycles + 1) * |w.cycles(c)|
        ensures w.targetFrequency != 0 ==> w.timingTool(c)
      {
        AverageMeaning(w.cycles(c), w.targetCycles);
      }
    }
  }

  // ---------------------------------------------------------- termination

  predicate Unvisited(s: State, k: Stage) { s.pid <= k }

  function Left(s: State, k: Stage): nat
    requires |s.stacks| == 9
  {
    if k < s.pid then |s.stacks[k]| else 0
  }

  /** An entry into the FU merging stage is over after `n` more runs. */
  ghost predicate EndsAfter(w: World, s: State, runs: nat, n: nat)
    requires |s.stacks| == 9
  {
    var o := Run(w, s, runs, n);
    o.Continue? ==> o.state.pid <= FU_MERGE
  }

  /** Whatever the plugins answer, above the FU merging stage the search stops or
      re-enters that stage after finitely many plugin runs: the stack sizes, an
      unvisited stage counting as infinite, fall lexicographically. */
  lemma {:induction false} EntryEnds(w: World, s: State, runs: nat)
    requires Inv(s)
    ensures exists n: nat :: EndsAfter(w, s, runs, n)
    decreases Unvisited(s, 3), Left(s, 3), Unvisited(s, 4), Left(s, 4), Unvisited(s, 5), Left(s, 5),
              Unvisited(s, 6), Left(s, 6), Unvisited(s, 7), Left(s, 7)
  {
    if s.pid <= FU_MERGE {
      assert EndsAfter(w, s, runs, 0);
    } else {
      var result := w.plugin(runs, s.pid, s.cur);
      StepKeepsInv(w, s, result);
      var o := Step(w, s, result);
      if o.Continue? && o.state.pid > FU_MERGE {
        EntryEnds(w, o.state, runs + 1);
        var n: nat :| EndsAfter(w, o.state, runs + 1, n);
        assert EndsAfter(w, s, runs, n + 1);
      } else {
        assert Run(w, s, runs, 1) == o;
        assert EndsAfter(w, s, runs, 1);
      }
    }
  }

  // ------------------------------------------------- the recursive search

  /** A plugin that answers the same on every run. */
  ghost predicate Deterministic(w: World)
  {
    forall runs, pid, c :: w.plugin(runs, pid, c) == w.plugin(0, pid, c)
  }

  function Tries(w: World, pid: Stage, c: RowID): seq<RowID>
  {
    Candidates(w, pid, w.plugin(0, pid, c))
  }

  /** The search as a recursion: the finished configurations below `c` at a
      stage, and the stage a failed timing check unwinds to (IMMEDIATES when
      nothing is unwound). */
  function Search(w: World, pid: Stage, c: RowID): (seq<RowID>, Stage)
    decreases IMMEDIATES - pid, 1, 0
  {
    var tries := Tries(w, pid, c);
    if pid < IMMEDIATES then SearchAll(w, pid, tries)
    else if tries == [] then ([], IMMEDIATES)
    else if Fits(w, Last(tries)) then ([Last(tries)], IMMEDIATES)
    else ([], JumpTarget(w, Last(tries)))
  }

  /** Tries the candidates of a stage last to first; an unwinding to this stage
      or below gives up the remaining ones. */
  function SearchAll(w: World, pid: Stage, tries: seq<RowID>): (seq<RowID>, Stage)
    requires pid < IMMEDIATES
    decreases IMMEDIATES - pid, 0, |tries|
  {
    if tries == [] then ([], IMMEDIATES)
    else
      var (found, unwind) := Search(w, pid + 1, Last(tries));
      if unwind <= pid then (found, unwind)
      else
        var (more, u) := SearchAll(w, pid, Init(tries));
        (found + more, u)
  }

  /** What is still to come from the stacks of the stages below. */
  function Resume(w: World, pid: Stage, unwind: Stage, stacks: seq<seq<RowID>>): seq<RowID>
    requires |stacks| == 9 && pid < IMMEDIATES
    requires forall k :: FU_MERGE <= k <= pid ==> stacks[k] != []
    decreases pid
  {
    if pid < FU_MERGE then []
    else if unwind <= pid then Resume(w, pid - 1, unwind, stacks)
    else
      var (more, u) := SearchAll(w, pid, Init(stacks[pid]));
      more + Resume(w, pid - 1, u, stacks)
  }

  /** A search result, followed by what the stages from `pid` down still find. */
  function After(w: World, r: (seq<RowID>, Stage), pid: Stage, stacks: seq<seq<RowID>>): seq<RowID>
    requires |stacks| == 9 && pid < IMMEDIATES
    requires forall k :: FU_MERGE <= k <= pid ==> stacks[k] != []
  {
    r.0 + Resume(w, pid, r.1, stacks)
  }

  /** What a state is still going to find before the current entry is over. */
  ghost function Pending(w: World, s: State): seq<RowID>
    requires Inv(s) && s.pid >= FU_MERGE
  {
    After(w, Search(w, s.pid, s.cur), s.pid - 1, s.stacks)
  }

  lemma {:induction false} ResumeDepends(w: World, pid: Stage, unwind: Stage, a: seq<seq<RowID>>, b: seq<seq<RowID>>)
    requires |a| == 9 && |b| == 9 && pid < IMMEDIATES
    requires forall k :: FU_MERGE <= k <= pid ==> a[k] != [] && a[k] == b[k]
    ensures Resume(w, pid, unwind, a) == Resume(w, pid, unwind, b)
    decreases pid
  {
    if pid >= FU_MERGE {
      var u := if unwind <= pid then unwind else SearchAll(w, pid, Init(a[pid])).1;
      ResumeDepends(w, pid - 1, u, a, b);
    }
  }

  lemma AfterDepends(w: World, r: (seq<RowID>, Stage), pid: Stage, a: seq<seq<RowID>>, b: seq<seq<RowID>>)
    requires |a| == 9 && |b| == 9 && pid < IMMEDIATES
    requires forall k :: FU_MERGE <= k <= pid ==> a[k] != [] && a[k] == b[k]
    ensures After(w, r, pid, a) == After(w, r, pid, b)
  {
    ResumeDepends(w, pid, r.1, a, b);
  }

  lemma Associates<T>(a: seq<T>, b: seq<T>, c: seq<T>)
    ensures (a + b) + c == a + (b + c)
  {
  }

  lemma SearchAllUnfolds(w: World, pid: Stage, tries: seq<RowID>)
    requires pid < IMMEDIATES && tries != []
    ensures var top := Search(w, pid + 1, Last(tries));
            SearchAll(w, pid, tries) ==
            if top.1 <= pid then top
            else (top.0 + SearchAll(w, pid, Init(tries)).0, SearchAll(w, pid, Init(tries)).1)
  {
  }

  lemma ResumeUnfolds(w: World, pid: Stage, unwind: Stage, stacks: seq<seq<RowID>>)
    requires |stacks| == 9 && FU_MERGE <= pid < IMMEDIATES
    requires forall k :: FU_MERGE <= k <= pid ==> stacks[k] != []
    ensures Resume(w, pid, unwind, stacks) ==
            if unwind <= pid then Resume(w, pid - 1, unwind, stacks)
            else After(w, SearchAll(w, pid, Init(stacks[pid])), pid - 1, stacks)
  {
  }

  /** Trying a stack of candidates is trying its top and keeping the rest for later. */
  lemma AfterTop(w: World, pid: Stage, tries: seq<RowID>, stacks: seq<seq<RowID>>)
    requires |stacks| == 9 && FU_MERGE <= pid < IMMEDIATES && stacks[pid] == tries != []
    requires forall k :: FU_MERGE <= k < pid ==> stacks[k] != []
    ensures After(w, SearchAll(w, pid, tries), pid - 1, stacks)
         == After(w, Search(w, pid + 1, Last(tries)), pid, stacks)
  {
    var top := Search(w, pid + 1, Last(tries));
    SearchAllUnfolds(w, pid, tries);
    ResumeUnfolds(w, pid, top.1, stacks);
    if top.1 > pid {
      var more := SearchAll(w, pid, Init(tries));
      Associates(top.0, more.0, Resume(w, pid - 1, more.1, stacks));
    }
  }

  /** Popping a stack leaves to come what was still to come below it. */
  lemma PopRefines(w: World, pid: Stage, stacks: seq<seq<RowID>>)
    requires |stacks| == 9 && FU_MERGE <= pid < IMMEDIATES
    requires forall k :: FU_MERGE <= k <= pid ==> stacks[k] != []
    ensures var popped := Init(stacks[pid]);
            var stacks' := stacks[pid := popped];
            Resume(w, pid, IMMEDIATES, stacks)
            == if popped == [] then Resume(w, pid - 1, IMMEDIATES, stacks')
               else After(w, Search(w, pid + 1, Last(popped)), pid, stacks')
  {
    var popped := Init(stacks[pid]);
    var stacks' := stacks[pid := popped];
    ResumeUnfolds(w, pid, IMMEDIATES, stacks);
    var r := SearchAll(w, pid, popped);
    AfterDepends(w, r, pid - 1, stacks, stacks');
    if popped == [] {
      assert r == ([], IMMEDIATES);
    } else {
      AfterTop(w, pid, popped, stacks');
    }
  }

  /** A stack with something left is where falling back stops. */
  lemma FallBackStops(w: World, s: State)
    requires |s.stacks| == 9 && s.pid > FU_MERGE
    requires forall k :: FU_MERGE <= k < s.pid ==> s.stacks[k] != []
    requires |s.stacks[s.pid - 1]| > 1
    ensures FallBack(s).Continue? && Inv(FallBack(s).state) && FallBack(s).state.pid == s.pid
    ensures Pending(w, FallBack(s).state) == Resume(w, s.pid - 1, IMMEDIATES, s.stacks)
  {
    PopRefines(w, s.pid - 1, s.stacks);
  }

  /** Falling back continues with exactly what was still to come. */
  lemma {:induction false} FallBackRefines(w: World, s: State)
    requires |s.stacks| == 9 && s.pid >= FU_MERGE
    requires forall k :: FU_MERGE <= k < s.pid ==> s.stacks[k] != []
    ensures FallBack(s).Continue? && Inv(FallBack(s).state) && FallBack(s).state.pid >= FU_MERGE
    ensures FallBack(s).state.pid > FU_MERGE ==>
              Pending(w, FallBack(s).state) == Resume(w, s.pid - 1, IMMEDIATES, s.stacks)
    ensures FallBack(s).state.pid == FU_MERGE ==> Resume(w, s.pid - 1, IMMEDIATES, s.stacks) == []
    decreases s.pid
  {
    if s.pid > FU_MERGE {
      if |s.stacks[s.pid - 1]| == 1 {
        PopRefines(w, s.pid - 1, s.stacks);
        FallBackRefines(w, s.(pid := s.pid - 1, stacks := s.stacks[s.pid - 1 := []]));
      } else {
        FallBackStops(w, s);
      }
    }
  }

  /** Unwinding to a stage skips the stacks above it. */
  lemma {:induction false} ResumeSkips(w: World, pid: Stage, unwind: Stage, stacks: seq<seq<RowID>>)
    requires |stacks| == 9 && FU_MERGE < unwind <= pid + 1 <= IMMEDIATES
    requires forall k :: FU_MERGE <= k <= pid ==> stacks[k] != []
    ensures Resume(w, pid, unwind, stacks) == Resume(w, unwind - 1, IMMEDIATES, stacks)
    decreases pid
  {
    if unwind <= pid {
      ResumeSkips(w, pid - 1, unwind, stacks);
    }
  }

  lemma SearchOfNothing(w: World, pid: Stage, c: RowID)
    requires Tries(w, pid, c) == []
    ensures Search(w, pid, c) == ([], IMMEDIATES)
  {
    if pid < IMMEDIATES {
      assert SearchAll(w, pid, []) == ([], IMMEDIATES);
    }
  }

  ghost predicate StepRefinement(w: World, s: State, o: Outcome)
    requires Inv(s) && s.pid >= FU_MERGE
  {
    var all := s.finished + Pending(w, s);
    match o
    case Continue(s') =>
      && Inv(s') && s'.pid >= FU_MERGE
      && all == s'.finished + (if s'.pid == FU_MERGE then [] else Pending(w, s'))
    case Finished(results) => results <= all
    case BudgetFailed => s.pid == FU_MERGE && Tries(w, s.pid, s.cur) == []
    case ReadEmpty => exists c :: w.plugin(0, IMMEDIATES, c) == []
    case PoppedEmpty => false
  }

  lemma StepRefines(w: World, s: State, runs: nat)
    requires Inv(s) && s.pid >= FU_MERGE && Deterministic(w)
    ensures StepRefinement(w, s, Step(w, s, w.plugin(runs, s.pid, s.cur)))
  {
    assert w.plugin(runs, s.pid, s.cur) == w.plugin(0, s.pid, s.cur);
    StepKeepsInv(w, s, w.plugin(0, s.pid, s.cur));
    if Tries(w, s.pid, s.cur) == [] {
      if s.pid > FU_MERGE {
        StepRetreatRefines(w, s);
      }
    } else if s.pid < IMMEDIATES {
      StepAdvanceRefines(w, s);
    } else {
      StepLeafRefines(w, s);
    }
  }

  /** What a step has to establish, before the unit limit is looked at. */
  ghost predicate Preserves(w: World, s: State, finished: seq<RowID>, s': State)
    requires Inv(s) && s.pid >= FU_MERGE
  {
    && Inv(s') && s'.pid >= FU_MERGE && s'.finished == finished
    && s.finished + Pending(w, s) == finished + (if s'.pid == FU_MERGE then [] else Pending(w, s'))
  }

  lemma StepRetreatRefines(w: World, s: State)
    requires Inv(s) && s.pid > FU_MERGE && Tries(w, s.pid, s.cur) == []
    ensures var o := FallBack(s.(stacks := s.stacks[s.pid := []]));
            o.Continue? && Preserves(w, s, s.finished, o.state)
  {
    var s1 := s.(stacks := s.stacks[s.pid := []]);
    FallBackRefines(w, s1);
    FallBackKeepsInv(s1);
    ResumeDepends(w, s.pid - 1, IMMEDIATES, s.stacks, s1.stacks);
    SearchOfNothing(w, s.pid, s.cur);
    assert Pending(w, s) == Resume(w, s.pid - 1, IMMEDIATES, s.stacks);
  }

  lemma StepAdvanceRefines(w: World, s: State)
    requires Inv(s) && FU_MERGE <= s.pid < IMMEDIATES && Tries(w, s.pid, s.cur) != []
    ensures var pruned := Tries(w, s.pid, s.cur);
            var s' := s.(stacks := s.stacks[s.pid := pruned], pid := s.pid + 1, cur := Last(pruned));
            Preserves(w, s, s.finished, s')
  {
    var tries := Tries(w, s.pid, s.cur);
    AfterTop(w, s.pid, tries, s.stacks[s.pid := tries]);
    AfterDepends(w, SearchAll(w, s.pid, tries), s.pid - 1, s.stacks, s.stacks[s.pid := tries]);
  }

  lemma StepLeafRefines(w: World, s: State)
    requires Inv(s) && s.pid == IMMEDIATES && Tries(w, s.pid, s.cur) != []
    ensures var pruned := Tries(w, s.pid, s.cur);
            var judged := Judge(w, s.(stacks := s.stacks[s.pid := pruned]), Last(pruned));
            && judged.finished <= s.finished + Pending(w, s)
            && FallBack(judged).Continue? && Preserves(w, s, judged.finished, FallBack(judged).state)
  {
    var pruned := Tries(w, s.pid, s.cur);
    var judged := Judge(w, s.(stacks := s.stacks[s.pid := pruned]), Last(pruned));
    FallBackRefines(w, judged);
    FallBackKeepsInv(judged);
    ResumeSkips(w, s.pid - 1, judged.pid, s.stacks);
    ResumeDepends(w, judged.pid - 1, IMMEDIATES, s.stacks, judged.stacks);
    JudgeRefines(w, s);
  }

  lemma LastStage(w: World, c: RowID)
    requires Tries(w, IMMEDIATES, c) != []
    ensures var best := Last(Tries(w, IMMEDIATES, c));
            Search(w, IMMEDIATES, c) == if Fits(w, best) then ([best], IMMEDIATES) else ([], JumpTarget(w, best))
  {
  }

  lemma JudgeRefines(w: World, s: State)
    requires Inv(s) && s.pid == IMMEDIATES && Tries(w, s.pid, s.cur) != []
    ensures var judged := Judge(w, s, Last(Tries(w, s.pid, s.cur)));
            s.finished + Pending(w, s) == judged.finished + Resume(w, s.pid - 1, judged.pid, s.stacks)
  {
    var best := Last(Tries(w, s.pid, s.cur));
    LastStage(w, s.cur);
    Associates(s.finished, if Fits(w, best) then [best] else [], Resume(w, s.pid - 1, Judge(w, s, best).pid, s.stacks));
  }

  /** One entry into the FU merging stage: the run up to the next re-entry. */
  function RunEntry(w: World, s: State, runs: nat, n: nat): Outcome
    requires |s.stacks| == 9
    decreases n
  {
    if n == 0 then Continue(s)
    else
      var o := Step(w, s, w.plugin(runs, s.pid, s.cur));
      if o.Continue? && |o.state.stacks| == 9 && o.state.pid > FU_MERGE
      then RunEntry(w, o.state, runs + 1, n - 1) else o
  }

  /** An entry is a piece of the whole run. */
  lemma {:induction false} EntryIsARun(w: World, s: State, runs: nat, n: nat)
    requires Inv(s)
    ensures exists k: nat :: k <= n && RunEntry(w, s, runs, n) == Run(w, s, runs, k)
    decreases n
  {
    if n == 0 {
      assert RunEntry(w, s, runs, n) == Run(w, s, runs, 0);
    } else {
      var result := w.plugin(runs, s.pid, s.cur);
      StepKeepsInv(w, s, result);
      var o := Step(w, s, result);
      if o.Continue? && o.state.pid > FU_MERGE {
        EntryIsARun(w, o.state, runs + 1, n - 1);
        var k: nat :| k <= n - 1 && RunEntry(w, o.state, runs + 1, n - 1) == Run(w, o.state, runs + 1, k);
        assert RunEntry(w, s, runs, n) == Run(w, s, runs, k + 1);
      } else {
        assert Run(w, s, runs, 1) == o;
        assert RunEntry(w, s, runs, n) == Run(w, s, runs, 1);
      }
    }
  }

  lemma EntryUnfolds(w: World, s: State, runs: nat, n: nat)
    requires Inv(s) && n > 0
    ensures var o := Step(w, s, w.plugin(runs, s.pid, s.cur));
            && (o.Continue? ==> Inv(o.state))
            && RunEntry(w, s, runs, n) ==
               if o.Continue? && o.state.pid > FU_MERGE then RunEntry(w, o.state, runs + 1, n - 1) else o
  {
    StepKeepsInv(w, s, w.plugin(runs, s.pid, s.cur));
  }

  lemma RefinementCarries(w: World, s: State, s': State, o: Outcome)
    requires Inv(s) && s.pid >= FU_MERGE && Inv(s') && s'.pid > FU_MERGE
    requires StepRefinement(w, s, Continue(s')) && StepRefinement(w, s', o)
    ensures StepRefinement(w, s, o)
  {
  }

  ghost predicate EntryRefinement(w: World, s: State, runs: nat, n: nat)
    requires Inv(s) && s.pid >= FU_MERGE
  {
    StepRefinement(w, s, RunEntry(w, s, runs, n))
  }

  /** The iteration refines the recursion, for any frequency setting: at every
      moment of an entry what it has finished plus what is pending is exactly
      what the recursive search finds, a re-entry has found all of it, and an
      early stop has found a prefix. The budget fails in its first step only. */
  lemma {:induction false} EntryRefines(w: World, s: State, runs: nat, n: nat)
    requires Inv(s) && s.pid >= FU_MERGE && Deterministic(w)
    ensures n > 0 || s.pid > FU_MERGE ==> EntryRefinement(w, s, runs, n)
    decreases n
  {
    if n > 0 {
      var more, s1 := EntryMoves(w, s, runs, n);
      if more {
        EntryRefines(w, s1, runs + 1, n - 1);
      }
    } else if s.pid > FU_MERGE {
      EntryBegins(w, s, runs);
    }
  }

  lemma EntryBegins(w: World, s: State, runs: nat)
    requires Inv(s) && s.pid > FU_MERGE
    ensures EntryRefinement(w, s, runs, 0)
  {
  }

  /** The first step of an entry: it is over, or the rest refines. */
  lemma EntryMoves(w: World, s: State, runs: nat, n: nat) returns (more: bool, s1: State)
    requires Inv(s) && s.pid >= FU_MERGE && Deterministic(w) && n > 0
    ensures !more ==> EntryRefinement(w, s, runs, n)
    ensures more ==> Inv(s1) && s1.pid > FU_MERGE && (EntryRefinement(w, s1, runs + 1, n - 1) ==> EntryRefinement(w, s, runs, n))
  {
    EntryUnfolds(w, s, runs, n);
    StepRefines(w, s, runs);
    var o := Step(w, s, w.plugin(runs, s.pid, s.cur));
    more := o.Continue? && o.state.pid > FU_MERGE;
    s1 := if more then o.state else s;
    if more && EntryRefinement(w, s1, runs + 1, n - 1) {
      RefinementCarries(w, s, s1, RunEntry(w, s1, runs + 1, n - 1));
    }
  }

  /** The depth-first search without jumps. */
  function Leaves(w: World, pid: Stage, c: RowID): seq<RowID>
    decreases IMMEDIATES - pid, 1, 0
  {
    var tries := Tries(w, pid, c);
    if pid < IMMEDIATES then LeavesOfAll(w, pid, tries)
    else if tries == [] then [] else [Last(tries)]
  }

  function LeavesOfAll(w: World, pid: Stage, tries: seq<RowID>): seq<RowID>
    requires pid < IMMEDIATES
    decreases IMMEDIATES - pid, 0, |tries|
  {
    if tries == [] then []
    else Leaves(w, pid + 1, Last(tries)) + LeavesOfAll(w, pid, Init(tries))
  }

  /** With the frequency check disabled nothing is ever unwound. */
  lemma {:induction false} SearchWithoutJumps(w: World, pid: Stage, c: RowID)
    requires w.targetFrequency == 0
    ensures Search(w, pid, c) == (Leaves(w, pid, c), IMMEDIATES)
    decreases IMMEDIATES - pid, 1, 0
  {
    if pid < IMMEDIATES {
      SearchAllWithoutJumps(w, pid, Tries(w, pid, c));
    }
  }

  lemma {:induction false} SearchAllWithoutJumps(w: World, pid: Stage, tries: seq<RowID>)
    requires w.targetFrequency == 0 && pid < IMMEDIATES
    ensures SearchAll(w, pid, tries) == (LeavesOfAll(w, pid, tries), IMMEDIATES)
    decreases IMMEDIATES - pid, 0, |tries|
  {
    if tries != [] {
      SearchWithoutJumps(w, pid + 1, Last(tries));
      SearchAllWithoutJumps(w, pid, Init(tries));
    }
  }

  /** What an entry has appended to the results is always a prefix of the leaves
      of the plain depth-first search, and all of them once the stage is
      re-entered. */
  lemma EntryFindsLeaves(w: World, s: State, runs: nat, n: nat)
    requires Inv(s) && s.pid == FU_MERGE && Deterministic(w) && w.targetFrequency == 0 && n > 0
    ensures var all := s.finished + Leaves(w, FU_MERGE, s.cur);
            var o := RunEntry(w, s, runs, n);
            && (o.Continue? ==> s.finished <= o.state.finished <= all)
            && (o.Continue? && o.state.pid == FU_MERGE ==> o.state.finished == all)
            && (o.Finished? ==> s.finished <= o.results <= all)
  {
    EntryRefines(w, s, runs, n);
    SearchWithoutJumps(w, FU_MERGE, s.cur);
    ResultsOnlyGrow(w, s, runs, n);
    assert Pending(w, s) == Leaves(w, FU_MERGE, s.cur);
  }

  lemma {:induction false} ResultsOnlyGrow(w: World, s: State, runs: nat, n: nat)
    requires Inv(s)
    ensures var o := RunEntry(w, s, runs, n);
            && (o.Continue? ==> s.finished <= o.state.finished)
            && (o.Finished? ==> s.finished <= o.results)
    decreases n
  {
    if n > 0 {
      var result := w.plugin(runs, s.pid, s.cur);
      StepKeepsInv(w, s, result);
      var o := Step(w, s, result);
      if o.Continue? {
        ResultsOnlyGrow(w, o.state, runs + 1, n - 1);
      }
    }
  }

  // ------------------------------------------------ results lost or returned

  /** The results once a plugin has answered: the last stage may accept one more. */
  function Kept(w: World, s: State, result: seq<RowID>): seq<RowID>
  {
    var pruned := Prune(w, result);
    s.finished + if s.pid == IMMEDIATES && pruned != [] && Fits(w, Last(pruned)) then [Last(pruned)] else []
  }

  /** The last stage would be next, for a machine with too many units. */
  predicate TooManyUnits(w: World, s: State, result: seq<RowID>)
    requires |s.stacks| == 9
  {
    var pruned := Candidates(w, s.pid, result);
    if s.pid == SHORT_IMMEDIATES then pruned != [] && w.units(s.cur) > UNIT_LIMIT
    else
      && s.pid == IMMEDIATES && |s.stacks[SHORT_IMMEDIATES]| > 1
      && if pruned == [] then w.units(s.cur) > UNIT_LIMIT
         else Fits(w, Last(pruned)) && w.units(Last(pruned)) > UNIT_LIMIT
  }

  /** The results are handed to the caller: there are enough of them, or the unit
      limit is reached. */
  predicate Returns(w: World, s: State, result: seq<RowID>)
    requires |s.stacks| == 9
  {
    (s.pid != IMMEDIATES || result != []) && (Enough(w, Kept(w, s, result)) || TooManyUnits(w, s, result))
  }

  lemma FallBackStays(s: State)
    requires |s.stacks| == 9 && FU_MERGE < s.pid
    requires forall k :: FU_MERGE <= k < s.pid ==> s.stacks[k] != []
    ensures FallBack(s).Continue?
    ensures FallBack(s).state.pid == s.pid <==> |s.stacks[s.pid - 1]| > 1
  {
    FallBackKeepsInv(s);
    if |s.stacks[s.pid - 1]| == 1 {
      FallBackKeepsInv(s.(pid := s.pid - 1, stacks := s.stacks[s.pid - 1 := []]));
    }
  }

  lemma StepReturns(w: World, s: State, result: seq<RowID>)
    requires Inv(s) && !Enough(w, s.finished)
    ensures var o := Step(w, s, result);
            && (o.Finished? <==> Returns(w, s, result))
            && (o.Finished? ==> o.results == Kept(w, s, result))
            && (o.Continue? ==> o.state.finished == Kept(w, s, result))
  {
    var pruned := Candidates(w, s.pid, result);
    var s1 := s.(stacks := s.stacks[s.pid := pruned]);
    if pruned == [] {
      FallBackKeepsInv(s1);
      if s.pid > FU_MERGE {
        FallBackStays(s1);
      }
    } else if s.pid == IMMEDIATES {
      var judged := Judge(w, s1, Last(pruned));
      FallBackKeepsInv(judged);
      FallBackStays(judged);
    }
  }

  /** What an outcome becomes with one more plugin run. */
  ghost predicate FollowedBy(w: World, o: Outcome, runs: nat, next: Outcome)
  {
    if o.Continue? then
      Inv(o.state) && next == Step(w, o.state, w.plugin(runs, o.state.pid, o.state.cur))
    else next == o
  }

  /** A run as a sequence of steps: one more step, or nothing more. */
  lemma {:induction false} RunStepsOn(w: World, s: State, runs: nat, n: nat)
    requires Inv(s)
    ensures FollowedBy(w, Run(w, s, runs, n), runs + n, Run(w, s, runs, n + 1))
    decreases n
  {
    RunUnfolds(w, s, runs, n + 1);
    if n > 0 {
      RunUnfolds(w, s, runs, n);
      var o := Step(w, s, w.plugin(runs, s.pid, s.cur));
      if o.Continue? {
        RunStepsOn(w, o.state, runs + 1, n - 1);
      }
    }
  }

  /** Before its plugin run `k` the exploration is at a state whose next step is of this kind. */
  ghost predicate Meets(w: World, configuration: RowID, k: nat, kind: (State, seq<RowID>) -> bool)
  {
    var o := Run(w, Start(configuration), 0, k);
    o.Continue? && kind(o.state, w.plugin(k, o.state.pid, o.state.cur))
  }

  ghost predicate MeetsBefore(w: World, configuration: RowID, n: nat, kind: (State, seq<RowID>) -> bool)
  {
    exists k: nat :: k < n && Meets(w, configuration, k, kind)
  }

  function Losing(w: World): (State, seq<RowID>) -> bool { (s: State, result) => FailsBudget(w, s, result) }

  function Returning(w: World): (State, seq<RowID>) -> bool
  {
    (s: State, result) => |s.stacks| == 9 && Returns(w, s, result)
  }

  function ReadingNothing(): (State, seq<RowID>) -> bool
  {
    (s: State, result) => result == [] && (s.pid <= PRUNE_UNUSED || s.pid == IMMEDIATES)
  }

  /** What the step after `k` plugin runs does. */
  lemma MeetsOrNot(w: World, configuration: RowID, k: nat)
    ensures var o := Run(w, Start(configuration), 0, k);
            if o.Continue? then
              && |o.state.stacks| == 9
              && var next := Step(w, o.state, w.plugin(k, o.state.pid, o.state.cur));
              && (next.BudgetFailed? <==> Meets(w, configuration, k, Losing(w)))
              && (next.Finished? <==> Meets(w, configuration, k, Returning(w)))
              && (next.ReadEmpty? <==> Meets(w, configuration, k, ReadingNothing()))
            else
              && !Meets(w, configuration, k, Losing(w)) && !Meets(w, configuration, k, Returning(w))
              && !Meets(w, configuration, k, ReadingNothing())
  {
    RunNotEnough(w, configuration, k);
    var o := Run(w, Start(configuration), 0, k);
    if o.Continue? {
      StepKeepsInv(w, o.state, w.plugin(k, o.state.pid, o.state.cur));
      StepReturns(w, o.state, w.plugin(k, o.state.pid, o.state.cur));
    }
  }

  lemma MetBefore(w: World, configuration: RowID, n: nat, kind: (State, seq<RowID>) -> bool)
    requires n > 0
    ensures MeetsBefore(w, configuration, n, kind) <==>
            MeetsBefore(w, configuration, n - 1, kind) || Meets(w, configuration, n - 1, kind)
  {
  }

  /** How an exploration ends, for every world: all results found so far are
      dropped exactly when connecting or FU merging answers nothing that meets the
      target before anything else has ended the search; they are returned exactly
      when there are enough of them, or the unit limit is reached, before that. */
  lemma {:induction false} LostOrReturned(w: World, configuration: RowID, n: nat)
    ensures var o := Run(w, Start(configuration), 0, n);
            && (o.BudgetFailed? <==> MeetsBefore(w, configuration, n, Losing(w)))
            && (o.Finished? <==> MeetsBefore(w, configuration, n, Returning(w)))
            && (o.ReadEmpty? <==> MeetsBefore(w, configuration, n, ReadingNothing()))
    decreases n
  {
    if n > 0 {
      LostOrReturned(w, configuration, n - 1);
      RunStepsOn(w, Start(configuration), 0, n - 1);
      MeetsOrNot(w, configuration, n - 1);
      MetBefore(w, configuration, n, Losing(w));
      MetBefore(w, configuration, n, Returning(w));
      MetBefore(w, configuration, n, ReadingNothing());
    }
  }

  lemma {:induction false} RunNotEnough(w: World, configuration: RowID, n: nat)
    ensures var o := Run(w, Start(configuration), 0, n);
            o.Continue? ==> Inv(o.state) && GoodResults(w, o.state.finished) && !Enough(w, o.state.finished)
    decreases n
  {
    if n > 0 {
      RunNotEnough(w, configuration, n - 1);
      RunStepsOn(w, Start(configuration), 0, n - 1);
      var o := Run(w, Start(configuration), 0, n - 1);
      if o.Continue? {
        StepKeepsInv(w, o.state, w.plugin(n - 1, o.state.pid, o.state.cur));
        StepKeepsGoodResults(w, o.state, w.plugin(n - 1, o.state.pid, o.state.cur));
      }
    }
  }

  /** With deterministic plugins, an entry that has searched everything and comes
      back to a configuration with nothing to merge loses all it has found. */
  lemma ExhaustedSearchLosesAll(w: World, s: State, runs: nat, n: nat)
    requires Inv(s) && s.pid == FU_MERGE && Deterministic(w) && n > 0
    requires var o := RunEntry(w, s, runs, n);
             o.Continue? && o.state.pid == FU_MERGE && Tries(w, FU_MERGE, o.state.cur) == []
    ensures var o := RunEntry(w, s, runs, n);
            && o.state.finished == s.finished + Pending(w, s)
            && |o.state.stacks| == 9
            && forall later: nat, m: nat :: m > 0 ==> RunEntry(w, o.state, later, m).BudgetFailed?
  {
    EntryRefines(w, s, runs, n);
    var t := RunEntry(w, s, runs, n).state;
    forall later: nat, m: nat | m > 0 ensures RunEntry(w, t, later, m).BudgetFailed? {
      assert w.plugin(later, t.pid, t.cur) == w.plugin(0, t.pid, t.cur);
      StepKeepsInv(w, t, w.plugin(later, t.pid, t.cur));
    }
  }

  // -------------------------------------------------- ends, or never does

  ghost predicate StopsWithin(w: World, s: State, runs: nat, n: nat)
    requires |s.stacks| == 9
  {
    !Run(w, s, runs, n).Continue?
  }

  ghost predicate Stops(w: World, s: State, runs: nat)
    requires |s.stacks| == 9
  {
    exists n: nat :: StopsWithin(w, s, runs, n)
  }

  /** Every plugin always has a candidate to go on with. */
  ghost predicate AlwaysProductive(w: World)
  {
    forall runs: nat, pid: Stage, c :: Candidates(w, pid, w.plugin(runs, pid, c)) != []
  }

  /** Without frequency check, and with plugins that always have a candidate, the
      whole exploration ends: every pass through the stages finishes a result. */
  lemma {:induction false} ProductiveExplorationEnds(w: World, s: State, runs: nat)
    requires Inv(s) && w.targetFrequency == 0 && |s.finished| < w.resultSize && AlwaysProductive(w)
    ensures Stops(w, s, runs)
    decreases w.resultSize - |s.finished|, IMMEDIATES - s.pid
  {
    var result := w.plugin(runs, s.pid, s.cur);
    RunUnfolds(w, s, runs, 1);
    ProductiveStep(w, s, result);
    var o := Step(w, s, result);
    if o.Continue? {
      ProductiveExplorationEnds(w, o.state, runs + 1);
      var n: nat :| StopsWithin(w, o.state, runs + 1, n);
      RunUnfolds(w, s, runs, n + 1);
      assert StopsWithin(w, s, runs, n + 1);
    } else {
      assert StopsWithin(w, s, runs, 1);
    }
  }

  lemma ProductiveStep(w: World, s: State, result: seq<RowID>)
    requires Inv(s) && w.targetFrequency == 0 && |s.finished| < w.resultSize && Candidates(w, s.pid, result) != []
    ensures var o := Step(w, s, result);
            o.Continue? ==>
              && Inv(o.state) && |o.state.finished| < w.resultSize
              && (|o.state.finished| > |s.finished| || (o.state.finished == s.finished && o.state.pid == s.pid + 1))
  {
    StepKeepsInv(w, s, result);
    StepReturns(w, s, result);
    if s.pid < IMMEDIATES {
      var pruned := Candidates(w, s.pid, result);
      assert Step(w, s, result) ==
        LimitUnits(w, Continue(s.(stacks := s.stacks[s.pid := pruned], pid := s.pid + 1, cur := Last(pruned))), s.cur);
    }
  }

  /** States that differ only in stacks which are written before they are read. */
  ghost predicate Alike(s: State, t: State)
  {
    && Inv(s) && Inv(t) && s.pid == t.pid >= FU_MERGE && s.cur == t.cur && s.finished == t.finished
    && forall k :: FU_MERGE <= k < s.pid ==> s.stacks[k] == t.stacks[k]
  }

  ghost predicate AlikeOutcomes(a: Outcome, b: Outcome)
  {
    if a.Continue? && b.Continue? then Alike(a.state, b.state) else a == b
  }

  lemma {:induction false} FallBackAlike(s: State, t: State)
    requires |s.stacks| == 9 && |t.stacks| == 9 && s.pid == t.pid >= FU_MERGE && s.cur == t.cur && s.finished == t.finished
    requires forall k :: FU_MERGE <= k < s.pid ==> s.stacks[k] == t.stacks[k] != []
    ensures AlikeOutcomes(FallBack(s), FallBack(t)) && FallBack(s).Continue? && FallBack(t).Continue?
    decreases s.pid
  {
    FallBackKeepsInv(s);
    FallBackKeepsInv(t);
    if s.pid > FU_MERGE {
      var popped := Init(s.stacks[s.pid - 1]);
      var s1, t1 := s.stacks[s.pid - 1 := popped], t.stacks[s.pid - 1 := popped];
      if popped == [] {
        FallBackAlike(s.(pid := s.pid - 1, stacks := s1), t.(pid := s.pid - 1, stacks := t1));
      }
    }
  }

  lemma StepAlike(w: World, s: State, t: State, result: seq<RowID>)
    requires Alike(s, t)
    ensures AlikeOutcomes(Step(w, s, result), Step(w, t, result))
  {
    StepKeepsInv(w, s, result);
    StepKeepsInv(w, t, result);
    var pruned := Candidates(w, s.pid, result);
    var s1, t1 := s.(stacks := s.stacks[s.pid := pruned]), t.(stacks := t.stacks[s.pid := pruned]);
    if pruned == [] {
      FallBackAlike(s1, t1);
    } else if s.pid == IMMEDIATES {
      FallBackAlike(Judge(w, s1, Last(pruned)), Judge(w, t1, Last(pruned)));
    }
  }

  /** Deterministic plugins make alike states run alike. */
  lemma {:induction false} RunAlike(w: World, s: State, t: State, runs: nat, later: nat, n: nat)
    requires Alike(s, t) && Deterministic(w)
    ensures AlikeOutcomes(Run(w, s, runs, n), Run(w, t, later, n))
    decreases n
  {
    if n > 0 {
      var result := w.plugin(0, s.pid, s.cur);
      assert w.plugin(runs, s.pid, s.cur) == result && w.plugin(later, t.pid, t.cur) == result;
      StepAlike(w, s, t, result);
      RunUnfolds(w, s, runs, n);
      RunUnfolds(w, t, later, n);
      var a, b := Step(w, s, result), Step(w, t, result);
      if a.Continue? {
        RunAlike(w, a.state, b.state, runs + 1, later + 1, n - 1);
      }
    }
  }

  /** A run that has gone on for k steps went on for fewer. */
  lemma {:induction false} RunPrefix(w: World, s: State, runs: nat, n: nat, k: nat)
    requires Inv(s) && n <= k && Run(w, s, runs, k).Continue?
    ensures Run(w, s, runs, n).Continue?
    decreases k - n
  {
    if n < k {
      RunPrefix(w, s, runs, n + 1, k);
      RunStepsOn(w, s, runs, n);
    }
  }

  ghost predicate Passes(w: World, s: State, runs: nat, k: nat, t: State)
  {
    Inv(t) && LeadsTo(w, s, runs, k, Continue(t))
  }

  /** A run is a run of k steps and the run from where it has got to. */
  lemma {:induction false} RunSplits(w: World, s: State, runs: nat, k: nat, m: nat, t: State, goal: Outcome)
    requires Passes(w, s, runs, k, t) && LeadsTo(w, s, runs, k + m, goal)
    ensures LeadsTo(w, t, runs + k, m, goal)
    decreases k
  {
    if k > 0 {
      var s1 := FirstStep(w, s, runs, k, m, t, goal);
      RunSplits(w, s1, runs + 1, k - 1, m, t, goal);
    }
  }

  lemma FirstStep(w: World, s: State, runs: nat, k: nat, m: nat, t: State, goal: Outcome) returns (s1: State)
    requires Passes(w, s, runs, k, t) && LeadsTo(w, s, runs, k + m, goal) && k > 0
    ensures Passes(w, s1, runs + 1, k - 1, t) && LeadsTo(w, s1, runs + 1, k - 1 + m, goal)
  {
    RunUnfolds(w, s, runs, k);
    RunUnfolds(w, s, runs, k + m);
    s1 := Step(w, s, w.plugin(runs, s.pid, s.cur)).state;
  }

  /** What the stages have to keep for it: with other deterministic plugins, a run
      that comes back to the FU merging stage with the configuration it had there
      and no new result never ends. */
  lemma {:induction false} ComingBackNeverEnds(w: World, s: State, runs: nat, k: nat, t: State, n: nat)
    requires Deterministic(w) && k > 0 && Passes(w, s, runs, k, t)
    requires s.pid == t.pid == FU_MERGE && t.cur == s.cur && t.finished == s.finished
    ensures Run(w, s, runs, n).Continue?
    decreases n
  {
    if n > k {
      ComingBackNeverEnds(w, s, runs, k, t, n - k);
      RunAlike(w, s, t, runs, runs + k, n - k);
    }
    GoesOn(w, s, runs, k, t, n);
  }

  lemma GoesOn(w: World, s: State, runs: nat, k: nat, t: State, n: nat)
    requires Passes(w, s, runs, k, t) && (n > k ==> Run(w, t, runs + k, n - k).Continue?)
    ensures Run(w, s, runs, n).Continue?
  {
    if n <= k {
      RunPrefix(w, s, runs, n, k);
    } else {
      RunSplits(w, s, runs, k, n - k, t, Run(w, s, runs, n));
    }
  }

  /** One step in front of a run. */
  lemma PassStep(w: World, s: State, runs: nat, k: nat, s1: State, t: State)
    requires Inv(s) && k > 0 && Step(w, s, w.plugin(runs, s.pid, s.cur)) == Continue(s1) && Passes(w, s1, runs + 1, k - 1, t)
    ensures Passes(w, s, runs, k, t)
  {
    RunUnfolds(w, s, runs, k);
  }

  // ----------------------------------------- the exploration ends: units fall

  /** Merging function units removes some, and no later stage adds any. */
  ghost predicate UnitsFall(w: World)
  {
    && (forall runs: nat, c, r :: r in w.plugin(runs, FU_MERGE, c) ==> w.units(r) < w.units(c))
    && (forall runs: nat, pid: Stage, c, r :: pid > FU_MERGE && r in w.plugin(runs, pid, c) ==> w.units(r) <= w.units(c))
  }

  ghost predicate AllBelow(w: World, cs: seq<RowID>, bound: nat)
  {
    forall c :: c in cs ==> w.units(c) < bound
  }

  /** The current configuration and all that wait from FU merging up have fewer units. */
  ghost predicate Below(w: World, s: State, bound: nat)
  {
    && |s.stacks| == 9 && w.units(s.cur) < bound
    && forall k :: FU_MERGE <= k < s.pid ==> AllBelow(w, s.stacks[k], bound)
  }

  lemma {:induction false} FallBackKeepsBelow(w: World, s: State, bound: nat)
    requires |s.stacks| == 9 && s.pid >= FU_MERGE && Below(w, s, bound)
    requires forall k :: FU_MERGE <= k < s.pid ==> s.stacks[k] != []
    ensures FallBack(s).Continue? && Below(w, FallBack(s).state, bound)
    decreases s.pid
  {
    FallBackKeepsInv(s);
    if s.pid > FU_MERGE {
      var popped := Init(s.stacks[s.pid - 1]);
      assert AllBelow(w, s.stacks[s.pid - 1], bound);
      assert AllBelow(w, popped, bound);
      if popped == [] {
        FallBackKeepsBelow(w, s.(pid := s.pid - 1, stacks := s.stacks[s.pid - 1 := popped]), bound);
      } else {
        assert Last(popped) in popped;
      }
    }
  }

  lemma CandidatesBelow(w: World, pid: Stage, result: seq<RowID>, bound: nat)
    requires AllBelow(w, result, bound)
    ensures AllBelow(w, Candidates(w, pid, result), bound)
    ensures Candidates(w, pid, result) != [] ==> w.units(Last(Candidates(w, pid, result))) < bound
  {
    PruneMembers(w, result);
    var cs := Candidates(w, pid, result);
    if cs != [] {
      var last := Last(cs);
      assert last in cs && last in result;
    }
  }

  /** A step keeps the bound; the one out of FU merging lowers it. */
  lemma StepKeepsBelow(w: World, s: State, result: seq<RowID>, bound: nat)
    requires Inv(s) && s.pid >= FU_MERGE && Below(w, s, bound) && AllBelow(w, result, bound)
    ensures var o := Step(w, s, result);
            o.Continue? ==> o.state.pid >= FU_MERGE && Below(w, o.state, bound)
  {
    CandidatesBelow(w, s.pid, result, bound);
    var pruned := Candidates(w, s.pid, result);
    var s1 := s.(stacks := s.stacks[s.pid := pruned]);
    if pruned == [] {
      if s.pid > FU_MERGE {
        FallBackKeepsInv(s1);
        FallBackKeepsBelow(w, s1, bound);
      }
    } else if s.pid == IMMEDIATES {
      var judged := Judge(w, s1, Last(pruned));
      FallBackKeepsInv(judged);
      FallBackKeepsBelow(w, judged, bound);
    }
  }

  /** An entry starts with a lower bound: everything FU merging answers has fewer units. */
  lemma EntryLowersBound(w: World, s: State, result: seq<RowID>, bound: nat)
    requires Inv(s) && s.pid == FU_MERGE && w.units(s.cur) <= bound && AllBelow(w, result, bound)
    ensures var o := Step(w, s, result);
            o.Continue? ==> Inv(o.state) && o.state.pid > FU_MERGE && Below(w, o.state, bound)
  {
    StepKeepsInv(w, s, result);
    CandidatesBelow(w, s.pid, result, bound);
  }

  /** From the FU merging stage on, with a bound on the units: an entry ends as its
      stack sizes fall, and the next one starts with fewer units. */
  lemma {:induction false} BoundedRunEnds(w: World, s: State, runs: nat, bound: nat)
    requires Inv(s) && s.pid >= FU_MERGE && UnitsFall(w) && Below(w, s, bound)
    ensures Stops(w, s, runs)
    decreases bound, s.pid > FU_MERGE, Left(s, 3), Unvisited(s, 4), Left(s, 4), Unvisited(s, 5), Left(s, 5),
              Unvisited(s, 6), Left(s, 6), Unvisited(s, 7), Left(s, 7)
  {
    var result := w.plugin(runs, s.pid, s.cur);
    var bound' := if s.pid == FU_MERGE then bound - 1 else bound;
    assert AllBelow(w, result, bound');
    StepKeepsInv(w, s, result);
    if s.pid == FU_MERGE {
      EntryLowersBound(w, s, result, bound');
    } else {
      StepKeepsBelow(w, s, result, bound');
    }
    var o := Step(w, s, result);
    if o.Continue? {
      BoundedRunEnds(w, o.state, runs + 1, bound');
    }
    StopsLater(w, s, runs);
  }

  lemma StopsLater(w: World, s: State, runs: nat)
    requires Inv(s)
    requires var o := Step(w, s, w.plugin(runs, s.pid, s.cur));
             o.Continue? ==> Inv(o.state) && Stops(w, o.state, runs + 1)
    ensures Stops(w, s, runs)
  {
    var o := Step(w, s, w.plugin(runs, s.pid, s.cur));
    if o.Continue? {
      var n: nat :| StopsWithin(w, o.state, runs + 1, n);
      RunUnfolds(w, s, runs, n + 1);
      assert StopsWithin(w, s, runs, n + 1);
    } else {
      RunUnfolds(w, s, runs, 1);
      assert StopsWithin(w, s, runs, 1);
    }
  }

  /** A run keeps the bound. */
  lemma {:induction false} RunKeepsBelow(w: World, s: State, runs: nat, k: nat, t: State, bound: nat)
    requires UnitsFall(w) && s.pid >= FU_MERGE && Passes(w, s, runs, k, t) && Below(w, s, bound)
    ensures t.pid >= FU_MERGE && Below(w, t, bound)
    decreases k
  {
    if k > 0 {
      var result := w.plugin(runs, s.pid, s.cur);
      assert AllBelow(w, result, bound);
      StepKeepsBelow(w, s, result, bound);
      var s1 := FirstOfRun(w, s, runs, k, t);
      RunKeepsBelow(w, s1, runs + 1, k - 1, t, bound);
    }
  }

  lemma FirstOfRun(w: World, s: State, runs: nat, k: nat, t: State) returns (s1: State)
    requires Passes(w, s, runs, k, t) && k > 0
    ensures Step(w, s, w.plugin(runs, s.pid, s.cur)) == Continue(s1) && Passes(w, s1, runs + 1, k - 1, t)
  {
    RunUnfolds(w, s, runs, k);
    s1 := Step(w, s, w.plugin(runs, s.pid, s.cur)).state;
  }

  /** Whenever the FU merging stage is re-entered, it is with fewer units. */
  lemma ReentryHasFewerUnits(w: World, s: State, runs: nat, k: nat, t: State)
    requires UnitsFall(w) && s.pid == FU_MERGE && k > 0 && Passes(w, s, runs, k, t)
    ensures w.units(t.cur) < w.units(s.cur)
  {
    var result, bound := w.plugin(runs, s.pid, s.cur), w.units(s.cur);
    EntryLowersBound(w, s, result, bound);
    var s1 := FirstOfRun(w, s, runs, k, t);
    RunKeepsBelow(w, s1, runs + 1, k - 1, t, bound);
  }

  /** The stages in front of FU merging are passed once. */
  lemma {:induction false} EarlyRunEnds(w: World, s: State, runs: nat)
    requires Inv(s) && s.pid <= FU_MERGE && UnitsFall(w)
    ensures Stops(w, s, runs)
    decreases FU_MERGE - s.pid
  {
    if s.pid == FU_MERGE {
      BoundedRunEnds(w, s, runs, w.units(s.cur) + 1);
    } else {
      var result := w.plugin(runs, s.pid, s.cur);
      StepKeepsInv(w, s, result);
      var o := Step(w, s, result);
      if o.Continue? {
        EarlyRunEnds(w, o.state, runs + 1);
      }
      StopsLater(w, s, runs);
    }
  }

  /** One of the three ways to end, with what leads to it. */
  ghost predicate EndsAt(w: World, configuration: RowID, n: nat)
  {
    var o := Run(w, Start(configuration), 0, n);
    || (o.BudgetFailed? && MeetsBefore(w, configuration, n, Losing(w)))
    || (o.Finished? && MeetsBefore(w, configuration, n, Returning(w)) && GoodResults(w, o.results))
    || (o.ReadEmpty? && MeetsBefore(w, configuration, n, ReadingNothing()))
  }

  /**
   The whole exploration ends, whatever the plugins otherwise answer, for every
   timing tool, frequency and result size: it drops its results because the budget
   fails, returns good ones, or reads an empty answer.
   */
  lemma ExplorationEnds(w: World, configuration: RowID)
    requires UnitsFall(w)
    ensures exists n: nat :: EndsAt(w, configuration, n)
  {
    EarlyRunEnds(w, Start(configuration), 0);
    var n: nat :| StopsWithin(w, Start(configuration), 0, n);
    ExplorationIsSafe(w, configuration, n);
    LostOrReturned(w, configuration, n);
    assert EndsAt(w, configuration, n);
  }

  // ------------------------------------------------------------ a small world

  /** A plugin answer with one configuration, below the last stage and with few units. */
  lemma SingleStep(w: World, s: State, c: RowID)
    requires Inv(s) && s.pid < IMMEDIATES && MeetsTarget(w, c) && w.units(s.cur) <= UNIT_LIMIT
    ensures Step(w, s, [c]) == Continue(State(s.pid + 1, c, s.stacks[s.pid := [c]], s.finished))
  {
    assert Init([c]) == [] && Prune(w, []) == [];
    assert Prune(w, [c]) == [c];
  }

  ghost predicate Singles(s: State)
  {
    Inv(s) && forall k :: FU_MERGE <= k < s.pid ==> |s.stacks[k]| == 1
  }

  /** Every stage answers one new configuration, FU merging only for configuration 3. */
  ghost predicate CountsUp(w: World)
  {
    && w.targetFrequency == 0 && (forall c :: MeetsTarget(w, c) && w.units(c) <= UNIT_LIMIT)
    && forall runs: nat, pid: Stage, c :: pid != FU_MERGE || c == 3 ==> w.plugin(runs, pid, c) == [c + 1]
  }

  /** The last stage finishes its answer and falls back to FU merging. */
  lemma LastOfSingles(w: World, s: State)
    requires Singles(s) && s.pid == IMMEDIATES && CountsUp(w) && |s.finished| + 1 < w.resultSize
    ensures var o := Step(w, s, [s.cur + 1]);
            && o.Continue? && Inv(o.state) && o.state.pid == FU_MERGE && o.state.cur == s.cur + 1
            && o.state.finished == s.finished + [s.cur + 1]
  {
    var best := s.cur + 1;
    assert Init([best]) == [] && Prune(w, []) == [];
    assert Prune(w, [best]) == [best];
    var judged := Judge(w, s.(stacks := s.stacks[s.pid := [best]]), best);
    FallBackPastSingles(judged);
  }

  lemma {:induction false} FallBackPastSingles(s: State)
    requires |s.stacks| == 9 && s.pid >= FU_MERGE
    requires forall k :: FU_MERGE <= k < s.pid ==> |s.stacks[k]| == 1
    ensures FallBack(s).Continue? && FallBack(s).state.pid == FU_MERGE
    ensures FallBack(s).state.finished == s.finished && |FallBack(s).state.stacks| == 9 && FallBack(s).state.cur == s.cur
    decreases s.pid
  {
    if s.pid > FU_MERGE {
      FallBackPastSingles(s.(pid := s.pid - 1, stacks := s.stacks[s.pid - 1 := []]));
    }
  }

  /** From any stage up to the last one and back to FU merging. */
  lemma {:induction false} StraightUp(w: World, s: State, runs: nat) returns (n: nat, t: State)
    requires Singles(s) && CountsUp(w) && |s.finished| + 1 < w.resultSize
    requires s.pid <= FU_MERGE ==> s.cur == s.pid
    ensures n > 0 && Passes(w, s, runs, n, t)
    ensures t.pid == FU_MERGE && t.cur == s.cur + 9 - s.pid && t.finished == s.finished + [t.cur]
    decreases IMMEDIATES - s.pid
  {
    var c := s.cur + 1;
    assert w.plugin(runs, s.pid, s.cur) == [c];
    var s1: State;
    if s.pid < IMMEDIATES {
      SingleStep(w, s, c);
      s1 := State(s.pid + 1, c, s.stacks[s.pid := [c]], s.finished);
      n, t := StraightUp(w, s1, runs + 1);
      n := n + 1;
    } else {
      LastOfSingles(w, s);
      s1 := Step(w, s, [c]).state;
      n, t := 1, s1;
    }
    PassStep(w, s, runs, n, s1, t);
  }

  /** One merge is possible, of configuration 3 into 4; two results are asked for. */
  function OneMergeWorld(): World
  {
    World((runs, pid, c) => if pid != FU_MERGE then [c + 1] else if c == 3 then [4] else [],
          c => [], c => true, c => 3, c => if c <= 3 then 2 else 1, 0, 1000, 2)
  }

  /** After n runs the exploration has finished this, and the next one drops it. */
  ghost predicate LosesAt(w: World, s: State, n: nat, finished: seq<RowID>)
    requires |s.stacks| == 9
  {
    && (exists t :: Passes(w, s, 0, n, t) && t.finished == finished)
    && Run(w, s, 0, n + 1) == BudgetFailed
  }

  /** With nothing left to merge, whatever has been finished is lost. */
  lemma NothingLeft(w: World, s: State, n: nat, t: State)
    requires Passes(w, s, 0, n, t) && t.pid == FU_MERGE && w.plugin(n, FU_MERGE, t.cur) == []
    ensures LosesAt(w, s, n, t.finished)
  {
    RunStepsOn(w, s, 0, n);
    StepKeepsInv(w, t, []);
  }

  /** A world that counts up and has nothing to merge after its first result loses it. */
  lemma LostAfterOne(w: World, s: State)
    requires Inv(s) && s.pid == 0 && s.cur == 0 && s.finished == []
    requires CountsUp(w) && w.resultSize == 2 && forall runs: nat :: w.plugin(runs, FU_MERGE, 9) == []
    ensures exists n: nat :: LosesAt(w, s, n, [9])
  {
    var n, t := StraightUp(w, s, 0);
    assert t.finished == [9];
    NothingLeft(w, s, n, t);
  }

  /** The result found is lost: nothing is left to merge, so the next answer of FU
      merging is empty. */
  lemma ResultIsLost()
    ensures Deterministic(OneMergeWorld()) && UnitsFall(OneMergeWorld())
    ensures exists n: nat :: LosesAt(OneMergeWorld(), Start(0), n, [9])
  {
    LostAfterOne(OneMergeWorld(), Start(0));
  }
}
