# OpenASIP design space exploration, compression and decoding, verified

This project models the algorithms of OpenASIP that search for a smaller
processor, compress its program, and wire its instruction decoder, and proves
what they keep and what they compute. Each module follows one component.

| module | component |
|---|---|
| `AutoExplorer` | the exploration pipeline: a depth-first search over nine plugin stages with candidate stacks and backward jumps |
| `InterconnectLayers` | the fan-in/fan-out decomposition of the interconnect estimator |
| `MinimizeMachine` | the bisection over bus counts and the greedy removal of units |
| `BusMerge`, `FunctionUnitMerge`, `RFPortMerge` | merging buses, function units and register file ports |
| `LongImmediates` | a long immediate from its template to the register that the decoder writes |
| `MoveSlotCompression`, `InstructionCompression` | the two dictionary compressors with their generated decompressors |
| `ShortImmediates` | usage histograms and the greedy distribution of immediate bits |
| `LockWiring`, `Opcodes` | lock equations and opcodes of the generated decoder |
| `Words`, `BitVectors`, `Sorting`, `Sequences`, `PairSelection` | register values and the numbers they stand for; bit vectors, required bits, dictionaries; sorting by a key; sums and powers; the smallest correlation |

What the program asks of its surroundings is a parameter: plugin runs, cycle
counts, the evaluator, the timing tool and measured correlations are functions
on which nothing is assumed unless a `requires` says so. A plugin may even
answer differently each time it is run. Where the source updates vectors, maps
or machines step by step, the model has a method with a loop, proved equal to a
specification function; the properties are lemmas about that function. C++
exceptions and undefined vector accesses are outcomes of their own.

## What was found

The model follows the code where it and its intent differ. Each of these points
is a theorem with the exact condition or a concrete witness.

- `AutoExplorer`: no empty stack is ever popped, but `back()` is called on an
  empty vector exactly when a plugin of the first two stages or the last one
  answers nothing (`StepKeepsInv`). Results can be lost: the search answers the
  empty list, and drops all it has finished, exactly when connecting or FU
  merging answers nothing that meets the target before there are enough results
  or the unit limit is reached (`LostOrReturned`). This is how a deterministic
  exhausted search ends when nothing is left to merge (`ExhaustedSearchLosesAll`,
  with a case in `ResultIsLost`).
- `AutoExplorer`: every entry into the FU merging stage is finite (`EntryEnds`), but
  the stage is re-entered with the configuration tried last. The whole exploration
  ends because merging function units removes some and no later stage adds any, so
  each re-entry has fewer units (`ExplorationEnds`, `ReentryHasFewerUnits`); it then
  ends in one of the three ways of `LostOrReturned`. With a plugin in the place of
  FUMergeMinimizer that answers the configuration it was given, a run can come
  back and never end (`ComingBackNeverEnds`).
- `MinimizeMachine`: the next midpoint of the bisection is computed from the old
  one, so the result can be one bus above the minimum; `SkipsMinimum` follows
  the interval and says exactly when, and eight buses of which three are enough
  give four. Reducing below the number of buses with a template slot throws: on
  a monotone test exactly when the middle count is already below them, or all
  counts that it is halved to from there on are feasible (`ThrowsExactly`).
- `ShortImmediates`: the entry for a width of `w` bits is stored at index `w-1`
  of a bus's list and read at index `w`. For the lists as built, the code reads
  out of bounds exactly when the bit budget reaches a bus's width less one
  (`AsBuilt`, `Optimize`), and the extension it picks is the better one exactly
  when one bit more would not change it (`RightExtension`; `WrongExtension` is
  a failure). With the entry for `w` at index `w` it is always in
  bounds (`AsMeant`) and each grant covers the most additional immediates per bit
  (`MeantGrantCoversMost`). Immediates below -2^30 have no histogram column
  (`Histograms`), and a one-bit sign-extended field is never counted
  (`OneBitSigned`).
- `RFPortMerge`: a refused merge loads the architecture whose row number is the
  number of the configuration. It is the right machine exactly when the two
  numbers agree (`ReloadRestores`), which storing every machine together with
  its configuration keeps true (`StoringKeepsAligned`);
  `RefusedMergeLoadsAnother` shows a database in which it is the wrong one. The
  loop ends whatever is loaded.
- `BusMerge`: removing a bus deletes the template slots on it. With several long
  immediate templates, a template loses its slot exactly when that slot is on the
  removed bus and neither merged bus carries the slot that `findImmBuses` found; in
  the other case all templates are replaced by a new pair (`MergedTemplates`).
  Without any slot the search throws exactly when there is a pair to merge
  (`Explore`).
- `BusMerge`: the clean-up compares the units of first ports and deletes whole
  sockets, so a further unit behind a duplicate loses its buses
  (`FurtherUnitLosesBuses`); all other units keep theirs (`DedupKeepsReach`).
- `FunctionUnitMerge`: merging into one load-store unit without covariances throws
  exactly when another unit already has the name "LSU" (`MergeLSUs`).
- `LongImmediates`: the parts stay within the slots they were filled into exactly
  when the slots together are wide enough (`AddSplitTemplate`). Otherwise the last
  part is wider than its slot, and the encoding that is generated for the finished
  machine widens that slot (`WidenedExactly`). On that encoding the fields never
  share bits (`PlacedApart`), so every template decodes exactly the values of its
  width (`GeneratedTemplate`).
- `MoveSlotCompression`: the round trip is exact if and only if the instruction
  ends with its last move slot (`RoundTrip`); dedicated immediate slots behind
  it are not packed.
- `LockWiring`: in the alternate wiring a unit that requests locks is locked
  neither by the debugger's request nor by the pipeline fill (`WhoLocks`).
- `Opcodes`: forwarding the raw field agrees with the compare chain exactly for
  the codes of the unit's operations; for any other field the chain holds the
  unit and the shortcut loads it.

## Model

| member | source | states |
|---|---|---|
| AutoExplorer.PruneMembers | openasip/explorer/AutoExplorer.cc:481-494 | pruning keeps exactly the configurations whose average meets the cycle target |
| AutoExplorer.PruneOrder | openasip/explorer/AutoExplorer.cc:481-494 | in their order, and all of them when all meet it |
| AutoExplorer.AverageMeaning | openasip/explorer/AutoExplorer.cc:529-552 | the truncating average meets a target iff there are no counts or their sum is below one more cycle per application |
| AutoExplorer.CalcAvgClockCycles | openasip/explorer/AutoExplorer.cc:529-552 | the summing loop gives the average |
| AutoExplorer.PruneConfigurations | openasip/explorer/AutoExplorer.cc:481-494 | the filtering loop gives the pruned list |
| AutoExplorer.FallBackLoop | openasip/explorer/AutoExplorer.cc:340-367 | on non-empty stacks the in-place popping loop is the recursive fall back and never pops an empty stack (the same loop as lines 266-293) |
| AutoExplorer.Iterate | openasip/explorer/AutoExplorer.cc:233-376 | one loop body, on the array of stacks, is one step |
| AutoExplorer.Explore | openasip/explorer/AutoExplorer.cc:211-378 | the pipeline loop is the run of steps, for any number of plugin runs |
| AutoExplorer.FallBackKeepsInv | openasip/explorer/AutoExplorer.cc:266-293 | falling back restores the invariant, stays at or above FU merging and shortens a stack without touching the ones below |
| AutoExplorer.StepKeepsInv | openasip/explorer/AutoExplorer.cc:226-376 | for every plugin answer: stacks below the stage stay non-empty with the current configuration on top, no empty pop, an empty back() iff the answer is empty in stage 0, 1 or 8, a failed budget iff stage 2 or 3 answers nothing that meets the target, results only grow |
| AutoExplorer.StepKeepsGoodResults | openasip/explorer/AutoExplorer.cc:308-338 | every finished configuration meets the cycle target and timing check and there are at most resultSize of them |
| AutoExplorer.ExplorationIsSafe | openasip/explorer/AutoExplorer.cc:211-378 | both hold for every run from the start, of any length |
| AutoExplorer.ResultsInNumbers | openasip/explorer/AutoExplorer.cc:308-338 | whatever the plugins answer, each result's cycle counts sum to less than one cycle per application above the target, it passed the timing tool when a frequency is given, and there are not more than asked for |
| AutoExplorer.EntryEnds | openasip/explorer/AutoExplorer.cc:256-377 | above FU merging the search stops or re-enters that stage after finitely many runs, whatever plugins and timing tool answer: the stack sizes fall lexicographically |
| AutoExplorer.AfterTop | openasip/explorer/AutoExplorer.cc:301-301 | trying a whole stack is trying its top and keeping the rest for later |
| AutoExplorer.PopRefines | openasip/explorer/AutoExplorer.cc:346-365 | popping leaves to come exactly what was still to come |
| AutoExplorer.FallBackRefines | openasip/explorer/AutoExplorer.cc:340-367 | falling back continues exactly the recursive search |
| AutoExplorer.StepRefines | openasip/explorer/AutoExplorer.cc:226-376 | finished plus pending results are the same before and after every step, also when the timing check jumps back; the budget fails only at FU merging with nothing to try |
| AutoExplorer.EntryIsARun | openasip/explorer/AutoExplorer.cc:215-378 | an entry into the FU merging stage is a piece of the whole run |
| AutoExplorer.EntryRefines | openasip/explorer/AutoExplorer.cc:215-378 | for any frequency setting an entry finds exactly what the recursive search with unwinding finds; an early stop has found a prefix; its budget fails only when FU merging itself has nothing to try, and it reads an empty answer only if the last stage gives one |
| AutoExplorer.SearchWithoutJumps | openasip/explorer/AutoExplorer.cc:561-567 | with the frequency check disabled the recursive search is the plain depth-first search |
| AutoExplorer.EntryFindsLeaves | openasip/explorer/AutoExplorer.cc:215-378 | then what an entry has appended is at every moment a prefix of the depth-first leaves, and all of them at a re-entry |
| AutoExplorer.StepReturns | openasip/explorer/AutoExplorer.cc:308-376 | a step returns the results iff there are enough of them or the unit limit is reached, and these are all that were finished |
| AutoExplorer.FallBackGoesBack | openasip/explorer/AutoExplorer.cc:340-367 | falling back goes to the nearest stack below with more than one configuration, drops its top, tries the next one on it in the stage above, leaves the stacks below as they are and empties those between |
| AutoExplorer.TimingFails | openasip/explorer/AutoExplorer.cc:322-367 | a failed timing check in the last stage goes back from stage 5, or from stage 4 iff the 32-bit register file has two ports, to the nearest stack below with more than one configuration; stated on the stacks |
| AutoExplorer.TimingFailsForGood | openasip/explorer/AutoExplorer.cc:322-367 | with no more than one configuration on each of these it goes on with FU merging of the configuration that failed |
| AutoExplorer.TimingPasses | openasip/explorer/AutoExplorer.cc:308-376 | a configuration that passes is appended to the results; the search ends with enough results, or when more than four units would come to the last stage, and goes back from stage 8 otherwise |
| AutoExplorer.StageAdvances | openasip/explorer/AutoExplorer.cc:297-377 | below the last stage the search goes on with the last configuration within the target, to the last stage only with at most four units |
| AutoExplorer.NothingWithin | openasip/explorer/AutoExplorer.cc:233-377 | with nothing within the target, stages 0, 1 and 7 go on with the last answer, 2 and 3 fail the budget, the others go back |
| AutoExplorer.LostOrReturned | openasip/explorer/AutoExplorer.cc:215-378 | for every run from the start: results are dropped, returned, or an empty vector is read, iff one of its steps meets the condition for that |
| AutoExplorer.ExhaustedSearchLosesAll | openasip/explorer/AutoExplorer.cc:256-264 | with deterministic plugins, an entry that has searched everything and has nothing left to merge loses all the recursive search finds |
| AutoExplorer.ResultIsLost | openasip/explorer/AutoExplorer.cc:256-264 | a deterministic world with falling units and one merge, in which the one result is lost |
| AutoExplorer.ProductiveExplorationEnds | openasip/explorer/AutoExplorer.cc:211-378 | without frequency check and with plugins that always have a candidate the whole exploration ends |
| AutoExplorer.RunAlike | openasip/explorer/AutoExplorer.cc:251-301 | stacks below FU merging and above the stage make no difference to a deterministic run |
| AutoExplorer.EntryLowersBound | openasip/explorer/AutoExplorer.cc:226-301 | after FU merging all that waits, and the current configuration, has fewer units |
| AutoExplorer.ReentryHasFewerUnits | openasip/explorer/AutoExplorer.cc:266-293 | whenever the stage is re-entered, whatever the plugins otherwise answer, it is with fewer units |
| AutoExplorer.BoundedRunEnds | openasip/explorer/AutoExplorer.cc:226-376 | from FU merging on every run ends: the bound on the units, then the stack sizes fall |
| AutoExplorer.ExplorationEnds | openasip/explorer/AutoExplorer.cc:211-378 | if merging removes units and later stages add none, the whole exploration ends for every timing tool, frequency, result size and non-deterministic plugins: with a failed budget, with returned good results or with an empty answer, each with the step that leads to it |
| AutoExplorer.ComingBackNeverEnds | openasip/explorer/AutoExplorer.cc:266-293 | with other deterministic plugins, a run that comes back with the same configuration and no new result never ends |
| InterconnectLayers.GenerateFanInFanOutCombinations | openasip/icdecoder_plugins/DefaultICDecoderPlugin.cc:735-821 | the layers tile the bits that both sides have; the layer over a bit has as many inputs and outputs as are wider than the bit; fan times width sums to the widths cut at the common height; neighbouring layers differ; the vectors are left sorted with these bits removed |
| InterconnectLayers.CutLayers | openasip/icdecoder_plugins/DefaultICDecoderPlugin.cc:759-820 | the same for the loop that subtracts from the vector it iterates over |
| InterconnectLayers.CutOne | openasip/icdecoder_plugins/DefaultICDecoderPlugin.cc:765-816 | one iteration counts both fans and cuts the layer off all three vectors |
| InterconnectLayers.CountFitting | openasip/icdecoder_plugins/DefaultICDecoderPlugin.cc:766-774 | the counting loop counts all components that carry the layer's lowest bit |
| InterconnectLayers.BreakNeverFires | openasip/icdecoder_plugins/DefaultICDecoderPlugin.cc:769-770 | the early break drops no component |
| InterconnectLayers.Subtract | openasip/icdecoder_plugins/DefaultICDecoderPlugin.cc:795-801 | every width loses the layer, down to zero |
| InterconnectLayers.BitsBetween | openasip/icdecoder_plugins/DefaultICDecoderPlugin.cc:789-793 | a layer holds fan times width bits |
| InterconnectLayers.AddLayer | openasip/icdecoder_plugins/DefaultICDecoderPlugin.cc:787-793 | adding a layer extends description and conservation to the next cut |
| InterconnectLayers.LayersDiffer | openasip/icdecoder_plugins/DefaultICDecoderPlugin.cc:787-793 | above a cut where a component ends the fans differ from the layer below |
| InterconnectLayers.Iteration | openasip/icdecoder_plugins/DefaultICDecoderPlugin.cc:760-818 | an iteration adds its layer, or all common bits are already covered |
| InterconnectLayers.SameDescription | openasip/icdecoder_plugins/DefaultICDecoderPlugin.cc:740-741 | the description does not depend on the order of the components |
| MinimizeMachine.CheckCycleCounts | openasip/explorer/MinimizeMachine.cc:701-729 | true iff every application with a limit is within it |
| MinimizeMachine.Probe | openasip/explorer/MinimizeMachine.cc:331-347 | one turn keeps low <= mid <= high, halves the interval and takes the right side |
| MinimizeMachine.MinimizeBuses | openasip/explorer/MinimizeMachine.cc:228-360 | the do-while loop returns the bisection's answer with its number of probes, the input when it is infeasible or has one bus, and throws iff it comes to a count below the number of slot buses; on a monotone test iff the middle count is below them or the lowest halved count from them on is feasible |
| MinimizeMachine.BisectFinds | openasip/explorer/MinimizeMachine.cc:285-347 | from any interval around the minimum: the minimum, or one more iff it is skipped |
| MinimizeMachine.BisectionNearlyMinimal | openasip/explorer/MinimizeMachine.cc:285-347 | on a monotone test the answer is feasible and the minimum, or one bus more iff the bisection skips it |
| MinimizeMachine.EightBusesNeedThree | openasip/explorer/MinimizeMachine.cc:285-347 | eight buses with minimum three give four |
| MinimizeMachine.FewProbes | openasip/explorer/MinimizeMachine.cc:285-347 | at most floor(log2 n) + 1 probes for any test |
| MinimizeMachine.ThrowsExactly | openasip/explorer/MinimizeMachine.cc:302-347 | on a monotone test: throws iff there are two or more slot buses and the middle count is below them or every count it halves to down to them is feasible |
| MinimizeMachine.OneSlotNeverThrows | openasip/src/applibs/mach/MachineResourceModifier.cc:181-206 | slot buses up to the lower bound never make a removal throw |
| MinimizeMachine.MinimizeUnits | openasip/explorer/MinimizeMachine.cc:544-654 | the remove/evaluate/restore loop is greedy shedding, kind by kind (also lines 414-530 for register files) |
| MinimizeMachine.ShedAllKeeps | openasip/explorer/MinimizeMachine.cc:595-653 | for any oracle the result is accepted and is a subsequence of the original's units |
| MinimizeMachine.ShedDropsFirst | openasip/explorer/MinimizeMachine.cc:603-644 | a pass drops exactly the first n units of its kind: the machine without 1, .., n of them is accepted, and without one more it is refused or there is none |
| MinimizeMachine.KindsInOrder | openasip/explorer/MinimizeMachine.cc:595-653 | the kinds are passed in their order |
| MinimizeMachine.ShedExhausts | openasip/explorer/MinimizeMachine.cc:603-644 | under a monotone oracle a pass leaves a kind of which all units are needed |
| MinimizeMachine.StillNeedsAll | openasip/explorer/MinimizeMachine.cc:595-645 | and they stay needed while later kinds are shed |
| MinimizeMachine.NoUnitToSpare | openasip/explorer/MinimizeMachine.cc:544-654 | no single unit of an analysed kind can be removed from the result |
| BusMerge.MergedTemplates | openasip/src/base/mach/Bus.cc:713-719 | the templates are rebuilt when one of the buses is the long immediate bus; otherwise a template loses a slot iff it is on the removed bus, and keeps all others |
| BusMerge.MergedIsValid | openasip/explorer/BusMergeMinimizer.cc:364-384 | after every merge exactly the removed bus is gone, and each socket and template slot is on an existing bus |
| BusMerge.ImmBusFollows | openasip/explorer/BusMergeMinimizer.cc:463-484 | the long immediate bus is the same, or bus A when it was one of the two |
| BusMerge.ImmBusMeans | openasip/explorer/BusMergeMinimizer.cc:463-484 | the long immediate bus is the first of the last template that has slots, and there is none iff no template has any |
| BusMerge.DedupWithout | openasip/explorer/BusMergeMinimizer.cc:431-435 | deleting a later duplicate socket leaves the same clean-up result |
| BusMerge.DedupKeepsReach | openasip/explorer/BusMergeMinimizer.cc:388-437 | the clean-up gives no unit a bus and leaves each its buses that does not share a register file's socket as a further unit |
| BusMerge.FurtherUnitLosesBuses | openasip/explorer/BusMergeMinimizer.cc:413-434 | a further unit behind a duplicate socket loses its buses |
| BusMerge.DedupMembers | openasip/explorer/BusMergeMinimizer.cc:388-437 | afterwards no two sockets of a file agree in direction and buses |
| BusMerge.CleanUpMeans | openasip/explorer/BusMergeMinimizer.cc:388-437 | in the fields of the sockets: no two of a register file and direction have the same buses; a deleted socket is a register file's and one with its unit, direction and buses stays; all others stay in their order |
| BusMerge.MergedReach | openasip/explorer/BusMergeMinimizer.cc:351-364 | a merge renames the removed bus in what each unit reaches, and nothing else |
| BusMerge.MergeFolds | openasip/explorer/BusMergeMinimizer.cc:345-384 | a merge of equally wide buses folds the starting machine further: widths, immediate widths, reach and the long immediate slot follow |
| BusMerge.CleanUpFolds | openasip/explorer/BusMergeMinimizer.cc:388-437 | so does a clean-up |
| BusMerge.StaysConnected | openasip/explorer/BusMergeMinimizer.cc:349-437 | over any run two units with a common bus still have one, when they do not share a register file's socket as further units |
| BusMerge.SelectPair | openasip/explorer/BusMergeMinimizer.cc:262-318 | the first pair of equal width with the smallest correlation, or none below the limit |
| BusMerge.Minimizer.CleanUp | openasip/explorer/BusMergeMinimizer.cc:388-437 | the two nested deleting loops leave the sockets without an equal one before them |
| BusMerge.Minimizer.DeleteSlots | openasip/src/base/mach/Bus.cc:713-719 | the loop over the templates takes out the slots on the bus |
| BusMerge.Minimizer.MergeBuses | openasip/explorer/BusMergeMinimizer.cc:345-384 | attaching sockets, widening, removing the bus with its slots and rebuilding templates is one merge |
| BusMerge.StaysSound | openasip/explorer/BusMergeMinimizer.cc:339-437 | a merge with its clean-up gives a machine that is the first one folded further, without duplicate sockets, and has one bus less |
| BusMerge.Minimizer.MergePair | openasip/explorer/BusMergeMinimizer.cc:339-447 | one round makes a configuration that is the best pair's merge, cleaned up |
| BusMerge.Minimizer.MergeAll | openasip/explorer/BusMergeMinimizer.cc:221-449 | the loop keeps all rounds and ends without a pair, or throws at the first |
| BusMerge.Minimizer.Explore | openasip/explorer/BusMergeMinimizer.cc:221-449 | the loop ends; every configuration is a round after the one before: its best pair is merged, the removed bus is gone, and among its sockets no two of a register file and direction have the same buses, while other units' sockets all stay; every configuration is the first machine folded and has one bus less than the one before; their number is the initial buses less the distinct widths; throws iff there is a pair to merge and no template has a slot |
| BusMerge.OneBusPerWidth | openasip/explorer/BusMergeMinimizer.cc:221-321 | when no pair is left there is exactly one bus for each width of the starting machine |
| FunctionUnitMerge.CreateFUPort | openasip/explorer/FUMergeMinimizer.cc:713-742 | a new port with the first free generated name, taking the trigger role from the port that had it |
| FunctionUnitMerge.ClearsFirst | openasip/src/base/mach/FUPort.cc:212-230 | making a port the trigger takes the role from the first port that had it and changes nothing else |
| FunctionUnitMerge.FindPort | openasip/explorer/FUMergeMinimizer.cc:465-492 | the first suitable port that is not bound yet |
| FunctionUnitMerge.OperandWidthMeans | openasip/explorer/FUMergeMinimizer.cc:494-504 | an operand needs the bits of its elements laid side by side, and 32 at least when it triggers one of the six memory operations |
| FunctionUnitMerge.NoTriggerLeft | openasip/explorer/FUMergeMinimizer.cc:475-482 | when no trigger port is free, the unit has none |
| FunctionUnitMerge.BindOperand | openasip/explorer/FUMergeMinimizer.cc:454-532 | the next operand gets the first suitable free port, widened to the operand if it was narrower, or a new one when there is none; no port shrinks or changes its role |
| FunctionUnitMerge.BindCreated | openasip/explorer/FUMergeMinimizer.cc:515-520 | a created port keeps earlier bindings and the single trigger |
| FunctionUnitMerge.CopyUses | openasip/explorer/FUMergeMinimizer.cc:522-530 | the cycle loop copies exactly the operand's reads or writes |
| FunctionUnitMerge.MergeOperation | openasip/explorer/FUMergeMinimizer.cc:447-569 | the new operation has distinct ports of its directions that are wide enough, triggers where the old one did and uses its operands in the same cycles; every port is unchanged or has exactly the width of the operand it was widened or created for |
| FunctionUnitMerge.MergeFUs | openasip/explorer/FUMergeMinimizer.cc:434-572 | a valid unit with A's operations unchanged and for each missing one of B an operation that does the same; its port for every operand has at least the bits of the operand's elements side by side, and 32 for a triggering operand of the six memory operations; a port that was created or widened has exactly that many, all others are unchanged |
| FunctionUnitMerge.WideHaveBits | openasip/explorer/FUMergeMinimizer.cc:494-511 | ports that are wide enough have at least the bits of all elements |
| FunctionUnitMerge.AddAsNeeded | openasip/explorer/FUMergeMinimizer.cc:506-520 | adding an operation keeps every port as it was or with exactly the bits of an operand bound to it |
| FunctionUnitMerge.MergedIsWide | openasip/explorer/FUMergeMinimizer.cc:506-511 | operations that had wide enough ports still have |
| FunctionUnitMerge.OneTriggerStaysOne | openasip/src/base/mach/FUPort.cc:212-230 | a unit's trigger port stays its only one |
| FunctionUnitMerge.SelectPair | openasip/explorer/FUMergeMinimizer.cc:320-350 | the first pair of one kind with the smallest covariance, load-store units only when wanted |
| FunctionUnitMerge.SelectedIsBest | openasip/explorer/FUMergeMinimizer.cc:320-350 | that pair is the best of those whose names may be merged, of one kind, and of load-store units only while there are more than wanted |
| FunctionUnitMerge.PairKeeps | openasip/explorer/FUMergeMinimizer.cc:354-354 | a merge keeps each kind's operations and the fixed units and takes one load-store unit iff it merged two |
| FunctionUnitMerge.Machine.HasNumLSUsLeft | openasip/explorer/FUMergeMinimizer.cc:399-407 | whether there are at least that many load-store units |
| FunctionUnitMerge.Machine.CountNonMergeable | openasip/explorer/FUMergeMinimizer.cc:261-272 | the number of positions with a name that must not be merged |
| FunctionUnitMerge.Machine.MergePair | openasip/explorer/FUMergeMinimizer.cc:354-354 | unit B is gone and unit A is the merge of the two |
| FunctionUnitMerge.Machine.MergeLSUs | openasip/explorer/FUMergeMinimizer.cc:277-302 | all load-store units that may be merged have become one, which is called "LSU"; throws iff another unit is called "LSU" |
| FunctionUnitMerge.ClashSeen | openasip/src/base/mach/FunctionUnit.cc:118-135 | the name clash is already there before the merges |
| FunctionUnitMerge.Machine.MergePairs | openasip/explorer/FUMergeMinimizer.cc:305-366 | every configuration merges the best pair of the one before; the rounds end at the wanted count or without a viable pair and never go below that count |
| FunctionUnitMerge.Machine.Explore | openasip/explorer/FUMergeMinimizer.cc:248-368 | every configuration is the one before with the second unit of its best pair merged into the first, and keeps valid units, each kind's operations and the fixed units; covariance-driven merging does not take the load-store units below the wanted number; a wanted number of 1 leaves one, called "LSU"; ends at the wanted count, never below it, or without a viable pair; throws iff the name "LSU" clashes |
| RFPortMerge.MergeKeepsPorts | openasip/explorer/RFPortMergeMinimizer.cc:304-326 | a merge keeps both directions and the union of the buses reached in each |
| RFPortMerge.StoringKeepsAligned | openasip/src/applibs/dsdb/DSDBManager.cc:299-351 | storing a machine with its configuration keeps the row numbers equal (addArchitecture is at lines 191-241) |
| RFPortMerge.ReloadRestores | openasip/explorer/RFPortMergeMinimizer.cc:351-360 | loading by the configuration's number restores its machine iff the two row numbers agree |
| RFPortMerge.RefusedMergeLoadsAnother | openasip/explorer/RFPortMergeMinimizer.cc:328-360 | with an architecture stored without configuration, a refused merge of the second machine loads the first |
| RFPortMerge.SelectPair | openasip/explorer/RFPortMergeMinimizer.cc:273-293 | the first pair of one direction with the smallest covariance |
| RFPortMerge.ThreePortsHaveAPair | openasip/explorer/RFPortMergeMinimizer.cc:262-292 | with a stop count of at least 2 there always is a pair |
| RFPortMerge.ChooseMerge | openasip/explorer/RFPortMergeMinimizer.cc:258-326 | the least used pair of one direction is merged: the second port is gone, the first has the buses of both, all else is the same; the file's directions and reach stay |
| RFPortMerge.Minimizer.TryMerge | openasip/explorer/RFPortMergeMinimizer.cc:328-367 | accepted, refused or failed as the evaluation says; a refused merge goes back to the previous configuration |
| RFPortMerge.JudgeMeans | openasip/explorer/RFPortMergeMinimizer.cc:334-364 | accepted iff simulated and no cycle count is above a threshold that is set; failed iff not simulated |
| RFPortMerge.Minimizer.MergeFile | openasip/explorer/RFPortMergeMinimizer.cc:258-368 | a round adds its merge, its evaluation and what the loop goes on with to the log, and its configuration to the result iff it was accepted |
| RFPortMerge.Minimizer.MergeRound | openasip/explorer/RFPortMergeMinimizer.cc:258-368 | it then goes to the next file or drops this one; each round leaves fewer files or ports |
| RFPortMerge.Minimizer.Refine | openasip/explorer/RFPortMergeMinimizer.cc:244-369 | the loop ends with the rounds in its log following each other |
| RFPortMerge.Minimizer.Explore | openasip/explorer/RFPortMergeMinimizer.cc:244-369 | for every evaluator and reload the loop ends with rounds that follow each other: each merges the least used pair of one file with too many ports of the machine reached so far, and goes on with it iff it was simulated within the threshold; the configurations returned are those of the accepted machines, all of them and in order; files take turns; at the end, unless the last evaluation failed, every file had few enough ports or a refused merge; when reloads restore, every configuration keeps each file's directions and reach |
| LongImmediates.SortByWidth | openasip/explorer/ImmediateGenerator.cc:549-568 | the shortest priority prefix with enough width, permuted into descending width |
| LongImmediates.AddSplitSlots | openasip/explorer/ImmediateGenerator.cc:507-534 | the parts fill slots in order and sum to the width; on descending slots none is refused and none exceeds its slot iff the slots together are wide enough |
| LongImmediates.AddSplitTemplate | openasip/explorer/ImmediateGenerator.cc:505-534 | the same for any priority, over its shortest sufficient prefix: not refused and within the slots iff all slots together are wide enough |
| LongImmediates.LastIsOverfull | openasip/explorer/ImmediateGenerator.cc:512-516 | otherwise the last part is wider than its slot |
| LongImmediates.WidestFirst | openasip/explorer/ImmediateGenerator.cc:565-567 | any n slots are at most as wide as the n widest |
| LongImmediates.FewestSlots | openasip/explorer/ImmediateGenerator.cc:505-534 | no choice of slots with enough width uses fewer |
| Words.ZeroExtends | openasip/data/ProGe/tce_util_pkg.vhdl:180-223 | zero extension keeps the unsigned number |
| Words.SignExtends | openasip/data/ProGe/tce_util_pkg.vhdl:180-223 | sign extension keeps the two's complement number of a non-empty field |
| Words.CutsValue | openasip/data/ProGe/tce_util_pkg.vhdl:180-223 | cutting keeps the number modulo two to the length |
| Words.RepresentableMeans | openasip/data/ProGe/tce_util_pkg.vhdl:180-223 | a register value can be had from a field of some bits iff its number is in the unsigned or signed range of that many bits |
| LongImmediates.ValueIsNumber | openasip/icdecoder_plugins/DefaultDecoderGenerator.cc:1991-2031 | the concatenated fields are the number with the first field's bits highest |
| LongImmediates.RegisterMeans | openasip/icdecoder_plugins/DefaultDecoderGenerator.cc:2002-2008 | the register stands for the number of the fields, unsigned or as two's complement of their bits, modulo its own length when it is shorter |
| LongImmediates.WriteImmediate | openasip/icdecoder_plugins/DefaultDecoderGenerator.cc:1988-2031 | the msb/lsb slices write the whole register; in numbers, the register is the unsigned or two's complement number of the concatenated fields, and that modulo its length when it is shorter |
| LongImmediates.EncodeLongImmediate | openasip/src/applibs/PIG/CodeCompressorPlugin.cc:1066-1115 | the image writer puts into a move slot exactly that part's share of the value, with zeros above |
| LongImmediates.ImmediateComesBack | openasip/src/applibs/PIG/CodeCompressorPlugin.cc:1066-1115 | fields that hold their shares of a representable value decode to it |
| LongImmediates.SplitValue | openasip/icdecoder_plugins/DefaultDecoderGenerator.cc:1991-2031 | fields that do not share bits can hold any value split over them |
| LongImmediates.DecodesExactly | openasip/icdecoder_plugins/DefaultDecoderGenerator.cc:1988-2031 | a register value comes out of the decoder for some word iff it is representable in the template's width |
| LongImmediates.DecodesAllWhenApart | openasip/icdecoder_plugins/DefaultDecoderGenerator.cc:1988-2031 | the decoder produces every representable value iff no two fields share bits |
| LongImmediates.WidenedExactly | openasip/src/applibs/bem/BEMGenerator.cc:600-611 | the encoding of the finished machine widens a slot for a template iff a part is wider than the slot it was filled into |
| LongImmediates.RegeneratedIsLeast | openasip/src/applibs/bem/BEMGenerator.cc:600-611 | each slot gets the least width not below its own that holds every template slot on it |
| LongImmediates.PlacedInOrder | openasip/src/base/bem/InstructionField.cc:131-148 | slots follow each other from the first bit behind the other fields, and a part begins where its slot does |
| LongImmediates.PlacedApart | openasip/src/base/bem/InstructionField.cc:131-148 | on that encoding, with slots side by side, no two fields of a template share bits |
| LongImmediates.GeneratedTemplate | openasip/src/applibs/bem/BEMGenerator.cc:600-611 | for every template the generator builds, wide enough slots or not, the fields lie inside the word and apart, and the decoder produces exactly the values representable in the template's width, which are the numbers in its signed or unsigned range |
| BitVectors.ToBitsRoundTrip | openasip/src/applibs/PIG/BitVector.cc:93-98 | a number that fits its field is read back |
| BitVectors.BitOfNumber | openasip/src/applibs/PIG/BitVector.cc:93-98 | the bit at each place of a field is the one of that weight in the number |
| BitVectors.RequiredBitsMonotone | openasip/src/tools/MathTools.icc:50-71 | a smaller number never needs more bits |
| BitVectors.RequiredBitsLeast | openasip/src/tools/MathTools.icc:50-71 | the number of bits is the least, and at least one, that the number fits |
| BitVectors.AddNumbers | openasip/compressors/MoveSlotDictionary.cc:206-214 | adding an entry keeps the codes a stable bijection onto 0..n-1 |
| BitVectors.KeyForCode | openasip/src/tools/MapTools.icc:62-73 | looking an entry's code up in the emitted table finds the entry |
| BitVectors.CodeFits | openasip/compressors/InstructionDictionary.cc:315-330 | a code fits the field that the largest code needs |
| MoveSlotCompression.EvaluateMoveSlotBoundaries | openasip/compressors/MoveSlotDictionary.cc:424-437 | the independently computed boundaries are the packing offsets |
| MoveSlotCompression.SliceIsCode | openasip/compressors/MoveSlotDictionary.cc:408-419 | the slice between them is the code packed for the slot |
| MoveSlotCompression.CodeWrittenOut | openasip/compressors/MoveSlotDictionary.cc:220-255 | every bit of a code is the one of its weight in the slot's number, in a field of the fewest bits for the number of entries |
| MoveSlotCompression.DecompressesPacked | openasip/compressors/MoveSlotDictionary.cc:391-471 | decompressing gives the instruction up to its last slot, constant slots and leading fields included, whatever follows the word |
| MoveSlotCompression.RoundTrip | openasip/compressors/MoveSlotDictionary.cc:220-255 | the round trip is exact iff the instruction ends with its last move slot |
| MoveSlotCompression.MoveSlotDictionary.AddToDictionary | openasip/compressors/MoveSlotDictionary.cc:206-214 | a new entry gets the next code, old ones keep theirs |
| MoveSlotCompression.MoveSlotDictionary.AddSlot | openasip/compressors/MoveSlotDictionary.cc:186-194 | one slot is cut out and gets its code, or is empty or past the end |
| MoveSlotCompression.MoveSlotDictionary.AddSlots | openasip/compressors/MoveSlotDictionary.cc:185-196 | all slots of a readable instruction get codes; anything else throws |
| MoveSlotCompression.MoveSlotDictionary.UpdateDictionary | openasip/compressors/MoveSlotDictionary.cc:181-198 | so do those of a program, and no code changes |
| MoveSlotCompression.MoveSlotDictionary.CreateDictionary | openasip/compressors/MoveSlotDictionary.cc:161-176 | after it every program is encodable |
| MoveSlotCompression.MoveSlotDictionary.PackInstruction | openasip/compressors/MoveSlotDictionary.cc:223-250 | the packing loop gives leading bits and codes |
| MoveSlotCompression.MoveSlotDictionary.Compress | openasip/compressors/MoveSlotDictionary.cc:97-120 | every word has the fixed width and packs its instruction; succeeds iff the needed instructions are readable; the dictionaries exist afterwards iff all programs are readable, hold only slots that occur in a program and never change after that, also when a program is refused |
| MoveSlotCompression.MoveSlotDictionary.ProgramComesBack | openasip/compressors/MoveSlotDictionary.cc:391-471 | every word ever returned decompresses with the final dictionaries |
| InstructionCompression.WordComesBack | openasip/compressors/InstructionDictionary.cc:209-217 | for every dictionary size the code width is within the memory width and the top bits index the table to the instruction |
| InstructionCompression.WordMeans | openasip/compressors/InstructionDictionary.cc:314-330 | every bit of a word: the code in the fewest bits for the largest code, then zeros up to the fewest bits for the number of entries |
| InstructionCompression.InstructionDictionary.AddToDictionary | openasip/compressors/InstructionDictionary.cc:286-293 | a new instruction gets the next code, old ones keep theirs |
| InstructionCompression.InstructionDictionary.CreateDictionary | openasip/compressors/InstructionDictionary.cc:257-266 | after it every instruction of every program has a code |
| InstructionCompression.InstructionDictionary.AddInstructions | openasip/compressors/InstructionDictionary.cc:314-330 | one padded word for each instruction |
| InstructionCompression.InstructionDictionary.Compress | openasip/compressors/InstructionDictionary.cc:93-130 | words for a known program, refusal of an unknown one; codes are stable, the dictionary is fixed after the first call and has exactly the instructions of all programs and those that keep the processor programmable |
| InstructionCompression.InstructionDictionary.ProgramComesBack | openasip/compressors/InstructionDictionary.cc:206-220 | every word ever returned decompresses to its instruction |
| ShortImmediates.Histograms | openasip/explorer/ShortImmediateOptimizer.cc:267-289 | both histograms count by sign and bits; a column is missing iff an immediate is below -2^30 |
| ShortImmediates.UnsignedSum | openasip/explorer/ShortImmediateOptimizer.cc:298-300 | the running sum at i counts exactly the immediates that fit i bits zero-extended |
| ShortImmediates.SignedSum | openasip/explorer/ShortImmediateOptimizer.cc:298-300 | from two bits on, the other sum counts exactly those that fit sign-extended |
| ShortImmediates.OneBitSigned | openasip/explorer/ShortImmediateOptimizer.cc:298-300 | one-bit sign-extended fields are never counted |
| ShortImmediates.BestImmediates | openasip/explorer/ShortImmediateOptimizer.cc:292-308 | each entry has the better extension with what it covers |
| ShortImmediates.ExtensionByColumns | openasip/explorer/ShortImmediateOptimizer.cc:298-306 | zero extension is chosen iff the immediates that need all bits outnumber the negative ones that fit |
| ShortImmediates.BestGrant | openasip/explorer/ShortImmediateOptimizer.cc:313-337 | a scan finds the first grant with the best coverage per bit, or reads out of bounds exactly when it looks at a missing entry |
| ShortImmediates.Allocate | openasip/explorer/ShortImmediateOptimizer.cc:310-345 | granted and remaining bits add up, every field is narrower than its bus, every grant was the best, none with a gain is left |
| ShortImmediates.Extensions | openasip/explorer/ShortImmediateOptimizer.cc:347-358 | the extension read for each bus, or out of bounds |
| ShortImmediates.Distribute | openasip/explorer/ShortImmediateOptimizer.cc:310-358 | the whole distribution; in bounds iff every list reaches the widest field its bus could get |
| ShortImmediates.AsBuilt | openasip/explorer/ShortImmediateOptimizer.cc:298-327 | on the lists as built it is in bounds iff the budget plus one is below every bus's width |
| ShortImmediates.AsMeant | openasip/explorer/ShortImmediateOptimizer.cc:298-327 | with the entry for w bits at index w it always is |
| ShortImmediates.MeantGrantCoversMost | openasip/explorer/ShortImmediateOptimizer.cc:313-341 | then each grant covers the most additional immediates per bit of all wider fields below the bus width and the remaining bits, and it stops only when none of them covers more |
| ShortImmediates.BuiltMetric | openasip/explorer/ShortImmediateOptimizer.cc:318-330 | as built, the gain looked at is the one between fields of one bit more |
| ShortImmediates.Optimize | openasip/explorer/ShortImmediateOptimizer.cc:292-358 | from the executed immediates to fields and extensions: in bounds iff every immediate has a column and the budget plus one is below the width; an extension is the better one iff one more bit would not change it |
| ShortImmediates.RightExtension | openasip/explorer/ShortImmediateOptimizer.cc:298-350 | the extension read for a width is the better one iff both that width and the next have the non-negative immediates that need all bits on the same side of the negative ones |
| ShortImmediates.WrongExtension | openasip/explorer/ShortImmediateOptimizer.cc:350-350 | three immediates for which it is not |
| LockWiring.Wiring.GlockRequestWidth | openasip/icdecoder_plugins/DefaultDecoderGenerator.cc:585-605 | the number of requesting units and the debugger |
| LockWiring.Wiring.GlockPortWidth | openasip/icdecoder_plugins/DefaultDecoderGenerator.cc:613-657 | the number of units with a lock port and the interconnect |
| LockWiring.RequestingMembers | openasip/icdecoder_plugins/DefaultDecoderGenerator.cc:468-499 | the units with a request bit are those with ports and a lock request, each once |
| LockWiring.LockedMembers | openasip/icdecoder_plugins/DefaultDecoderGenerator.cc:508-576 | the units with a lock bit are those with ports and a lock port, each once |
| LockWiring.Wiring.AddLockReqPort | openasip/icdecoder_plugins/DefaultDecoderGenerator.cc:468-499 | request bits are a bijection with the requesting units |
| LockWiring.Wiring.ConnectGlocks | openasip/icdecoder_plugins/DefaultDecoderGenerator.cc:514-569 | one of the loops that hand out the next lock bits |
| LockWiring.Wiring.AddGlockPort | openasip/icdecoder_plugins/DefaultDecoderGenerator.cc:508-576 | every unit with a lock port has its bit and the bits are exactly the port's width |
| LockWiring.Wiring.WriteGlockMapping | openasip/icdecoder_plugins/DefaultDecoderGenerator.cc:2473-2514 | one equation for each bit of the port |
| LockWiring.Wiring.OneBitEach | openasip/icdecoder_plugins/DefaultDecoderGenerator.cc:508-576 | each unit has exactly one bit |
| LockWiring.Wiring.WhoLocks | openasip/icdecoder_plugins/DefaultDecoderGenerator.cc:2443-2507 | what locks the unit behind any lock bit: the incoming request, the requesting units in order except its own in the alternate wiring, and, unless it is so exempt, the pipeline fill and the debugger |
| LockWiring.Wiring.RequestLocksOthers | openasip/icdecoder_plugins/DefaultDecoderGenerator.cc:2473-2507 | a request locks every other unit |
| LockWiring.Wiring.TwoRequestsLockAll | openasip/icdecoder_plugins/DefaultDecoderGenerator.cc:2473-2507 | two requests lock everything |
| LockWiring.Wiring.NoSelfLock | openasip/icdecoder_plugins/DefaultDecoderGenerator.cc:2487-2497 | a unit is never locked by its own request alone |
| LockWiring.Wiring.DebuggerDoesNotLockRequester | openasip/icdecoder_plugins/DefaultDecoderGenerator.cc:2492-2503 | the debugger's request leaves requesting units running |
| Opcodes.Opcode | openasip/icdecoder_plugins/DefaultDecoderGenerator.cc:5027-5039 | the number of operation names that come before, so independent of declaration order |
| Opcodes.LessMeans | openasip/icdecoder_plugins/DefaultDecoderGenerator.cc:5027-5039 | a name comes before another iff it is a proper prefix or has the smaller character at the first difference |
| Opcodes.RankIsPosition | openasip/icdecoder_plugins/DefaultDecoderGenerator.cc:5034-5038 | the rank is the position among the sorted names |
| Opcodes.OpcodesAreABijection | openasip/icdecoder_plugins/DefaultDecoderGenerator.cc:5020-5043 | opcodes are a bijection between the names and 0..n-1 |
| Opcodes.OpcodeFits | openasip/icdecoder_plugins/DefaultDecoderGenerator.cc:4754-4766 | every opcode fits the opcode width and no narrower width would do |
| Opcodes.IsOrdered | openasip/icdecoder_plugins/DefaultDecoderGenerator.cc:3280-3289 | true iff every code is its operation's opcode |
| Opcodes.ForwardingIsTheChain | openasip/icdecoder_plugins/DefaultDecoderGenerator.cc:3340-3367 | then forwarding the field drives what the chain drives iff the field is one of the codes; for any other field the chain holds the unit |
| Opcodes.UnorderedNeedsTheChain | openasip/icdecoder_plugins/DefaultDecoderGenerator.cc:3290-3338 | otherwise some valid code would be forwarded as a wrong opcode |

## Left out

- AutoExplorer.Explore: a result size of 0 wraps around to 2^32 - 1, which is modelled; database and plugin exceptions, and a machine without a register file RF_32, end the source's search and are not; cycle sums are unbounded.
- MinimizeMachine.MinimizeBuses: rebuilding the implementation file of the reduced machine, and database errors that break off the loop. Buses without a template slot are taken to be interchangeable: only their number matters.
- MinimizeMachine.MinimizeUnits: removal of sockets that become unconnected. One cycle count for each limit is assumed; a missing one aborts the source.
- BusMerge.Minimizer.Explore: guards of a removed bus (they are not carried over to the other bus), accumulation of the covariances, the immediate unit of the rebuilt template, and template slots on dedicated immediate slots.
- AutoExplorer.ExplorationEnds: that the plugins of the later stages add no function unit is a hypothesis, and so is that a row number stands for the machine that was stored under it; for FU merging, `FunctionUnitMerge.Machine.Explore` shows one unit less with each configuration.
- FunctionUnitMerge.MergeFUs: the bus attachments of sockets, including the exception for a socket without a register file bus, resource uses other than operand reads and writes, and sharing of a port object between two units. Units are values, so the method does not show the update in place of the two unit objects.
- FunctionUnitMerge.Machine.Explore: a control unit that is called "LSU", removal of unused buses and sockets, and the loop's database writes.
- RFPortMerge.Minimizer.Explore: bidirectional ports, for which the port count by direction and the list of ports differ, and the order in which files are sorted by width.
- LongImmediates.SortByWidth: the order of equally wide slots is unspecified in the source; the model keeps the given one and no contract depends on it.
- LongImmediates.GeneratedTemplate: template slots on dedicated immediate slots, and extra bits that an encoding file adds by hand.
- LongImmediates.WriteImmediate: instruction template selection, the destination register field and the write enable.
- MoveSlotCompression.MoveSlotDictionary.Compress: codes from 2^31 on. After building the dictionaries has thrown, the source appends further ones at the next call; as that call throws again, nothing reads them.
- InstructionCompression.InstructionDictionary.Compress: the programmability validator, whose program is a parameter; instruction words wider than 64 bits, on which the source asserts.
- ShortImmediates.Histograms: buses of a width other than 32, and how programs are scheduled and simulated.
- ShortImmediates.BestGrant: ratios are real numbers where the source rounds to float.
- LockWiring.Wiring.WriteGlockMapping: lock registers, the lock trace and the Verilog text.
- Opcodes.Opcode: opcodes of the global control unit, and operation names that occur twice, which function units do not allow.
- Opcodes.ForwardingIsTheChain: code widths are taken to be equal, so that one field slice serves all codes, as well-formed socket code tables have them.
- The callers of the fan-in/fan-out decomposition, which collect widths and look costs up in a database.
- Program image concatenation and addressing, and the HDL text of decompressors and decoders beyond the meaning of the emitted equations.
- The plugins that only wire or rename (ADFCombiner, VLIWConnectIC, BlocksConnectIC, AllOperationMachine, VectorLSGenerator, SimpleICOptimizer, RemoveUnconnectedComponents, ConnectionSweeper, ShrinkRegisterCounts, GrowMachine): they would add easier relatives of the properties above.
