/**
 RFPortMergeMinimizer: the ports of register files are merged pair by pair,
 round robin over the files, as long as the evaluator accepts the machine; a
 refused merge is undone by loading a machine back from the database.
 */
module RFPortMerge {
  import opened BitVectors
  import opened Sequences
  import opened PairSelection

  /** A register file port with the buses of its socket. */
  datatype Port = Port(isInput: bool, buses: set<nat>)

  datatype RegisterFile = RegisterFile(name: nat, ports: seq<Port>)

  type Machine = seq<RegisterFile>

  function TotalPorts(m: Machine): nat
  {
    if m == [] then 0 else TotalPorts(m[..|m| - 1]) + |m[|m| - 1].ports|
  }

  lemma {:induction false} TotalPortsUpdate(m: Machine, i: nat, f: RegisterFile)
    requires i < |m|
    ensures TotalPorts(m[i := f]) == TotalPorts(m) - |m[i].ports| + |f.ports|
  {
    var m' := m[i := f];
    if i == |m| - 1 {
      assert m'[..i] == m[..i];
    } else {
      TotalPortsUpdate(m[..|m| - 1], i, f);
      assert m'[..|m'| - 1] == m[..|m| - 1][i := f];
    }
  }

  /** What the ports of one direction reach together. */
  function Reach(ports: seq<Port>, isInput: bool): set<nat>
  {
    set p, b | p in ports && p.isInput == isInput && b in p.buses :: b
  }

  predicate HasPort(ports: seq<Port>, isInput: bool)
  {
    exists p :: p in ports && p.isInput == isInput
  }

  /** A pair of ports of the same direction. */
  predicate Viable(ports: seq<Port>, j: nat, k: nat)
  {
    j < k < |ports| && ports[j].isInput == ports[k].isInput
  }

  /** Port `b` is merged into port `a`, whose socket takes over its buses. */
  function MergePorts(ports: seq<Port>, a: nat, b: nat): seq<Port>
    requires a < b < |ports|
  {
    var union := ports[a].(buses := ports[a].buses + ports[b].buses);
    ports[a := union][..b] + ports[b + 1..]
  }

  /** The file has the directions and the reach it had. */
  predicate SameFile(before: RegisterFile, after: RegisterFile)
  {
    && after.name == before.name
    && HasPort(after.ports, true) == HasPort(before.ports, true)
    && HasPort(after.ports, false) == HasPort(before.ports, false)
    && Reach(after.ports, true) == Reach(before.ports, true)
    && Reach(after.ports, false) == Reach(before.ports, false)
  }

  ghost predicate Keeps(before: Machine, after: Machine)
  {
    |after| == |before| && forall i :: 0 <= i < |before| ==> SameFile(before[i], after[i])
  }

  /** Each port's buses are with a port of its direction after the merge. */
  lemma PortSurvives(ports: seq<Port>, a: nat, b: nat, k: nat)
    requires Viable(ports, a, b) && k < |ports|
    ensures exists p :: p in MergePorts(ports, a, b) && p.isInput == ports[k].isInput && ports[k].buses <= p.buses
  {
    var after := MergePorts(ports, a, b);
    assert after[if k < b then k else if k == b then a else k - 1] in after;
  }

  /** No port has more than the ports of its direction had. */
  lemma PortComesFrom(ports: seq<Port>, a: nat, b: nat, p: Port)
    requires Viable(ports, a, b) && p in MergePorts(ports, a, b)
    ensures p.buses <= Reach(ports, p.isInput) && HasPort(ports, p.isInput)
  {
    var after := MergePorts(ports, a, b);
    var k :| 0 <= k < |after| && after[k] == p;
    if k == a {
      assert ports[a] in ports && ports[b] in ports;
    } else {
      assert after[k] == ports[if k < b then k else k + 1];
    }
  }

  lemma MergeKeepsPorts(ports: seq<Port>, a: nat, b: nat, isInput: bool)
    requires Viable(ports, a, b)
    ensures HasPort(MergePorts(ports, a, b), isInput) == HasPort(ports, isInput)
    ensures Reach(MergePorts(ports, a, b), isInput) == Reach(ports, isInput)
  {
    var after := MergePorts(ports, a, b);
    forall p | p in after ensures p.buses <= Reach(ports, p.isInput) && HasPort(ports, p.isInput) {
      PortComesFrom(ports, a, b, p);
    }
    forall p | p in ports ensures HasPort(after, p.isInput) && p.buses <= Reach(after, p.isInput) {
      var k :| 0 <= k < |ports| && ports[k] == p;
      PortSurvives(ports, a, b, k);
    }
  }

  // ------------------------------------------------------------ the database

  /** Rows are numbered from 0 here; equal machines and configurations share a
      row. A configuration names an architecture row. */
  datatype Database = Database(archs: seq<Machine>, confs: seq<nat>)
  {
    predicate Valid()
    {
      && (forall c :: 0 <= c < |confs| ==> confs[c] < |archs|)
      && (forall i, j :: 0 <= i < j < |archs| ==> archs[i] != archs[j])
    }

    /** Configuration c is of architecture c: every machine was stored with one
        configuration, at once. */
    predicate Aligned()
    {
      |archs| == |confs| && forall c :: 0 <= c < |confs| ==> confs[c] == c
    }
  }

  function IndexOf<T(==)>(s: seq<T>, x: T): (i: nat)
    ensures i <= |s| && (i < |s| ==> s[i] == x) && (i == |s| ==> x !in s)
  {
    if s == [] then 0 else if s[0] == x then 0 else 1 + IndexOf(s[1..], x)
  }

  function AddArchitecture(db: Database, m: Machine): (r: (Database, nat))
    requires db.Valid()
    ensures r.0.Valid() && r.1 < |r.0.archs| && r.0.archs[r.1] == m
    ensures db.archs <= r.0.archs && r.0.confs == db.confs
    ensures if m in db.archs then r.0 == db else r.1 == |db.archs| == |r.0.archs| - 1
  {
    var i := IndexOf(db.archs, m);
    if i < |db.archs| then (db, i) else (db.(archs := db.archs + [m]), i)
  }

  function AddConfiguration(db: Database, arch: nat): (r: (Database, nat))
    requires db.Valid() && arch < |db.archs|
    ensures r.0.Valid() && r.1 < |r.0.confs| && r.0.confs[r.1] == arch
    ensures db.confs <= r.0.confs && r.0.archs == db.archs
    ensures if arch in db.confs then r.0 == db else r.1 == |db.confs| == |r.0.confs| - 1
  {
    var i := IndexOf(db.confs, arch);
    if i < |db.confs| then (db, i) else (db.(confs := db.confs + [arch]), i)
  }

  /** Storing a machine with its configuration keeps the numbering aligned. */
  lemma StoringKeepsAligned(db: Database, m: Machine)
    requires db.Valid() && db.Aligned()
    ensures var (db1, arch) := AddArchitecture(db, m);
            AddConfiguration(db1, arch).0.Aligned()
  {
    var (db1, arch) := AddArchitecture(db, m);
    if m in db.archs {
      assert db.confs[arch] == arch;
    }
  }

  /** The machine loaded to undo a merge: the architecture whose row has the
      number of the configuration. */
  function Reload(db: Database, conf: nat): Option<Machine>
  {
    if conf < |db.archs| then Some(db.archs[conf]) else None
  }

  /** It is the configuration's own machine exactly when the two row numbers agree. */
  lemma ReloadRestores(db: Database, conf: nat)
    requires db.Valid() && conf < |db.confs|
    ensures Reload(db, conf) == Some(db.archs[db.confs[conf]]) <==> conf == db.confs[conf]
  {
  }

  /** Two machines of which only the second has a configuration. */
  function Misnumbered(a: Machine, b: Machine): Database { Database([a, b], [1]) }

  /** A refused merge of the second machine, stored by then, goes back to the first. */
  lemma RefusedMergeLoadsAnother(a: Machine, b: Machine, merged: Machine)
    requires a != b
    ensures var db := Misnumbered(a, b);
            && db.Valid() && IndexOf(db.confs, 1) == 0 && db.archs[db.confs[0]] == b
            && var (db1, arch) := AddArchitecture(db, merged);
            Reload(AddConfiguration(db1, arch).0, 0) == Some(a)
  {
    assert IndexOf([1], 1) == 0;
  }

  // ----------------------------------------------------------- pair selection

  function Pairs(ports: seq<Port>): (nat, nat) -> bool { (j: nat, k: nat) => Viable(ports, j, k) }

  method SelectPair(ports: seq<Port>, corr: (nat, nat) -> real) returns (pair: Option<(nat, nat)>)
    ensures pair.None? ==> forall j: nat, k: nat :: Viable(ports, j, k) ==> corr(j, k) >= LIMIT
    ensures pair.Some? ==> Viable(ports, pair.value.0, pair.value.1) && corr(pair.value.0, pair.value.1) < LIMIT
    ensures pair.Some? ==> forall j: nat, k: nat :: Viable(ports, j, k) ==>
              && corr(pair.value.0, pair.value.1) <= corr(j, k)
              && (j < pair.value.0 || (j == pair.value.0 && k < pair.value.1) ==> corr(pair.value.0, pair.value.1) < corr(j, k))
  {
    var minCorr := LIMIT;
    pair := None;
    for j := 0 to |ports|
      invariant SmallestBefore(Pairs(ports), corr, pair, minCorr, j, 0)
    {
      for k := j + 1 to |ports|
        invariant SmallestBefore(Pairs(ports), corr, pair, minCorr, j, k)
      {
        if ports[j].isInput != ports[k].isInput {
          continue;
        }
        if corr(j, k) < minCorr {
          minCorr := corr(j, k);
          pair := Some((j, k));
        }
      }
    }
  }

  /** Three ports have two of the same direction. */
  lemma ThreePortsHaveAPair(ports: seq<Port>)
    requires |ports| > 2
    ensures Viable(ports, 0, 1) || Viable(ports, 0, 2) || Viable(ports, 1, 2)
  {
  }

  // ---------------------------------------------------------------- the loop

  /** What the evaluator answers: success and the cycle counts. */
  datatype Evaluation = Evaluation(ok: bool, cycles: seq<nat>)

  datatype World = World(
    corr: nat -> (nat, nat) -> real,
    evaluate: (nat, Machine) -> Evaluation,
    ccThreshold: nat,
    stopPortCount: int)

  datatype Verdict = Accepted | OverThreshold | Failed

  /** The largest cycle count decides. */
  function Judge(w: World, e: Evaluation): Verdict
  {
    if !e.ok || e.cycles == [] then Failed
    else if w.ccThreshold != 0 && exists c :: c in e.cycles && c > w.ccThreshold then OverThreshold
    else Accepted
  }

  /** The evaluator simulated the machine, and no application exceeds the threshold. */
  ghost predicate Passes(w: World, e: Evaluation)
  {
    e.ok && e.cycles != [] && (w.ccThreshold == 0 || forall c :: c in e.cycles ==> c <= w.ccThreshold)
  }

  lemma JudgeMeans(w: World, e: Evaluation)
    ensures Judge(w, e) == Accepted <==> e.ok && e.cycles != [] && (w.ccThreshold == 0 || forall c :: c in e.cycles ==> c <= w.ccThreshold)
    ensures Judge(w, e) == Failed <==> !e.ok || e.cycles == []
  {
  }

  /** Thrown: a file or machine was looked up that does not exist, or no pair of
      ports was found. */
  datatype Outcome = Configurations(ids: seq<nat>) | Thrown

  /** The position of a file by name. */
  function Find(m: Machine, name: nat): (i: nat)
    ensures i <= |m| && (i < |m| ==> m[i].name == name)
    ensures i == |m| ==> !HasFile(m, name)
  {
    if m == [] then 0 else if m[0].name == name then 0 else 1 + Find(m[1..], name)
  }

  /** Port b is gone, and port a, of the same direction, has the buses of both. */
  ghost predicate PortsMerged(ports: seq<Port>, a: nat, b: nat, after: seq<Port>)
  {
    && a < b < |ports| && ports[a].isInput == ports[b].isInput && |after| == |ports| - 1
    && after[a].isInput == ports[a].isInput && after[a].buses == ports[a].buses + ports[b].buses
    && (forall k :: 0 <= k < b && k != a ==> after[k] == ports[k])
    && (forall k :: b < k < |ports| ==> after[k - 1] == ports[k])
  }

  /** Of the pairs of one direction this is the first with the smallest correlation. */
  ghost predicate LeastUsed(ports: seq<Port>, corr: (nat, nat) -> real, a: nat, b: nat)
  {
    forall j: nat, k: nat :: j < k < |ports| && ports[j].isInput == ports[k].isInput ==>
      corr(a, b) <= corr(j, k) && (j < a || (j == a && k < b) ==> corr(a, b) < corr(j, k))
  }

  /** One merge in the file at position f, which has too many ports; all else is the same. */
  ghost predicate OneMerge(w: World, round: nat, from: Machine, f: nat, merged: Machine)
  {
    && f < |from| == |merged| && |from[f].ports| > w.stopPortCount
    && merged[f].name == from[f].name && (forall k :: 0 <= k < |from| && k != f ==> merged[k] == from[k])
    && exists a, b :: PortsMerged(from[f].ports, a, b, merged[f].ports) && LeastUsed(from[f].ports, w.corr(round), a, b)
  }

  /** A round of the loop: the file, the machine before and after its merge, what the
      evaluator said, the configuration to go back to, and the machine that the loop
      goes on with, None when there is none. */
  datatype Round = Round(from: Machine, file: nat, merged: Machine, evaluation: Evaluation, backup: nat, next: Option<Machine>)

  ghost predicate IsRound(w: World, db: Database, round: nat, r: Round)
  {
    && (exists f: nat :: f < |r.from| && r.from[f].name == r.file && OneMerge(w, round, r.from, f, r.merged))
    && r.evaluation == w.evaluate(round, r.merged)
    && (Passes(w, r.evaluation) ==> r.next == Some(r.merged))
    && (!Passes(w, r.evaluation) && r.next.Some? ==> r.backup < |db.archs| && r.next.value == db.archs[r.backup])
  }

  /** The machines that were accepted, in order. */
  ghost function AcceptedIn(w: World, log: seq<Round>): seq<Machine>
  {
    if log == [] then []
    else
      var last := log[|log| - 1];
      AcceptedIn(w, log[..|log| - 1]) + if Passes(w, last.evaluation) then [last.merged] else []
  }

  ghost function LastAccepted(w: World, origin: Machine, log: seq<Round>): Machine
  {
    if AcceptedIn(w, log) == [] then origin else AcceptedIn(w, log)[|AcceptedIn(w, log)| - 1]
  }

  /** The machine the rounds lead to. */
  function Reached(origin: Machine, log: seq<Round>): Machine
  {
    if log == [] then origin
    else if log[|log| - 1].next.Some? then log[|log| - 1].next.value
    else log[|log| - 1].from
  }

  /** A round on top of those before it: it starts from the machine they lead to, and
      would go back to a configuration of the machine that was accepted last. */
  ghost predicate Continues(w: World, db: Database, origin: Machine, before: seq<Round>, r: Round)
    requires db.Valid()
  {
    && IsRound(w, db, |before|, r) && r.from == Reached(origin, before)
    && r.backup < |db.confs| && db.archs[db.confs[r.backup]] == LastAccepted(w, origin, before)
  }

  /** The rounds follow each other. */
  ghost predicate Follow(w: World, db: Database, origin: Machine, log: seq<Round>)
    requires db.Valid()
  {
    log == [] ||
    (Follow(w, db, origin, log[..|log| - 1]) && Continues(w, db, origin, log[..|log| - 1], log[|log| - 1]))
  }

  /** Every refused merge went back to the machine it came from. */
  ghost predicate Restores(w: World, log: seq<Round>)
  {
    forall r :: 0 <= r < |log| && !Passes(w, log[r].evaluation) ==> log[r].next == Some(log[r].from)
  }

  /** The configurations returned are those of the accepted machines. */
  ghost predicate Records(w: World, db: Database, log: seq<Round>, ids: seq<nat>)
    requires db.Valid()
  {
    && |ids| == |AcceptedIn(w, log)|
    && forall k :: 0 <= k < |ids| ==> ids[k] < |db.confs| && db.archs[db.confs[ids[k]]] == AcceptedIn(w, log)[k]
  }

  ghost predicate FewPorts(m: Machine, name: nat, stopPortCount: int)
  {
    exists k :: 0 <= k < |m| && m[k].name == name && |m[k].ports| <= stopPortCount
  }

  ghost predicate HadRefusal(w: World, log: seq<Round>, name: nat)
  {
    exists r :: 0 <= r < |log| && log[r].file == name && !Passes(w, log[r].evaluation)
  }

  /** At some time the file had few enough ports. */
  ghost predicate HadFewPorts(origin: Machine, log: seq<Round>, name: nat, stopPortCount: int)
  {
    exists q :: 0 <= q <= |log| && FewPorts(Reached(origin, log[..q]), name, stopPortCount)
  }

  /** Every file that is not waiting any more had few ports or a refused merge. */
  ghost predicate Settled(w: World, origin: Machine, names: seq<nat>, waiting: seq<nat>, log: seq<Round>)
  {
    forall n :: n in names && n !in waiting ==> HadFewPorts(origin, log, n, w.stopPortCount) || HadRefusal(w, log, n)
  }

  /** When every reload restores, files that had few ports still have. */
  ghost predicate SettledNow(w: World, names: seq<nat>, waiting: seq<nat>, m: Machine, log: seq<Round>)
  {
    forall n :: n in names && n !in waiting ==> FewPorts(m, n, w.stopPortCount) || HadRefusal(w, log, n)
  }

  function Attempts(log: seq<Round>, name: nat): nat
  {
    if log == [] then 0 else Attempts(log[..|log| - 1], name) + if log[|log| - 1].file == name then 1 else 0
  }

  /** Every round is for a file with the fewest attempts among those still to come. */
  ghost predicate Fair(log: seq<Round>)
  {
    forall r, q :: 0 <= r <= q < |log| ==> Attempts(log[..r], log[r].file) <= Attempts(log[..r], log[q].file)
  }

  ghost predicate DistinctNames(names: seq<nat>)
  {
    forall i, j :: 0 <= i < j < |names| ==> names[i] != names[j]
  }

  /** The files before `rfiter` have had one attempt more than the others. */
  ghost predicate RoundRobin(waiting: seq<nat>, rfiter: nat, log: seq<Round>, turns: nat)
  {
    && DistinctNames(waiting) && Fair(log)
    && (forall p :: 0 <= p < |waiting| ==> Attempts(log, waiting[p]) == if p < rfiter then turns + 1 else turns)
    && Fewest(waiting, log)
  }

  lemma FairGrows(waiting: seq<nat>, log: seq<Round>, r: Round)
    requires Fair(log) && r.file in waiting
    requires Fewest(waiting, log)
    ensures Fair(log + [r])
  {
    var next := log + [r];
    forall k, q | 0 <= k <= q < |next| ensures Attempts(next[..k], next[k].file) <= Attempts(next[..k], next[q].file) {
      assert next[..k] == log[..k];
    }
  }

  /** The same for names without repetition. */
  ghost predicate Turns(names: seq<nat>, waiting: seq<nat>, rfiter: nat, log: seq<Round>, turns: nat)
  {
    DistinctNames(names) ==> RoundRobin(waiting, rfiter, log, turns)
  }

  lemma NextTurn(names: seq<nat>, waiting: seq<nat>, log: seq<Round>, turns: nat)
    requires Turns(names, waiting, |waiting|, log, turns)
    ensures Turns(names, waiting, 0, log, turns + 1)
  {
  }

  lemma RoundAdded(names: seq<nat>, waiting: seq<nat>, rfiter: nat, log: seq<Round>, turns: nat, r: Round)
    requires Turns(names, waiting, rfiter, log, turns) && rfiter < |waiting| && r.file == waiting[rfiter]
    ensures Turns(names, waiting, rfiter + 1, log + [r], turns)
    ensures Turns(names, Without(waiting, rfiter), rfiter, log + [r], turns)
  {
    if DistinctNames(names) {
      TurnTaken(waiting, rfiter, log, turns, r);
      TurnDropped(waiting, rfiter, rfiter + 1, log + [r], turns);
    }
  }

  lemma AttemptsAdded(log: seq<Round>, r: Round)
    ensures forall n :: Attempts(log + [r], n) == Attempts(log, n) + if r.file == n then 1 else 0
  {
    assert (log + [r])[..|log|] == log;
  }

  /** The fewest attempts of all files that wait. */
  ghost predicate Fewest(waiting: seq<nat>, log: seq<Round>)
  {
    forall r, n :: 0 <= r < |log| && n in waiting ==> Attempts(log[..r], log[r].file) <= Attempts(log[..r], n)
  }

  lemma FewestAdded(waiting: seq<nat>, log: seq<Round>, r: Round)
    requires Fewest(waiting, log) && forall n :: n in waiting ==> Attempts(log, r.file) <= Attempts(log, n)
    ensures Fewest(waiting, log + [r])
  {
    var next := log + [r];
    forall k, n | 0 <= k < |next| && n in waiting ensures Attempts(next[..k], next[k].file) <= Attempts(next[..k], n) {
      assert next[..k] == log[..k];
      if k == |log| {
        assert log[..k] == log;
      } else {
        assert next[k] == log[k];
      }
    }
  }

  lemma TurnTaken(waiting: seq<nat>, rfiter: nat, log: seq<Round>, turns: nat, r: Round)
    requires RoundRobin(waiting, rfiter, log, turns) && rfiter < |waiting| && r.file == waiting[rfiter]
    ensures RoundRobin(waiting, rfiter + 1, log + [r], turns)
  {
    FairGrows(waiting, log, r);
    AttemptsAdded(log, r);
    forall n | n in waiting ensures Attempts(log, r.file) <= Attempts(log, n) {
      var p :| 0 <= p < |waiting| && waiting[p] == n;
    }
    FewestAdded(waiting, log, r);
  }

  /** The file that has just had, or would have, its turn is taken out. */
  lemma TurnDropped(waiting: seq<nat>, k: nat, rfiter: nat, log: seq<Round>, turns: nat)
    requires RoundRobin(waiting, rfiter, log, turns) && k < |waiting| && k <= rfiter <= k + 1
    ensures RoundRobin(Without(waiting, k), k, log, turns)
  {
    WithoutOne(waiting, k);
  }

  /** A file is taken out of the list. */
  lemma WithoutOne(waiting: seq<nat>, rfiter: nat)
    requires rfiter < |waiting|
    ensures forall p :: 0 <= p < |waiting| - 1 ==> Without(waiting, rfiter)[p] == waiting[if p < rfiter then p else p + 1]
    ensures forall n :: n in Without(waiting, rfiter) ==> n in waiting
    ensures DistinctNames(waiting) ==> DistinctNames(Without(waiting, rfiter)) && waiting[rfiter] !in Without(waiting, rfiter)
  {
  }

  lemma FileDropped(names: seq<nat>, waiting: seq<nat>, rfiter: nat, log: seq<Round>, turns: nat)
    requires Turns(names, waiting, rfiter, log, turns) && rfiter < |waiting|
    ensures Turns(names, Without(waiting, rfiter), rfiter, log, turns)
  {
    if DistinctNames(names) {
      TurnDropped(waiting, rfiter, rfiter, log, turns);
    }
  }

  /** Merges the pair of ports of the file that are least used together. */
  method ChooseMerge(w: World, round: nat, mach: Machine, f: nat) returns (merged: Option<Machine>)
    requires f < |mach| && |mach[f].ports| > w.stopPortCount
    ensures merged.Some? ==> Keeps(mach, merged.value) && TotalPorts(merged.value) < TotalPorts(mach)
    ensures merged.Some? ==> OneMerge(w, round, mach, f, merged.value)
    ensures merged.None? ==> w.stopPortCount < 2 || !Measurable(w.corr)
  {
    var ports := mach[f].ports;
    var pair := SelectPair(ports, w.corr(round));
    if pair.None? {
      PairIsFound(w, ports, round);
      return None;
    }
    var (a, b) := pair.value;
    var file := mach[f].(ports := MergePorts(ports, a, b));
    MergeKeepsFile(mach, f, a, b);
    TotalPortsUpdate(mach, f, file);
    assert PortsMerged(ports, a, b, file.ports) && LeastUsed(ports, w.corr(round), a, b);
    return Some(mach[f := file]);
  }

  class Minimizer {
    var db: Database

    constructor (db: Database)
      ensures this.db == db
    {
      this.db := db;
    }

    /** Stores the merged machine and has it judged. A refused merge goes back to
        configuration `conf`; `restored` tells whether its own machine came back. */
    method TryMerge(w: World, round: nat, conf: nat, merged: Machine)
      returns (verdict: Verdict, next: Option<Machine>, nextConf: nat, confId: nat, ghost restored: bool)
      requires db.Valid() && conf in db.confs && conf < |db.archs|
      modifies this
      ensures db.Valid() && Grows(old(db), db) && nextConf in db.confs && nextConf < |db.archs|
      ensures old(db).Aligned() ==> db.Aligned() && restored
      ensures verdict == Judge(w, w.evaluate(round, merged))
      ensures verdict == Accepted ==>
                next == Some(merged) && db.archs[nextConf] == merged && confId < |db.confs| && db.confs[confId] == nextConf
      ensures verdict != Accepted ==> nextConf == conf && (restored ==> next == Some(db.archs[conf]))
      ensures restored <==> verdict == Accepted || IndexOf(old(db).confs, conf) == conf
      ensures verdict != Accepted ==> next == Reload(db, IndexOf(old(db).confs, conf))
    {
      var confBackupID := IndexOf(db.confs, conf);
      if db.Aligned() {
        StoringKeepsAligned(db, merged);
      }
      var (db1, archId) := AddArchitecture(db, merged);
      var (db2, id) := AddConfiguration(db1, archId);
      db := db2;
      verdict := Judge(w, w.evaluate(round, merged));
      confId := id;
      if verdict == Accepted {
        return verdict, Some(merged), archId, id, true;
      }
      ReloadRestores(db, confBackupID);
      return verdict, Reload(db, confBackupID), conf, id, confBackupID == conf;
    }

    /** A round of the loop, for a file with too many ports: merges, stores, evaluates,
        and records the machine or goes back. None when no pair is found. */
    method MergeFile(w: World, round: nat, conf: nat, mach: Machine, f: nat, ids: seq<nat>, ghost before: Database, ghost origin: Machine,
                     ghost names: seq<nat>, ghost waiting: seq<nat>, ghost rfiter: nat, ghost log: seq<Round>, ghost restored: bool)
      returns (verdict: Option<Verdict>, next: Option<Machine>, nextConf: nat, nextIds: seq<nat>, ghost ok: bool, ghost r: Round)
      requires Sound(before, origin, db, conf, mach, ids, restored) && round == |log|
      requires Logged(w, origin, db, conf, mach, ids, names, waiting, log, restored)
      requires rfiter < |waiting| && f < |mach| && mach[f].name == waiting[rfiter] && |mach[f].ports| > w.stopPortCount
      modifies this
      ensures verdict.None? ==> (w.stopPortCount < 2 || !Measurable(w.corr)) && db == old(db) && nextConf == conf && nextIds == ids
      ensures verdict.Some? ==> r.file == waiting[rfiter]
      ensures verdict.Some? ==>
                && Logged(w, origin, db, nextConf, Reached(origin, log + [r]), nextIds, names,
                          if verdict.value == Accepted then waiting else Without(waiting, rfiter), log + [r], restored && ok)
                && next == r.next
      ensures verdict.Some? && next.Some? ==>
                Sound(before, origin, db, nextConf, next.value, nextIds, restored && ok) && TotalPortsFall(verdict.value, mach, next.value)
      ensures verdict.Some? && next.None? ==> verdict.value != Accepted && Grows(before, db) && !(restored && ok) && !before.Aligned()
      ensures verdict == Some(Failed) ==> !r.evaluation.ok || r.evaluation.cycles == []
    {
      nextConf, nextIds := conf, ids;
      ok := true;
      var choice := ChooseMerge(w, round, mach, f);
      if choice.None? {
        return None, None, conf, ids, true, Round(mach, 0, mach, w.evaluate(round, mach), 0, None);
      }
      ghost var db0, backup := db, IndexOf(db.confs, conf);
      var judged, confId;
      judged, next, nextConf, confId, ok := TryMerge(w, round, conf, choice.value);
      verdict := Some(judged);
      r := Round(mach, waiting[rfiter], choice.value, w.evaluate(round, choice.value), backup, next);
      StaysSound(before, origin, db0, db, conf, mach, choice.value, nextConf, confId, ids, restored);
      RoundContinues(w, origin, db0, db, conf, mach, ids, names, waiting, log, restored, r, f);
      if judged == Accepted {
        RoundAccepted(w, origin, db0, db, conf, nextConf, mach, ids, names, waiting, log, restored, r, confId);
        nextIds := ids + [confId];
      } else {
        RoundRefused(w, origin, db0, db, conf, mach, ids, names, waiting, log, restored, r, rfiter, ok);
      }
    }

    /**
     The refinement loop over the files in `names`, from the configuration
     `start`, with a log of its rounds. It ends for every evaluator, whatever the
     reloads return. Each round merges one pair of ports of the file whose turn it
     is and goes on with the merged machine or with what going back loads, and
     exactly the accepted machines are recorded. Unless the evaluation failed, at
     the end every file had few enough ports when it was looked at last, or had a
     refused merge. When every reload restores, the machine always keeps the
     directions and the reach of every file.
     */
    method Explore(w: World, start: nat, names: seq<nat>)
      returns (result: Outcome, ghost restored: bool, ghost log: seq<Round>)
      requires db.Valid() && start < |db.confs|
      modifies this
      ensures db.Valid() && Grows(old(db), db)
      ensures (restored <==> Restores(w, log)) && (old(db).Aligned() ==> restored && db.Aligned())
      ensures Follow(w, db, old(db).archs[old(db).confs[start]], log)
      ensures DistinctNames(names) ==> Fair(log)
      ensures result.Configurations? ==> Records(w, db, log, result.ids)
      ensures result.Configurations? ==>
                || Settled(w, old(db).archs[old(db).confs[start]], names, [], log)
                || (log != [] && (!log[|log| - 1].evaluation.ok || log[|log| - 1].evaluation.cycles == []))
      ensures result.Configurations? && restored ==>
                || SettledNow(w, names, [], Reached(old(db).archs[old(db).confs[start]], log), log)
                || (log != [] && (!log[|log| - 1].evaluation.ok || log[|log| - 1].evaluation.cycles == []))
      ensures result.Configurations? && restored ==> AllKeep(old(db).archs[old(db).confs[start]], db, result.ids)
      ensures restored && result.Thrown? ==>
                || !KnownFiles(old(db).archs[old(db).confs[start]], names)
                || w.stopPortCount < 2 || !Measurable(w.corr)
    {
      ghost var before, origin := db, db.archs[db.confs[start]];
      StateAtFirst(w, db, start, names);
      result, restored, log := Refine(w, db.confs[start], db.archs[db.confs[start]], names, before, origin);
    }

    /** A merging round, and whether the loop is left after it. */
    method MergeRound(w: World, round: nat, conf: nat, mach: Machine, f: nat, ids: seq<nat>, sorted: seq<nat>, rfiter: nat,
                      ghost before: Database, ghost origin: Machine, ghost names: seq<nat>, ghost log: seq<Round>,
                      ghost turns: nat, ghost restored: bool)
      returns (left: bool, result: Outcome, nextConf: nat, nextMach: Machine, nextIds: seq<nat>, waiting: seq<nat>, nextFile: nat,
               ghost stillRestored: bool, ghost nextLog: seq<Round>)
      requires State(w, before, origin, db, conf, mach, ids, names, sorted, rfiter, log, turns, restored) && round == |log|
      requires rfiter < |sorted| && f < |mach| && mach[f].name == sorted[rfiter] && |mach[f].ports| > w.stopPortCount
      modifies this
      ensures left ==> Ended(w, before, origin, db, names, result, stillRestored, nextLog)
      ensures !left ==>
                && State(w, before, origin, db, nextConf, nextMach, nextIds, names, waiting, nextFile, nextLog, turns, stillRestored)
                && |nextLog| == |log| + 1
      ensures !left ==> |waiting| < |sorted| || (|waiting| == |sorted| && TotalPorts(nextMach) < TotalPorts(mach))
    {
      var verdict, next;
      ghost var ok, r;
      left, result, nextMach, waiting, nextFile, stillRestored, nextLog := true, Thrown, mach, sorted, rfiter, restored, log;
      verdict, next, nextConf, nextIds, ok, r := MergeFile(w, round, conf, mach, f, ids, before, origin, names, sorted, rfiter, log, restored);
      if verdict.None? {
        return;
      }
      RoundAdded(names, sorted, rfiter, log, turns, r);
      AmongWithout(sorted, names, rfiter);
      stillRestored, nextLog := restored && ok, log + [r];
      if verdict.value != Accepted {
        waiting := Without(sorted, rfiter);
      } else {
        nextFile := rfiter + 1;
      }
      if next.None? {
        return;
      }
      nextMach := next.value;
      if verdict.value == Failed {
        result := Configurations(nextIds);
        return;
      }
      left := false;
    }

    /** The loop itself. */
    method Refine(w: World, startConf: nat, startMach: Machine, names: seq<nat>, ghost before: Database, ghost origin: Machine)
      returns (result: Outcome, ghost restored: bool, ghost log: seq<Round>)
      requires State(w, before, origin, db, startConf, startMach, [], names, names, 0, [], 0, true)
      modifies this
      ensures Ended(w, before, origin, db, names, result, restored, log)
    {
      var conf, mach, sorted, round := startConf, startMach, names, 0;
      var rfiter: nat := 0;
      var ids: seq<nat> := [];
      ghost var turns := 0;
      restored, log := true, [];
      while sorted != []
        invariant State(w, before, origin, db, conf, mach, ids, names, sorted, rfiter, log, turns, restored) && round == |log|
        decreases |sorted|, TotalPorts(mach)
      {
        if rfiter == |sorted| {
          NextTurn(names, sorted, log, turns);
          rfiter := 0;
          turns := turns + 1;
        }
        var f := Find(mach, sorted[rfiter]);
        if f == |mach| {
          FileUnknown(w, before, origin, db, conf, mach, ids, names, sorted, rfiter, log, turns, restored);
          return Thrown, restored, log;
        }
        if |mach[f].ports| <= w.stopPortCount {
          SmallFileDropped(w, origin, db, conf, mach, ids, names, sorted, log, restored, rfiter, f);
          FileDropped(names, sorted, rfiter, log, turns);
          AmongWithout(sorted, names, rfiter);
          sorted := Without(sorted, rfiter);
          continue;
        }
        var left;
        left, result, conf, mach, ids, sorted, rfiter, restored, log :=
          MergeRound(w, round, conf, mach, f, ids, sorted, rfiter, before, origin, names, log, turns, restored);
        if left {
          return result, restored, log;
        }
        round := round + 1;
      }
      return Configurations(ids), restored, log;
    }
  }

  /** The state of the loop, with its log. */
  ghost predicate State(w: World, before: Database, origin: Machine, db: Database, conf: nat, mach: Machine, ids: seq<nat>,
                        names: seq<nat>, waiting: seq<nat>, rfiter: nat, log: seq<Round>, turns: nat, restored: bool)
  {
    && Sound(before, origin, db, conf, mach, ids, restored)
    && Logged(w, origin, db, conf, mach, ids, names, waiting, log, restored)
    && Turns(names, waiting, rfiter, log, turns)
    && rfiter <= |waiting| && Among(waiting, names)
  }

  ghost predicate Among(waiting: seq<nat>, names: seq<nat>)
  {
    forall n :: n in waiting ==> n in names
  }

  lemma AmongWithout(waiting: seq<nat>, names: seq<nat>, k: nat)
    requires k < |waiting| && Among(waiting, names)
    ensures Among(Without(waiting, k), names)
  {
    WithoutOne(waiting, k);
  }

  /** What is promised of the outcome. */
  ghost predicate Ended(w: World, before: Database, origin: Machine, db: Database, names: seq<nat>,
                        result: Outcome, restored: bool, log: seq<Round>)
  {
    && db.Valid() && Grows(before, db) && (before.Aligned() ==> restored && db.Aligned())
    && Follow(w, db, origin, log) && (restored <==> Restores(w, log))
    && (DistinctNames(names) ==> Fair(log))
    && (result.Configurations? ==> Records(w, db, log, result.ids))
    && (result.Configurations? ==> Settled(w, origin, names, [], log) || LastFailed(log))
    && (result.Configurations? && restored ==> SettledNow(w, names, [], Reached(origin, log), log) || LastFailed(log))
    && (result.Configurations? && restored ==> AllKeep(origin, db, result.ids))
    && (restored && result.Thrown? ==> !KnownFiles(origin, names) || w.stopPortCount < 2 || !Measurable(w.corr))
  }

  ghost predicate LastFailed(log: seq<Round>)
  {
    log != [] && (!log[|log| - 1].evaluation.ok || log[|log| - 1].evaluation.cycles == [])
  }

  lemma StateAtFirst(w: World, db: Database, start: nat, names: seq<nat>)
    requires db.Valid() && start < |db.confs|
    ensures State(w, db, db.archs[db.confs[start]], db, db.confs[start], db.archs[db.confs[start]], [], names, names, 0, [], 0, true)
  {
  }

  lemma FileUnknown(w: World, before: Database, origin: Machine, db: Database, conf: nat, mach: Machine, ids: seq<nat>,
                    names: seq<nat>, waiting: seq<nat>, rfiter: nat, log: seq<Round>, turns: nat, restored: bool)
    requires State(w, before, origin, db, conf, mach, ids, names, waiting, rfiter, log, turns, restored)
    requires rfiter < |waiting| && !HasFile(mach, waiting[rfiter])
    ensures restored ==> !KnownFiles(origin, names)
  {
    if restored {
      NamesKept(origin, mach, waiting[rfiter]);
      assert waiting[rfiter] in names;
    }
  }

  ghost predicate TotalPortsFall(verdict: Verdict, mach: Machine, next: Machine)
  {
    verdict == Accepted ==> TotalPorts(next) < TotalPorts(mach)
  }

  /** What the log says in the loop. */
  ghost predicate Logged(w: World, origin: Machine, db: Database, conf: nat, mach: Machine, ids: seq<nat>,
                         names: seq<nat>, waiting: seq<nat>, log: seq<Round>, restored: bool)
  {
    && db.Valid() && Follow(w, db, origin, log) && mach == Reached(origin, log)
    && conf < |db.archs| && db.archs[conf] == LastAccepted(w, origin, log)
    && Records(w, db, log, ids) && Settled(w, origin, names, waiting, log)
    && (restored <==> Restores(w, log)) && (restored ==> SettledNow(w, names, waiting, mach, log))
  }

  lemma RecordsStay(w: World, db0: Database, db: Database, log: seq<Round>, ids: seq<nat>)
    requires db0.Valid() && db.Valid() && Grows(db0, db) && Records(w, db0, log, ids)
    ensures Records(w, db, log, ids)
  {
  }

  lemma SettledStays(w: World, origin: Machine, names: seq<nat>, waiting: seq<nat>, log: seq<Round>, r: Round)
    requires Settled(w, origin, names, waiting, log)
    ensures Settled(w, origin, names, waiting, log + [r])
  {
    forall n | n in names && n !in waiting ensures HadFewPorts(origin, log + [r], n, w.stopPortCount) || HadRefusal(w, log + [r], n) {
      if HadRefusal(w, log, n) {
        RefusalStays(w, log, r, n);
      } else {
        var q :| 0 <= q <= |log| && FewPorts(Reached(origin, log[..q]), n, w.stopPortCount);
        assert (log + [r])[..q] == log[..q];
      }
    }
  }

  lemma RefusalStays(w: World, log: seq<Round>, r: Round, name: nat)
    requires HadRefusal(w, log, name)
    ensures HadRefusal(w, log + [r], name)
  {
    var k :| 0 <= k < |log| && log[k].file == name && !Passes(w, log[k].evaluation);
    assert (log + [r])[k] == log[k];
  }

  /** The same files with at most as many ports. */
  ghost predicate FewerPorts(from: Machine, mach: Machine)
  {
    |mach| == |from| && forall k :: 0 <= k < |from| ==> mach[k].name == from[k].name && |mach[k].ports| <= |from[k].ports|
  }

  lemma MergedHasFewer(w: World, db: Database, round: nat, r: Round)
    requires IsRound(w, db, round, r)
    ensures FewerPorts(r.from, r.merged)
  {
  }

  lemma SettledNowStays(w: World, names: seq<nat>, waiting: seq<nat>, from: Machine, mach: Machine, log: seq<Round>, r: Round)
    requires SettledNow(w, names, waiting, from, log)
    requires FewerPorts(from, mach)
    ensures SettledNow(w, names, waiting, mach, log + [r])
  {
    forall n | n in names && n !in waiting ensures FewPorts(mach, n, w.stopPortCount) || HadRefusal(w, log + [r], n) {
      if HadRefusal(w, log, n) {
        RefusalStays(w, log, r, n);
      }
    }
  }

  lemma {:induction false} FollowGrows(w: World, db0: Database, db: Database, origin: Machine, log: seq<Round>)
    requires db0.Valid() && db.Valid() && Grows(db0, db) && Follow(w, db0, origin, log)
    ensures Follow(w, db, origin, log)
    decreases |log|
  {
    if log != [] {
      FollowGrows(w, db0, db, origin, log[..|log| - 1]);
    }
  }

  lemma FollowStays(w: World, db0: Database, db: Database, origin: Machine, log: seq<Round>, r: Round)
    requires db0.Valid() && db.Valid() && Grows(db0, db)
    requires Follow(w, db0, origin, log) && Continues(w, db, origin, log, r)
    ensures Follow(w, db, origin, log + [r])
  {
    FollowGrows(w, db0, db, origin, log);
    assert (log + [r])[..|log|] == log;
  }

  lemma AcceptedAdded(w: World, log: seq<Round>, r: Round)
    ensures AcceptedIn(w, log + [r]) == AcceptedIn(w, log) + if Passes(w, r.evaluation) then [r.merged] else []
  {
    assert (log + [r])[..|log|] == log;
  }

  lemma RestoresAdded(w: World, log: seq<Round>, r: Round)
    ensures Restores(w, log + [r]) <==> Restores(w, log) && (Passes(w, r.evaluation) || r.next == Some(r.from))
  {
    var next := log + [r];
    assert forall k :: 0 <= k < |log| ==> next[k] == log[k];
    assert next[|log|] == r;
    if Restores(w, next) {
      forall k | 0 <= k < |log| && !Passes(w, log[k].evaluation) ensures log[k].next == Some(log[k].from) {
        assert next[k] == log[k];
      }
    }
  }

  lemma RoundContinues(w: World, origin: Machine, db0: Database, db: Database, conf: nat, mach: Machine, ids: seq<nat>,
                       names: seq<nat>, waiting: seq<nat>, log: seq<Round>, restored: bool, r: Round, f: nat)
    requires Logged(w, origin, db0, conf, mach, ids, names, waiting, log, restored) && db.Valid() && Grows(db0, db)
    requires f < |mach| && mach[f].name == r.file && r.from == mach && OneMerge(w, |log|, mach, f, r.merged)
    requires conf in db0.confs && r.backup == IndexOf(db0.confs, conf) && r.evaluation == w.evaluate(|log|, r.merged)
    requires r.next == if Judge(w, r.evaluation) == Accepted then Some(r.merged) else Reload(db, r.backup)
    ensures Continues(w, db, origin, log, r) && (Passes(w, r.evaluation) <==> Judge(w, r.evaluation) == Accepted)
  {
    JudgeMeans(w, r.evaluation);
    assert IsRound(w, db, |log|, r);
  }

  lemma RoundAccepted(w: World, origin: Machine, db0: Database, db: Database, conf: nat, nextConf: nat, mach: Machine, ids: seq<nat>,
                      names: seq<nat>, waiting: seq<nat>, log: seq<Round>, restored: bool, r: Round, confId: nat)
    requires Logged(w, origin, db0, conf, mach, ids, names, waiting, log, restored) && db.Valid() && Grows(db0, db)
    requires Continues(w, db, origin, log, r) && Passes(w, r.evaluation)
    requires confId < |db.confs| && db.confs[confId] == nextConf && db.archs[nextConf] == r.merged
    ensures Logged(w, origin, db, nextConf, r.merged, ids + [confId], names, waiting, log + [r], restored)
  {
    FollowStays(w, db0, db, origin, log, r);
    RecordsStay(w, db0, db, log, ids);
    AcceptedRecorded(w, origin, db, log, ids, r, confId);
    RestoresAdded(w, log, r);
    SettledStays(w, origin, names, waiting, log, r);
    if restored {
      MergedHasFewer(w, db, |log|, r);
      SettledNowStays(w, names, waiting, mach, r.merged, log, r);
    }
  }

  lemma AcceptedRecorded(w: World, origin: Machine, db: Database, log: seq<Round>, ids: seq<nat>, r: Round, confId: nat)
    requires db.Valid() && Records(w, db, log, ids) && Passes(w, r.evaluation) && r.next == Some(r.merged)
    requires confId < |db.confs| && db.archs[db.confs[confId]] == r.merged
    ensures Records(w, db, log + [r], ids + [confId])
    ensures LastAccepted(w, origin, log + [r]) == Reached(origin, log + [r]) == r.merged
  {
    AcceptedAdded(w, log, r);
  }

  lemma RoundRefused(w: World, origin: Machine, db0: Database, db: Database, conf: nat, mach: Machine, ids: seq<nat>, names: seq<nat>,
                     waiting: seq<nat>, log: seq<Round>, restored: bool, r: Round, rfiter: nat, ok: bool)
    requires Logged(w, origin, db0, conf, mach, ids, names, waiting, log, restored) && db.Valid() && Grows(db0, db)
    requires Continues(w, db, origin, log, r) && !Passes(w, r.evaluation)
    requires rfiter < |waiting| && r.file == waiting[rfiter] && (restored ==> (ok <==> r.next == Some(mach)))
    ensures Logged(w, origin, db, conf, Reached(origin, log + [r]), ids, names, Without(waiting, rfiter), log + [r], restored && ok)
  {
    FollowStays(w, db0, db, origin, log, r);
    RecordsStay(w, db0, db, log, ids);
    AcceptedAdded(w, log, r);
    RestoresAdded(w, log, r);
    SettledStays(w, origin, names, waiting, log, r);
    assert (log + [r])[|log|] == r;
    assert HadRefusal(w, log + [r], r.file);
    WithoutMembers(waiting, rfiter);
    if restored && ok {
      SettledNowStays(w, names, waiting, mach, mach, log, r);
    }
  }

  lemma WithoutMembers(waiting: seq<nat>, k: nat)
    requires k < |waiting|
    ensures forall n :: n in waiting && n != waiting[k] ==> n in Without(waiting, k)
  {
    forall n | n in waiting && n != waiting[k] ensures n in Without(waiting, k) {
      var p :| 0 <= p < |waiting| && waiting[p] == n;
      assert Without(waiting, k)[if p < k then p else p - 1] == n;
    }
  }

  lemma SmallFileDropped(w: World, origin: Machine, db: Database, conf: nat, mach: Machine, ids: seq<nat>, names: seq<nat>,
                         waiting: seq<nat>, log: seq<Round>, restored: bool, rfiter: nat, f: nat)
    requires Logged(w, origin, db, conf, mach, ids, names, waiting, log, restored) && rfiter < |waiting|
    requires f < |mach| && mach[f].name == waiting[rfiter] && |mach[f].ports| <= w.stopPortCount
    ensures Logged(w, origin, db, conf, mach, ids, names, Without(waiting, rfiter), log, restored)
  {
    assert FewPorts(mach, waiting[rfiter], w.stopPortCount);
    assert log[..|log|] == log;
    assert HadFewPorts(origin, log, waiting[rfiter], w.stopPortCount);
    WithoutMembers(waiting, rfiter);
  }

  /** The state of the refinement loop. */
  ghost predicate Sound(before: Database, origin: Machine, db: Database, conf: nat, mach: Machine, ids: seq<nat>, restored: bool)
  {
    && db.Valid() && Grows(before, db) && conf in db.confs && conf < |db.archs|
    && (before.Aligned() ==> db.Aligned() && restored)
    && (restored ==> mach == db.archs[conf] && Keeps(origin, mach) && AllKeep(origin, db, ids))
  }

  /** Storing a merged machine keeps the state sound with the old machine, and
      with the merged one as the newest configuration. */
  lemma StaysSound(before: Database, origin: Machine, db0: Database, db: Database, conf: nat, mach: Machine, merged: Machine,
                   nextConf: nat, confId: nat, ids: seq<nat>, restored: bool)
    requires Sound(before, origin, db0, conf, mach, ids, restored) && Keeps(mach, merged)
    requires db.Valid() && Grows(db0, db) && (db0.Aligned() ==> db.Aligned())
    ensures Sound(before, origin, db, conf, mach, ids, restored)
    ensures nextConf in db.confs && nextConf < |db.archs| && db.archs[nextConf] == merged &&
            confId < |db.confs| && db.confs[confId] == nextConf ==>
              Sound(before, origin, db, nextConf, merged, ids + [confId], restored)
  {
    if restored {
      KeepsThrough(origin, mach, merged);
      StillKeep(origin, db0, db, ids);
    }
  }

  /** Rows are only added. */
  ghost predicate Grows(before: Database, after: Database)
  {
    before.archs <= after.archs && before.confs <= after.confs
  }

  /** The configurations are of machines that keep what the first one had. */
  ghost predicate AllKeep(origin: Machine, db: Database, ids: seq<nat>)
    requires db.Valid()
  {
    forall c :: c in ids ==> c < |db.confs| && Keeps(origin, db.archs[db.confs[c]])
  }

  lemma StillKeep(origin: Machine, before: Database, after: Database, ids: seq<nat>)
    requires before.Valid() && after.Valid() && Grows(before, after) && AllKeep(origin, before, ids)
    ensures AllKeep(origin, after, ids)
  {
  }

  lemma KeepsThrough(a: Machine, b: Machine, c: Machine)
    requires Keeps(a, b) && Keeps(b, c)
    ensures Keeps(a, c)
  {
  }

  predicate HasFile(m: Machine, name: nat)
  {
    exists k :: 0 <= k < |m| && m[k].name == name
  }

  lemma NamesKept(origin: Machine, m: Machine, name: nat)
    requires Keeps(origin, m)
    ensures HasFile(origin, name) ==> HasFile(m, name)
  {
    if HasFile(origin, name) {
      var k :| 0 <= k < |origin| && origin[k].name == name;
      assert SameFile(origin[k], m[k]);
    }
  }

  lemma PairIsFound(w: World, ports: seq<Port>, round: nat)
    requires |ports| > w.stopPortCount
    requires forall j: nat, k: nat :: Viable(ports, j, k) ==> w.corr(round)(j, k) >= LIMIT
    ensures w.stopPortCount < 2 || !Measurable(w.corr)
  {
    if w.stopPortCount >= 2 {
      ThreePortsHaveAPair(ports);
    }
  }

  ghost predicate KnownFiles(m: Machine, names: seq<nat>)
  {
    forall n :: n in names ==> HasFile(m, n)
  }

  lemma MergeKeepsFile(m: Machine, f: nat, a: nat, b: nat)
    requires f < |m| && Viable(m[f].ports, a, b)
    ensures Keeps(m, m[f := m[f].(ports := MergePorts(m[f].ports, a, b))])
  {
    MergeKeepsPorts(m[f].ports, a, b, true);
    MergeKeepsPorts(m[f].ports, a, b, false);
  }
}
