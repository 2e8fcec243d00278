/**
 FUMergeMinimizer: the operations of one function unit are merged into another,
 reusing, widening or creating ports, and pairs of units that are rarely used
 together are merged until few are left.
 */
module FunctionUnitMerge {
  import opened BitVectors
  import opened PairSelection

  // ---------------------------------------------------------- function units

  /** A generated name ("in1", "out2", "in1t", ...) or any other. */
  datatype PortName = Generated(isInput: bool, index: nat, triggering: bool) | Other(id: nat)

  /** A port is an input or an output by the socket it is connected to. */
  datatype Port = Port(name: PortName, width: nat, isInput: bool, triggering: bool)

  /** `binding[k]` is the position of the port of operand k+1; `readAt` and
      `writtenAt` are the pairs of an operand and a cycle of the pipeline. */
  datatype HWOperation = HWOperation(
    name: string, binding: seq<nat>, readAt: set<(nat, nat)>, writtenAt: set<(nat, nat)>, latency: nat)

  /** An operand of an operation in the operation pool. */
  datatype Operand = Operand(isInput: bool, elementWidth: nat, elementCount: nat)

  type Pool = string -> seq<Operand>

  datatype FunctionUnit = FunctionUnit(name: string, isLSU: bool, ports: seq<Port>, operations: seq<HWOperation>)

  const MEMORY_OPERATIONS: set<string> := {"ld32", "st32", "ld8", "ld16", "ldu8", "ldu16"}

  /** The operand width, with the workaround for triggering memory operands. */
  function OperandWidth(pool: Pool, op: string, k: nat, triggering: bool): nat
    requires k < |pool(op)|
  {
    if triggering && op in MEMORY_OPERATIONS then 32
    else pool(op)[k].elementWidth * pool(op)[k].elementCount
  }

  /** The bits of elements side by side. */
  ghost function SideBySide(count: nat, width: nat): nat
  {
    if count == 0 then 0 else width + SideBySide(count - 1, width)
  }

  /** The bits that operand k of the operation needs on a port: those of its elements,
      but 32 on the triggering port of a memory operation that the source names. */
  ghost function BitsOf(pool: Pool, op: string, k: nat, triggering: bool): nat
    requires k < |pool(op)|
  {
    if triggering && (op == "ld32" || op == "st32" || op == "ld8" || op == "ld16" || op == "ldu8" || op == "ldu16") then 32
    else SideBySide(pool(op)[k].elementCount, pool(op)[k].elementWidth)
  }

  lemma {:induction false} SideBySideIsProduct(count: nat, width: nat)
    ensures SideBySide(count, width) == width * count
  {
    if count > 0 {
      SideBySideIsProduct(count - 1, width);
    }
  }

  lemma OperandWidthMeans(pool: Pool, op: string, k: nat, triggering: bool)
    requires k < |pool(op)|
    ensures OperandWidth(pool, op, k, triggering) == BitsOf(pool, op, k, triggering)
  {
    SideBySideIsProduct(pool(op)[k].elementCount, pool(op)[k].elementWidth);
  }

  /** Operand k is bound to a port of its direction. */
  predicate Bound(pool: Pool, ports: seq<Port>, op: string, k: nat, port: nat)
    requires k < |pool(op)|
  {
    port < |ports| && ports[port].isInput == pool(op)[k].isInput
  }

  /** The port is wide enough, too. */
  predicate BoundWell(pool: Pool, ports: seq<Port>, op: string, k: nat, port: nat)
    requires k < |pool(op)|
  {
    && Bound(pool, ports, op, k, port)
    && ports[port].width >= OperandWidth(pool, op, k, ports[port].triggering)
  }

  predicate Different(s: seq<nat>) { forall i, j :: 0 <= i < j < |s| ==> s[i] != s[j] }

  /** The operation's operands have pairwise different ports of their directions. */
  predicate ValidOperation(pool: Pool, ports: seq<Port>, op: HWOperation)
  {
    && |op.binding| == |pool(op.name)| && Different(op.binding)
    && (forall k :: 0 <= k < |op.binding| ==> Bound(pool, ports, op.name, k, op.binding[k]))
    && (forall r :: r in op.readAt + op.writtenAt ==> 1 <= r.0 <= |op.binding| && r.1 < op.latency)
  }

  /** All operands have ports that are wide enough. */
  predicate WideOperation(pool: Pool, ports: seq<Port>, op: HWOperation)
  {
    && |op.binding| == |pool(op.name)|
    && forall k :: 0 <= k < |op.binding| ==> BoundWell(pool, ports, op.name, k, op.binding[k])
  }

  predicate Wide(pool: Pool, fu: FunctionUnit)
  {
    forall k :: 0 <= k < |fu.operations| ==> WideOperation(pool, fu.ports, fu.operations[k])
  }

  /** At most one port triggers, and triggering ports are inputs. */
  predicate ValidPorts(ports: seq<Port>)
  {
    && (forall i, j :: 0 <= i < j < |ports| ==> !(ports[i].triggering && ports[j].triggering))
    && (forall i :: 0 <= i < |ports| && ports[i].triggering ==> ports[i].isInput)
    && (forall i, j :: 0 <= i < j < |ports| ==> ports[i].name != ports[j].name)
  }

  predicate Valid(pool: Pool, fu: FunctionUnit)
  {
    && ValidPorts(fu.ports)
    && (forall k :: 0 <= k < |fu.operations| ==> ValidOperation(pool, fu.ports, fu.operations[k]))
    && (forall j, k :: 0 <= j < k < |fu.operations| ==> fu.operations[j].name != fu.operations[k].name)
  }

  function OperationNames(operations: seq<HWOperation>): set<string>
  {
    set op | op in operations :: op.name
  }

  /** Ports stay what they are and never shrink; new ones come behind. */
  predicate Grown(before: seq<Port>, after: seq<Port>)
  {
    && |before| <= |after|
    && forall i :: 0 <= i < |before| ==>
         before[i].width <= after[i].width && after[i] == before[i].(width := after[i].width)
  }

  predicate HasTrigger(ports: seq<Port>) { exists p :: p in ports && p.triggering }

  // -------------------------------------------------------- creating a port

  predicate HasPort(ports: seq<Port>, name: PortName) { exists p :: p in ports && p.name == name }

  /** The largest index among the generated names. */
  function MaxIndex(ports: seq<Port>): nat
  {
    if ports == [] then 0
    else
      var rest, name := MaxIndex(ports[..|ports| - 1]), ports[|ports| - 1].name;
      if name.Generated? && name.index > rest then name.index else rest
  }

  lemma {:induction false} MaxIndexBounds(ports: seq<Port>, isInput: bool, index: nat, triggering: bool)
    requires HasPort(ports, Generated(isInput, index, triggering))
    ensures index <= MaxIndex(ports)
  {
    var p :| p in ports && p.name == Generated(isInput, index, triggering);
    var front := ports[..|ports| - 1];
    assert ports == front + [ports[|ports| - 1]];
    if p in front {
      MaxIndexBounds(front, isInput, index, triggering);
    }
  }

  /** FUPort::setTriggering(true) takes the role from the port that had it. */
  function ClearTrigger(ports: seq<Port>): seq<Port>
  {
    if ports == [] then []
    else if ports[0].triggering then [ports[0].(triggering := false)] + ports[1..]
    else [ports[0]] + ClearTrigger(ports[1..])
  }

  lemma {:induction false} ClearedKeepsLength(ports: seq<Port>)
    ensures |ClearTrigger(ports)| == |ports|
  {
    if ports != [] {
      ClearedKeepsLength(ports[1..]);
    }
  }

  lemma {:induction false} NothingToClear(ports: seq<Port>)
    requires !HasTrigger(ports)
    ensures ClearTrigger(ports) == ports
  {
    if ports != [] {
      assert ports[0] in ports;
      NothingToClear(ports[1..]);
    }
  }

  ghost predicate FirstTrigger(ports: seq<Port>, i: nat)
  {
    i < |ports| && ports[i].triggering && forall j :: 0 <= j < i ==> !ports[j].triggering
  }

  /** Only the first trigger port loses the role, and nothing else changes. */
  lemma {:induction false} ClearsFirst(ports: seq<Port>, i: nat)
    requires FirstTrigger(ports, i)
    ensures ClearTrigger(ports) == ports[i := ports[i].(triggering := false)]
  {
    if i > 0 {
      ClearsFirst(ports[1..], i - 1);
      assert ports[i := ports[i].(triggering := false)] == [ports[0]] + ports[1..][i - 1 := ports[i].(triggering := false)];
    }
  }

  /** The first index, from 1, whose generated name is free. */
  predicate FirstFree(ports: seq<Port>, isInput: bool, triggering: bool, index: nat)
  {
    && index >= 1 && !HasPort(ports, Generated(isInput, index, triggering))
    && forall i :: 1 <= i < index ==> HasPort(ports, Generated(isInput, i, triggering))
  }

  /** A new port with the first free generated name. */
  method CreateFUPort(ports: seq<Port>, width: nat, isInput: bool, isTriggering: bool) returns (after: seq<Port>, idx: nat)
    ensures FirstFree(ports, isInput, isTriggering, idx)
    ensures after == (if isTriggering then ClearTrigger(ports) else ports)
                     + [Port(Generated(isInput, idx, isTriggering), width, isInput, isTriggering)]
    ensures |after| == |ports| + 1 && (!isTriggering || !HasTrigger(ports) ==> after[..|ports|] == ports)
    ensures forall i: nat :: isTriggering && FirstTrigger(ports, i) ==> after[..|ports|] == ports[i := ports[i].(triggering := false)]
  {
    idx := 1;
    while HasPort(ports, Generated(isInput, idx, isTriggering))
      invariant idx >= 1 && forall i :: 1 <= i < idx ==> HasPort(ports, Generated(isInput, i, isTriggering))
      decreases MaxIndex(ports) + 1 - idx
    {
      MaxIndexBounds(ports, isInput, idx, isTriggering);
      idx := idx + 1;
    }
    var cleared := if isTriggering then ClearTrigger(ports) else ports;
    after := cleared + [Port(Generated(isInput, idx, isTriggering), width, isInput, isTriggering)];
    ClearedKeepsLength(ports);
    assert after[..|ports|] == cleared;
    if !HasTrigger(ports) {
      NothingToClear(ports);
    }
    forall i: nat | isTriggering && FirstTrigger(ports, i) ensures cleared == ports[i := ports[i].(triggering := false)] {
      ClearsFirst(ports, i);
    }
  }

  // ---------------------------------------------------- merging an operation

  /** The port of A may serve an operand that B binds to a port like this. */
  predicate Suits(p: Port, isInput: bool, triggering: bool)
  {
    if triggering then p.triggering else (isInput && p.isInput && !p.triggering) || (!isInput && !p.isInput)
  }

  /** The first suitable port that the new operation has not bound yet. */
  method FindPort(ports: seq<Port>, bound: seq<nat>, isInput: bool, triggering: bool) returns (found: Option<nat>)
    ensures found.Some? ==> found.value < |ports| && found.value !in bound && Suits(ports[found.value], isInput, triggering)
    ensures forall i :: 0 <= i < (if found.Some? then found.value else |ports|) ==>
              i in bound || !Suits(ports[i], isInput, triggering)
  {
    for pid := 0 to |ports|
      invariant forall i :: 0 <= i < pid ==> i in bound || !Suits(ports[i], isInput, triggering)
    {
      if pid in bound {
        continue;
      }
      if triggering {
        if ports[pid].triggering {
          return Some(pid);
        } else {
          continue;
        }
      } else if (!ports[pid].triggering && ports[pid].isInput && isInput) || (!ports[pid].isInput && !isInput) {
        return Some(pid);
      }
    }
    return None;
  }

  /** The first operands of B's operation are bound in A: to different, fitting
      ports that trigger exactly where B's do. */
  ghost predicate PartlyBound(pool: Pool, portsB: seq<Port>, op: HWOperation, ports: seq<Port>, bound: seq<nat>)
    requires ValidOperation(pool, portsB, op)
  {
    && |bound| <= |op.binding| && Different(bound)
    && forall k :: 0 <= k < |bound| ==>
         BoundWell(pool, ports, op.name, k, bound[k]) && ports[bound[k]].triggering == portsB[op.binding[k]].triggering
  }

  lemma GrownStaysBound(pool: Pool, portsB: seq<Port>, op: HWOperation, before: seq<Port>, after: seq<Port>, bound: seq<nat>)
    requires ValidOperation(pool, portsB, op) && PartlyBound(pool, portsB, op, before, bound) && Grown(before, after)
    ensures PartlyBound(pool, portsB, op, after, bound)
  {
    forall k | 0 <= k < |bound|
      ensures BoundWell(pool, after, op.name, k, bound[k]) && after[bound[k]].triggering == portsB[op.binding[k]].triggering
    {
      assert BoundWell(pool, before, op.name, k, bound[k]);
    }
  }

  /** When no trigger port is free, A has none. */
  lemma NoTriggerLeft(pool: Pool, portsB: seq<Port>, op: HWOperation, ports: seq<Port>, bound: seq<nat>)
    requires ValidOperation(pool, portsB, op) && ValidPorts(portsB) && PartlyBound(pool, portsB, op, ports, bound)
    requires |bound| < |op.binding| && op.binding[|bound|] < |portsB| && portsB[op.binding[|bound|]].triggering
    requires forall i :: 0 <= i < |ports| ==> i in bound || !ports[i].triggering
    ensures !HasTrigger(ports)
  {
    forall i | 0 <= i < |ports| ensures !ports[i].triggering {
      if i in bound {
        BoundElsewhere(pool, portsB, op, ports, bound, i);
      }
    }
  }

  /** A port bound to an earlier operand does not trigger when the next one does. */
  lemma BoundElsewhere(pool: Pool, portsB: seq<Port>, op: HWOperation, ports: seq<Port>, bound: seq<nat>, i: nat)
    requires ValidOperation(pool, portsB, op) && ValidPorts(portsB) && PartlyBound(pool, portsB, op, ports, bound)
    requires |bound| < |op.binding| && op.binding[|bound|] < |portsB| && portsB[op.binding[|bound|]].triggering
    requires i < |ports| && i in bound
    ensures !ports[i].triggering
  {
    var k :| 0 <= k < |bound| && bound[k] == i;
    assert Bound(pool, portsB, op.name, k, op.binding[k]) && op.binding[k] != op.binding[|bound|];
  }

  /** The ports with the found one wide enough. */
  function Widened(ports: seq<Port>, port: nat, width: nat): seq<Port>
    requires port < |ports|
  {
    if ports[port].width < width then ports[port := ports[port].(width := width)] else ports
  }

  /** Binding the next operand to this port: the first suitable free one, widened
      if need be, or a new one with the first free name when there is none. */
  predicate BindsNext(pool: Pool, op: string, k: nat, triggering: bool, ports: seq<Port>, bound: seq<nat>, port: nat, after: seq<Port>)
    requires k < |pool(op)|
  {
    && port <= |ports|
    && (forall i :: 0 <= i < port ==> i in bound || !Suits(ports[i], pool(op)[k].isInput, triggering))
    && if port < |ports| then
         && port !in bound && Suits(ports[port], pool(op)[k].isInput, triggering)
         && after == Widened(ports, port, OperandWidth(pool, op, k, triggering))
       else IsNewPort(ports, OperandWidth(pool, op, k, triggering), pool(op)[k].isInput, triggering, after)
  }

  predicate IsNewPort(ports: seq<Port>, width: nat, isInput: bool, triggering: bool, after: seq<Port>)
  {
    && |after| == |ports| + 1 && after[|ports|].name.Generated?
    && FirstFree(ports, isInput, triggering, after[|ports|].name.index)
    && after == ports + [Port(Generated(isInput, after[|ports|].name.index, triggering), width, isInput, triggering)]
  }

  lemma BindFound(pool: Pool, portsB: seq<Port>, op: HWOperation, ports: seq<Port>, bound: seq<nat>, port: nat)
    requires ValidPorts(portsB) && ValidOperation(pool, portsB, op) && |bound| < |op.binding|
    requires ValidPorts(ports) && PartlyBound(pool, portsB, op, ports, bound)
    requires op.binding[|bound|] < |portsB| && port < |ports| && port !in bound
    requires Suits(ports[port], pool(op.name)[|bound|].isInput, portsB[op.binding[|bound|]].triggering)
    ensures var after := Widened(ports, port, OperandWidth(pool, op.name, |bound|, portsB[op.binding[|bound|]].triggering));
            ValidPorts(after) && Grown(ports, after) && PartlyBound(pool, portsB, op, after, bound + [port])
  {
    var k := |bound|;
    assert Bound(pool, portsB, op.name, k, op.binding[k]);
    var after := Widened(ports, port, OperandWidth(pool, op.name, k, portsB[op.binding[k]].triggering));
    GrownStaysBound(pool, portsB, op, ports, after, bound);
  }

  lemma BindCreated(pool: Pool, portsB: seq<Port>, op: HWOperation, ports: seq<Port>, bound: seq<nat>, name: PortName)
    requires ValidPorts(portsB) && ValidOperation(pool, portsB, op) && |bound| < |op.binding|
    requires ValidPorts(ports) && PartlyBound(pool, portsB, op, ports, bound)
    requires op.binding[|bound|] < |portsB| && !HasPort(ports, name)
    requires portsB[op.binding[|bound|]].triggering ==> !HasTrigger(ports)
    ensures var triggering := portsB[op.binding[|bound|]].triggering;
            var width := OperandWidth(pool, op.name, |bound|, triggering);
            var after := ports + [Port(name, width, pool(op.name)[|bound|].isInput, triggering)];
            ValidPorts(after) && Grown(ports, after) && PartlyBound(pool, portsB, op, after, bound + [|ports|])
  {
    var k := |bound|;
    assert Bound(pool, portsB, op.name, k, op.binding[k]);
    var triggering := portsB[op.binding[k]].triggering;
    var after := ports + [Port(name, OperandWidth(pool, op.name, k, triggering), pool(op.name)[k].isInput, triggering)];
    GrownStaysBound(pool, portsB, op, ports, after, bound);
    assert forall l :: 0 <= l < k ==> BoundWell(pool, ports, op.name, l, bound[l]);
  }

  /** Binds the next operand: to a suitable free port, widened if need be, or to
      a new one. */
  method BindOperand(pool: Pool, portsB: seq<Port>, op: HWOperation, ports: seq<Port>, bound: seq<nat>)
    returns (after: seq<Port>, port: nat)
    requires ValidPorts(portsB) && ValidOperation(pool, portsB, op) && |bound| < |op.binding|
    requires ValidPorts(ports) && PartlyBound(pool, portsB, op, ports, bound)
    ensures ValidPorts(after) && Grown(ports, after) && PartlyBound(pool, portsB, op, after, bound + [port])
    ensures op.binding[|bound|] < |portsB|
    ensures BindsNext(pool, op.name, |bound|, portsB[op.binding[|bound|]].triggering, ports, bound, port, after)
  {
    var k := |bound|;
    assert Bound(pool, portsB, op.name, k, op.binding[k]);
    var portB := portsB[op.binding[k]];
    var isInput := pool(op.name)[k].isInput;
    var found := FindPort(ports, bound, isInput, portB.triggering);
    var operandWidth := OperandWidth(pool, op.name, k, portB.triggering);
    if found.Some? {
      port := found.value;
      BindFound(pool, portsB, op, ports, bound, port);
      after := ports;
      if ports[port].width < operandWidth {
        after := ports[port := ports[port].(width := operandWidth)];
      }
    } else {
      after := BindNewPort(pool, portsB, op, ports, bound);
      port := |ports|;
    }
  }

  /** Binds the next operand to a new port, when no port of A is suitable. */
  method BindNewPort(pool: Pool, portsB: seq<Port>, op: HWOperation, ports: seq<Port>, bound: seq<nat>)
    returns (after: seq<Port>)
    requires ValidPorts(portsB) && ValidOperation(pool, portsB, op) && |bound| < |op.binding|
    requires ValidPorts(ports) && PartlyBound(pool, portsB, op, ports, bound)
    requires op.binding[|bound|] < |portsB|
    requires portsB[op.binding[|bound|]].triggering ==> forall i :: 0 <= i < |ports| ==> i in bound || !ports[i].triggering
    ensures ValidPorts(after) && Grown(ports, after) && PartlyBound(pool, portsB, op, after, bound + [|ports|])
    ensures var triggering := portsB[op.binding[|bound|]].triggering;
            IsNewPort(ports, OperandWidth(pool, op.name, |bound|, triggering), pool(op.name)[|bound|].isInput, triggering, after)
  {
    var portB, isInput := portsB[op.binding[|bound|]], pool(op.name)[|bound|].isInput;
    if portB.triggering {
      NoTriggerLeft(pool, portsB, op, ports, bound);
    }
    NoTriggerToClear(ports, portB.triggering);
    var idx;
    after, idx := CreateFUPort(ports, OperandWidth(pool, op.name, |bound|, portB.triggering), isInput, portB.triggering);
    BindCreated(pool, portsB, op, ports, bound, Generated(isInput, idx, portB.triggering));
  }

  /** A port is as it was, or some operand is bound to it and it was widened to
      that operand's width or created for it. */
  ghost predicate OnlyAsNeeded(pool: Pool, op: string, before: seq<Port>, after: seq<Port>, bound: seq<nat>)
    requires |bound| <= |pool(op)|
  {
    forall i :: 0 <= i < |after| ==> (i < |before| && after[i] == before[i]) || NeededFor(pool, op, after[i], i, bound)
  }

  ghost predicate NeededFor(pool: Pool, op: string, port: Port, i: nat, bound: seq<nat>)
    requires |bound| <= |pool(op)|
  {
    exists k :: 0 <= k < |bound| && bound[k] == i && port.width == OperandWidth(pool, op, k, port.triggering)
  }

  lemma NextAsNeeded(pool: Pool, op: string, triggering: bool, before: seq<Port>, ports: seq<Port>, bound: seq<nat>, port: nat, after: seq<Port>)
    requires |bound| < |pool(op)| && ValidPorts(ports) && OnlyAsNeeded(pool, op, before, ports, bound)
    requires BindsNext(pool, op, |bound|, triggering, ports, bound, port, after)
    ensures OnlyAsNeeded(pool, op, before, after, bound + [port])
  {
    var now := bound + [port];
    forall i | 0 <= i < |after|
      ensures (i < |before| && after[i] == before[i]) || NeededFor(pool, op, after[i], i, now)
    {
      if i < |ports| && after[i] == ports[i] {
        if !(i < |before| && ports[i] == before[i]) {
          var k :| 0 <= k < |bound| && bound[k] == i && ports[i].width == OperandWidth(pool, op, k, ports[i].triggering);
          assert now[k] == i;
        }
      } else {
        assert now[|bound|] == i;
      }
    }
  }

  lemma NoTriggerToClear(ports: seq<Port>, triggering: bool)
    ensures triggering && !HasTrigger(ports) ==> ClearTrigger(ports) == ports
  {
    if !HasTrigger(ports) {
      NothingToClear(ports);
    }
  }

  /** ExecutionPipeline::isPortRead and isPortWritten: some operand bound to the
      port is used in the cycle. */
  predicate PortUsed(op: HWOperation, uses: set<(nat, nat)>, port: nat, cycle: nat)
  {
    exists j :: 0 <= j < |op.binding| && op.binding[j] == port && (j + 1, cycle) in uses
  }

  /** The uses of the first `n` operands. */
  function UsesUpto(uses: set<(nat, nat)>, n: nat): set<(nat, nat)>
  {
    set u | u in uses && u.0 <= n
  }

  /** Copies the cycles in which B's port of operand k is used. */
  method CopyUses(op: HWOperation, uses: set<(nat, nat)>, k: nat) returns (copied: set<(nat, nat)>, latency: nat)
    requires Different(op.binding) && k < |op.binding| && forall u :: u in uses ==> u.1 < op.latency
    ensures copied == (set u | u in uses && u.0 == k + 1)
    ensures forall u :: u in copied ==> u.1 < latency
  {
    copied, latency := {}, 0;
    for cycle := 0 to op.latency
      invariant copied == (set u | u in uses && u.0 == k + 1 && u.1 < cycle)
      invariant forall u :: u in copied ==> u.1 < latency
    {
      assert PortUsed(op, uses, op.binding[k], cycle) <==> (k + 1, cycle) in uses;
      if PortUsed(op, uses, op.binding[k], cycle) {
        copied := copied + {(k + 1, cycle)};
        latency := cycle + 1;
      }
    }
  }

  /** An operation of A that does what B's operation does. */
  ghost predicate Replaces(portsB: seq<Port>, op: HWOperation, ports: seq<Port>, new': HWOperation)
  {
    && new'.name == op.name && new'.readAt == op.readAt && new'.writtenAt == op.writtenAt
    && |new'.binding| == |op.binding|
    && forall k :: 0 <= k < |op.binding| ==>
         && new'.binding[k] < |ports| && op.binding[k] < |portsB|
         && ports[new'.binding[k]].triggering == portsB[op.binding[k]].triggering
  }

  /** Merges one operation of B into A's ports. */
  method MergeOperation(pool: Pool, portsB: seq<Port>, op: HWOperation, ports: seq<Port>)
    returns (after: seq<Port>, hwOp: HWOperation)
    requires ValidPorts(portsB) && ValidOperation(pool, portsB, op) && ValidPorts(ports)
    ensures ValidPorts(after) && Grown(ports, after)
    ensures ValidOperation(pool, after, hwOp) && WideOperation(pool, after, hwOp)
    ensures Replaces(portsB, op, after, hwOp)
    ensures |hwOp.binding| <= |pool(op.name)| && OnlyAsNeeded(pool, op.name, ports, after, hwOp.binding)
  {
    after := ports;
    var bound: seq<nat> := [];
    var readAt: set<(nat, nat)>, writtenAt: set<(nat, nat)>, latency := {}, {}, 0;
    for k := 0 to |op.binding|
      invariant |bound| == k && ValidPorts(after) && Grown(ports, after) && PartlyBound(pool, portsB, op, after, bound)
      invariant |bound| <= |pool(op.name)| && OnlyAsNeeded(pool, op.name, ports, after, bound)
      invariant readAt == UsesUpto(op.readAt, k) && writtenAt == UsesUpto(op.writtenAt, k)
      invariant forall u :: u in readAt + writtenAt ==> u.1 < latency
    {
      ghost var now := after;
      var port;
      after, port := BindOperand(pool, portsB, op, after, bound);
      NextAsNeeded(pool, op.name, portsB[op.binding[k]].triggering, ports, now, bound, port, after);
      var r, latencyR := CopyUses(op, op.readAt, k);
      var w, latencyW := CopyUses(op, op.writtenAt, k);
      readAt, writtenAt := readAt + r, writtenAt + w;
      var longest := if latencyR > latencyW then latencyR else latencyW;
      latency := if longest > latency then longest else latency;
      bound := bound + [port];
    }
    hwOp := HWOperation(op.name, bound, readAt, writtenAt, latency);
    AllUses(pool, portsB, op);
  }

  lemma AllUses(pool: Pool, portsB: seq<Port>, op: HWOperation)
    requires ValidOperation(pool, portsB, op)
    ensures UsesUpto(op.readAt, |op.binding|) == op.readAt && UsesUpto(op.writtenAt, |op.binding|) == op.writtenAt
  {
    assert forall u :: u in op.readAt || u in op.writtenAt ==> u in op.readAt + op.writtenAt;
  }

  lemma GrownStaysValid(pool: Pool, before: seq<Port>, after: seq<Port>, op: HWOperation)
    requires Grown(before, after) && ValidOperation(pool, before, op)
    ensures ValidOperation(pool, after, op)
  {
    forall k | 0 <= k < |op.binding| ensures Bound(pool, after, op.name, k, op.binding[k]) {
      assert Bound(pool, before, op.name, k, op.binding[k]);
    }
  }

  lemma GrownStaysWide(pool: Pool, before: seq<Port>, after: seq<Port>, op: HWOperation)
    requires Grown(before, after) && WideOperation(pool, before, op)
    ensures WideOperation(pool, after, op)
  {
    forall k | 0 <= k < |op.binding| ensures BoundWell(pool, after, op.name, k, op.binding[k]) {
      assert BoundWell(pool, before, op.name, k, op.binding[k]);
    }
  }

  lemma GrownReplaces(portsB: seq<Port>, op: HWOperation, before: seq<Port>, after: seq<Port>, new': HWOperation)
    requires Grown(before, after) && Replaces(portsB, op, before, new')
    ensures Replaces(portsB, op, after, new')
  {
  }

  /** Some operation of B does the same. */
  ghost predicate ReplacesOne(b: FunctionUnit, ports: seq<Port>, new': HWOperation)
  {
    exists k :: 0 <= k < |b.operations| && Replaces(b.ports, b.operations[k], ports, new')
  }

  /** The merged unit: A's operations on A's grown ports, and for each operation
      of B that A did not have one that does the same. */
  ghost predicate IsMerge(a: FunctionUnit, b: FunctionUnit, n: nat, merged: FunctionUnit)
    requires n <= |b.operations|
  {
    && merged.name == a.name && merged.isLSU == a.isLSU && Grown(a.ports, merged.ports)
    && a.operations <= merged.operations
    && OperationNames(merged.operations) == OperationNames(a.operations) + OperationNames(b.operations[..n])
    && forall k :: |a.operations| <= k < |merged.operations| ==> ReplacesOne(b, merged.ports, merged.operations[k])
  }

  lemma NamesAppend(operations: seq<HWOperation>, op: HWOperation)
    ensures OperationNames(operations + [op]) == OperationNames(operations) + {op.name}
  {
    forall name | name in OperationNames(operations) ensures name in OperationNames(operations + [op]) {
      var o :| o in operations && o.name == name;
      assert o in operations + [op];
    }
    assert op in operations + [op];
  }

  lemma NewOperationIsValid(pool: Pool, merged: FunctionUnit, ports: seq<Port>, hwOp: HWOperation)
    requires Valid(pool, merged) && hwOp.name !in OperationNames(merged.operations)
    requires ValidPorts(ports) && Grown(merged.ports, ports) && ValidOperation(pool, ports, hwOp)
    ensures Valid(pool, merged.(ports := ports, operations := merged.operations + [hwOp]))
  {
    forall k | 0 <= k < |merged.operations|
      ensures ValidOperation(pool, ports, merged.operations[k]) && merged.operations[k].name != hwOp.name
    {
      assert merged.operations[k] in merged.operations;
      GrownStaysValid(pool, merged.ports, ports, merged.operations[k]);
    }
  }

  lemma GrownReplacesOne(b: FunctionUnit, before: seq<Port>, after: seq<Port>, op: HWOperation)
    requires Grown(before, after) && ReplacesOne(b, before, op)
    ensures ReplacesOne(b, after, op)
  {
    var l :| 0 <= l < |b.operations| && Replaces(b.ports, b.operations[l], before, op);
    GrownReplaces(b.ports, b.operations[l], before, after, op);
  }

  lemma AddNewOperation(a: FunctionUnit, b: FunctionUnit, n: nat, merged: FunctionUnit, ports: seq<Port>, hwOp: HWOperation)
    requires n < |b.operations| && IsMerge(a, b, n, merged)
    requires Grown(merged.ports, ports) && Replaces(b.ports, b.operations[n], ports, hwOp)
    ensures IsMerge(a, b, n + 1, merged.(ports := ports, operations := merged.operations + [hwOp]))
  {
    var next := merged.(ports := ports, operations := merged.operations + [hwOp]);
    forall k | |a.operations| <= k < |next.operations| ensures ReplacesOne(b, ports, next.operations[k]) {
      if k < |merged.operations| {
        GrownReplacesOne(b, merged.ports, ports, merged.operations[k]);
      }
    }
    assert b.operations[..n + 1] == b.operations[..n] + [b.operations[n]];
    NamesAppend(merged.operations, hwOp);
    NamesAppend(b.operations[..n], b.operations[n]);
  }

  /** The operations that came from B have ports that are wide enough. */
  ghost predicate NewAreWide(pool: Pool, a: FunctionUnit, merged: FunctionUnit)
  {
    forall k :: |a.operations| <= k < |merged.operations| ==> WideOperation(pool, merged.ports, merged.operations[k])
  }

  lemma AddWide(pool: Pool, a: FunctionUnit, merged: FunctionUnit, ports: seq<Port>, hwOp: HWOperation)
    requires NewAreWide(pool, a, merged) && Grown(merged.ports, ports) && WideOperation(pool, ports, hwOp)
    ensures NewAreWide(pool, a, merged.(ports := ports, operations := merged.operations + [hwOp]))
  {
    forall k | |a.operations| <= k < |merged.operations| ensures WideOperation(pool, ports, merged.operations[k]) {
      GrownStaysWide(pool, merged.ports, ports, merged.operations[k]);
    }
  }

  /** Operations of A that had ports wide enough still have. */
  lemma MergedIsWide(pool: Pool, a: FunctionUnit, b: FunctionUnit, merged: FunctionUnit)
    requires Wide(pool, a) && IsMerge(a, b, |b.operations|, merged) && NewAreWide(pool, a, merged)
    ensures Wide(pool, merged)
  {
    forall k | 0 <= k < |a.operations| ensures WideOperation(pool, merged.ports, merged.operations[k]) {
      GrownStaysWide(pool, a.ports, merged.ports, a.operations[k]);
    }
  }

  /** In the pool's numbers: the ports of the operations from B have the bits of their
      operands. */
  ghost predicate NewHaveBits(pool: Pool, a: FunctionUnit, merged: FunctionUnit)
  {
    forall k, l :: |a.operations| <= k < |merged.operations| && 0 <= l < |merged.operations[k].binding| ==>
      OperandFits(pool, merged.ports, merged.operations[k], l)
  }

  ghost predicate OperandFits(pool: Pool, ports: seq<Port>, op: HWOperation, l: nat)
  {
    && l < |op.binding| && l < |pool(op.name)| && op.binding[l] < |ports|
    && ports[op.binding[l]].width >= BitsOf(pool, op.name, l, ports[op.binding[l]].triggering)
  }

  /** A port is as it was in A, or has exactly the bits of some operand of a new operation. */
  ghost predicate PortsAsNeeded(pool: Pool, a: FunctionUnit, merged: FunctionUnit)
  {
    forall i :: 0 <= i < |merged.ports| ==> (i < |a.ports| && merged.ports[i] == a.ports[i]) || MadeFor(pool, a, merged, i)
  }

  ghost predicate MadeFor(pool: Pool, a: FunctionUnit, merged: FunctionUnit, i: nat)
  {
    exists k, l :: |a.operations| <= k < |merged.operations| && i < |merged.ports| && ExactlyFits(pool, merged.operations[k], l, i, merged.ports[i])
  }

  ghost predicate ExactlyFits(pool: Pool, op: HWOperation, l: nat, i: nat, port: Port)
  {
    && l < |op.binding| && l < |pool(op.name)| && op.binding[l] == i
    && port.width == BitsOf(pool, op.name, l, port.triggering)
  }

  lemma WideHaveBits(pool: Pool, a: FunctionUnit, merged: FunctionUnit)
    requires NewAreWide(pool, a, merged)
    ensures NewHaveBits(pool, a, merged)
  {
    forall k, l | |a.operations| <= k < |merged.operations| && 0 <= l < |merged.operations[k].binding|
      ensures OperandFits(pool, merged.ports, merged.operations[k], l)
    {
      var op := merged.operations[k];
      assert BoundWell(pool, merged.ports, op.name, l, op.binding[l]);
      OperandWidthMeans(pool, op.name, l, merged.ports[op.binding[l]].triggering);
    }
  }

  lemma AddAsNeeded(pool: Pool, a: FunctionUnit, merged: FunctionUnit, ports: seq<Port>, hwOp: HWOperation)
    requires PortsAsNeeded(pool, a, merged) && |a.operations| <= |merged.operations|
    requires |hwOp.binding| <= |pool(hwOp.name)| && OnlyAsNeeded(pool, hwOp.name, merged.ports, ports, hwOp.binding)
    ensures PortsAsNeeded(pool, a, merged.(ports := ports, operations := merged.operations + [hwOp]))
  {
    var next := merged.(ports := ports, operations := merged.operations + [hwOp]);
    forall i | 0 <= i < |ports| ensures (i < |a.ports| && ports[i] == a.ports[i]) || MadeFor(pool, a, next, i) {
      if i < |merged.ports| && ports[i] == merged.ports[i] {
        if MadeFor(pool, a, merged, i) {
          var k, l :| |a.operations| <= k < |merged.operations| && ExactlyFits(pool, merged.operations[k], l, i, merged.ports[i]);
          assert ExactlyFits(pool, next.operations[k], l, i, ports[i]);
        }
      } else {
        assert NeededFor(pool, hwOp.name, ports[i], i, hwOp.binding);
        var l :| 0 <= l < |hwOp.binding| && hwOp.binding[l] == i && ports[i].width == OperandWidth(pool, hwOp.name, l, ports[i].triggering);
        OperandWidthMeans(pool, hwOp.name, l, ports[i].triggering);
        assert ExactlyFits(pool, next.operations[|merged.operations|], l, i, ports[i]);
      }
    }
  }

  /**
   mergeFUs: every operation of B that A does not have is added to A, on ports that
   are wide enough for it. The ports of B need not be.
   */
  method MergeFUs(pool: Pool, a: FunctionUnit, b: FunctionUnit) returns (merged: FunctionUnit)
    requires Valid(pool, a) && Valid(pool, b)
    ensures Valid(pool, merged) && IsMerge(a, b, |b.operations|, merged)
    ensures NewHaveBits(pool, a, merged) && PortsAsNeeded(pool, a, merged)
    ensures NewAreWide(pool, a, merged) && (Wide(pool, a) ==> Wide(pool, merged))
  {
    merged := a;
    for i := 0 to |b.operations|
      invariant Valid(pool, merged) && IsMerge(a, b, i, merged)
      invariant NewAreWide(pool, a, merged) && PortsAsNeeded(pool, a, merged)
    {
      var op := b.operations[i];
      if exists k :: 0 <= k < |merged.operations| && merged.operations[k].name == op.name {
        SkipOperation(a, b, i, merged);
        continue;
      }
      var ports, hwOp := MergeOperation(pool, b.ports, op, merged.ports);
      NewOperationIsValid(pool, merged, ports, hwOp);
      AddNewOperation(a, b, i, merged, ports, hwOp);
      AddWide(pool, a, merged, ports, hwOp);
      AddAsNeeded(pool, a, merged, ports, hwOp);
      merged := merged.(ports := ports, operations := merged.operations + [hwOp]);
    }
    WideHaveBits(pool, a, merged);
    if Wide(pool, a) {
      MergedIsWide(pool, a, b, merged);
    }
  }

  lemma SkipOperation(a: FunctionUnit, b: FunctionUnit, n: nat, merged: FunctionUnit)
    requires n < |b.operations| && IsMerge(a, b, n, merged)
    requires b.operations[n].name in OperationNames(merged.operations)
    ensures IsMerge(a, b, n + 1, merged)
  {
    assert b.operations[..n + 1] == b.operations[..n] + [b.operations[n]];
    NamesAppend(b.operations[..n], b.operations[n]);
  }

  /** A unit with its one trigger port keeps it, and it stays the only one. */
  lemma OneTriggerStaysOne(pool: Pool, a: FunctionUnit, b: FunctionUnit, merged: FunctionUnit, i: nat)
    requires Valid(pool, merged) && IsMerge(a, b, |b.operations|, merged)
    requires i < |a.ports| && a.ports[i].triggering
    ensures forall j :: 0 <= j < |merged.ports| ==> (merged.ports[j].triggering <==> j == i)
  {
    assert merged.ports[i].triggering;
  }

  // ------------------------------------------------------- merging pairs of units

  ghost predicate AllValid(pool: Pool, units: seq<FunctionUnit>)
  {
    forall i :: 0 <= i < |units| ==> Valid(pool, units[i])
  }

  ghost predicate AllWide(pool: Pool, units: seq<FunctionUnit>)
  {
    forall i :: 0 <= i < |units| ==> Wide(pool, units[i])
  }

  /** The operations that the load-store units, or the other units, have together. */
  ghost function Operations(units: seq<FunctionUnit>, lsu: bool): set<string>
  {
    set u, op | u in units && u.isLSU == lsu && op in u.operations :: op.name
  }

  function CountLSUs(units: seq<FunctionUnit>): nat
  {
    if units == [] then 0 else CountLSUs(units[..|units| - 1]) + if units[|units| - 1].isLSU then 1 else 0
  }

  predicate CanMerge(u: FunctionUnit, dontMerge: set<string>) { u.name !in dontMerge }

  /** The units that must not be merged, in order. */
  function Fixed(units: seq<FunctionUnit>, dontMerge: set<string>): seq<FunctionUnit>
  {
    if units == [] then []
    else
      var u := units[|units| - 1];
      Fixed(units[..|units| - 1], dontMerge) + if CanMerge(u, dontMerge) then [] else [u]
  }

  /** Where the units are that must not be merged. */
  ghost function FixedAt(units: seq<FunctionUnit>, dontMerge: set<string>): set<nat>
  {
    set i: nat | i < |units| && units[i].name in dontMerge
  }

  lemma {:induction false} FixedCounts(units: seq<FunctionUnit>, dontMerge: set<string>)
    ensures |Fixed(units, dontMerge)| == |FixedAt(units, dontMerge)|
  {
    if units == [] {
      assert FixedAt(units, dontMerge) == {};
    } else {
      var front, n := units[..|units| - 1], |units| - 1;
      FixedCounts(front, dontMerge);
      assert FixedAt(units, dontMerge) == FixedAt(front, dontMerge) + if units[n].name in dontMerge then {n as nat} else {};
    }
  }

  /** Unit b is gone and unit a has become the merged one. */
  function PairMerged(units: seq<FunctionUnit>, a: nat, b: nat, merged: FunctionUnit): seq<FunctionUnit>
    requires a < b < |units|
  {
    units[a := merged][..b] + units[b + 1..]
  }

  lemma {:induction false} CountConcat(us: seq<FunctionUnit>, vs: seq<FunctionUnit>)
    ensures CountLSUs(us + vs) == CountLSUs(us) + CountLSUs(vs)
  {
    if vs == [] {
      assert us + vs == us;
    } else {
      var front := vs[..|vs| - 1];
      CountConcat(us, front);
      assert (us + vs)[..|us + vs| - 1] == us + front;
    }
  }

  lemma {:induction false} FixedConcat(us: seq<FunctionUnit>, vs: seq<FunctionUnit>, dontMerge: set<string>)
    ensures Fixed(us + vs, dontMerge) == Fixed(us, dontMerge) + Fixed(vs, dontMerge)
  {
    if vs == [] {
      assert us + vs == us;
    } else {
      var front := vs[..|vs| - 1];
      FixedConcat(us, front, dontMerge);
      assert (us + vs)[..|us + vs| - 1] == us + front;
    }
  }

  lemma CountSplit(units: seq<FunctionUnit>, i: nat)
    requires i < |units|
    ensures CountLSUs(units) == CountLSUs(units[..i]) + (if units[i].isLSU then 1 else 0) + CountLSUs(units[i + 1..])
  {
    assert units == units[..i] + [units[i]] + units[i + 1..];
    CountConcat(units[..i] + [units[i]], units[i + 1..]);
    CountConcat(units[..i], [units[i]]);
  }

  lemma FixedSplit(units: seq<FunctionUnit>, i: nat, dontMerge: set<string>)
    requires i < |units| && CanMerge(units[i], dontMerge)
    ensures Fixed(units, dontMerge) == Fixed(units[..i], dontMerge) + Fixed(units[i + 1..], dontMerge)
  {
    assert units == units[..i] + [units[i]] + units[i + 1..];
    FixedConcat(units[..i] + [units[i]], units[i + 1..], dontMerge);
    FixedConcat(units[..i], [units[i]], dontMerge);
  }

  lemma CountUpdate(units: seq<FunctionUnit>, i: nat, u: FunctionUnit)
    requires i < |units| && u.isLSU == units[i].isLSU
    ensures CountLSUs(units[i := u]) == CountLSUs(units)
  {
    CountSplit(units, i);
    CountSplit(units[i := u], i);
    assert units[i := u][..i] == units[..i] && units[i := u][i + 1..] == units[i + 1..];
  }

  lemma CountWithout(units: seq<FunctionUnit>, i: nat)
    requires i < |units|
    ensures CountLSUs(units[..i] + units[i + 1..]) == CountLSUs(units) - if units[i].isLSU then 1 else 0
  {
    CountSplit(units, i);
    CountConcat(units[..i], units[i + 1..]);
  }

  lemma FixedUpdate(units: seq<FunctionUnit>, i: nat, u: FunctionUnit, dontMerge: set<string>)
    requires i < |units| && CanMerge(u, dontMerge) && CanMerge(units[i], dontMerge)
    ensures Fixed(units[i := u], dontMerge) == Fixed(units, dontMerge)
  {
    FixedSplit(units, i, dontMerge);
    FixedSplit(units[i := u], i, dontMerge);
    assert units[i := u][..i] == units[..i] && units[i := u][i + 1..] == units[i + 1..];
  }

  lemma FixedWithout(units: seq<FunctionUnit>, i: nat, dontMerge: set<string>)
    requires i < |units| && CanMerge(units[i], dontMerge)
    ensures Fixed(units[..i] + units[i + 1..], dontMerge) == Fixed(units, dontMerge)
  {
    FixedSplit(units, i, dontMerge);
    FixedConcat(units[..i], units[i + 1..], dontMerge);
  }

  /** An operation of B is in the merged unit. */
  lemma MergedHas(a: FunctionUnit, b: FunctionUnit, merged: FunctionUnit, op: HWOperation)
    requires IsMerge(a, b, |b.operations|, merged) && (op in a.operations || op in b.operations)
    ensures exists o :: o in merged.operations && o.name == op.name
  {
    assert b.operations[..|b.operations|] == b.operations;
    assert op.name in OperationNames(a.operations) + OperationNames(b.operations);
  }

  lemma PairKeepsOperations(units: seq<FunctionUnit>, a: nat, b: nat, merged: FunctionUnit, lsu: bool)
    requires a < b < |units| && units[a].isLSU == units[b].isLSU
    requires IsMerge(units[a], units[b], |units[b].operations|, merged)
    ensures Operations(PairMerged(units, a, b, merged), lsu) == Operations(units, lsu)
  {
    var after := PairMerged(units, a, b, merged);
    forall i | 0 <= i < |units| && units[i].isLSU == lsu
      ensures OperationNames(units[i].operations) <= Operations(after, lsu)
    {
      if i == a || i == b {
        assert after[a] == merged && merged in after;
        forall op | op in units[i].operations ensures op.name in Operations(after, lsu) {
          MergedHas(units[a], units[b], merged, op);
        }
      } else {
        assert after[if i < b then i else i - 1] == units[i];
      }
    }
    forall i | 0 <= i < |after| && after[i].isLSU == lsu
      ensures OperationNames(after[i].operations) <= Operations(units, lsu)
    {
      if i == a {
        assert units[b].operations[..|units[b].operations|] == units[b].operations;
        assert units[a] in units && units[b] in units;
        assert OperationNames(merged.operations) == OperationNames(units[a].operations) + OperationNames(units[b].operations);
      } else {
        assert after[i] == units[if i < b then i else i + 1];
      }
    }
    SameOperations(units, after, lsu);
  }

  lemma SameOperations(units: seq<FunctionUnit>, after: seq<FunctionUnit>, lsu: bool)
    requires forall i :: 0 <= i < |units| && units[i].isLSU == lsu ==> OperationNames(units[i].operations) <= Operations(after, lsu)
    requires forall i :: 0 <= i < |after| && after[i].isLSU == lsu ==> OperationNames(after[i].operations) <= Operations(units, lsu)
    ensures Operations(after, lsu) == Operations(units, lsu)
  {
    forall name | name in Operations(units, lsu) ensures name in Operations(after, lsu) {
      var u, op :| u in units && u.isLSU == lsu && op in u.operations && op.name == name;
      assert name in OperationNames(u.operations);
    }
    forall name | name in Operations(after, lsu) ensures name in Operations(units, lsu) {
      var u, op :| u in after && u.isLSU == lsu && op in u.operations && op.name == name;
      assert name in OperationNames(u.operations);
    }
  }

  /** What merging keeps: valid units, wide enough ports if all had them, the
      operations of each kind, and the units that must not be merged. */
  ghost predicate Keeps(pool: Pool, before: seq<FunctionUnit>, after: seq<FunctionUnit>, dontMerge: set<string>)
  {
    && AllValid(pool, after) && (AllWide(pool, before) ==> AllWide(pool, after))
    && Fixed(after, dontMerge) == Fixed(before, dontMerge)
    && Operations(after, true) == Operations(before, true) && Operations(after, false) == Operations(before, false)
  }

  /** Two units that may be merged, of the same kind. */
  predicate Pair(units: seq<FunctionUnit>, dontMerge: set<string>, a: nat, b: nat)
  {
    a < b < |units| && CanMerge(units[a], dontMerge) && CanMerge(units[b], dontMerge) && units[a].isLSU == units[b].isLSU
  }

  lemma PairKeepsUnits(pool: Pool, units: seq<FunctionUnit>, a: nat, b: nat, merged: FunctionUnit)
    requires a < b < |units| && AllValid(pool, units) && Valid(pool, merged) && (Wide(pool, units[a]) ==> Wide(pool, merged))
    ensures AllValid(pool, PairMerged(units, a, b, merged))
    ensures AllWide(pool, units) ==> AllWide(pool, PairMerged(units, a, b, merged))
  {
    var after := PairMerged(units, a, b, merged);
    forall k | 0 <= k < |after| ensures after[k] == if k == a then merged else units[if k < b then k else k + 1] {
    }
  }

  lemma PairKeepsFixed(units: seq<FunctionUnit>, dontMerge: set<string>, a: nat, b: nat, merged: FunctionUnit)
    requires Pair(units, dontMerge, a, b) && merged.name == units[a].name && merged.isLSU == units[a].isLSU
    ensures Fixed(PairMerged(units, a, b, merged), dontMerge) == Fixed(units, dontMerge)
    ensures CountLSUs(PairMerged(units, a, b, merged)) == CountLSUs(units) - if units[a].isLSU then 1 else 0
  {
    FixedUpdate(units, a, merged, dontMerge);
    FixedWithout(units[a := merged], b, dontMerge);
    CountUpdate(units, a, merged);
    CountWithout(units[a := merged], b);
  }

  lemma PairKeeps(pool: Pool, before: seq<FunctionUnit>, units: seq<FunctionUnit>, dontMerge: set<string>, a: nat, b: nat, merged: FunctionUnit)
    requires Keeps(pool, before, units, dontMerge) && Pair(units, dontMerge, a, b)
    requires Valid(pool, merged) && IsMerge(units[a], units[b], |units[b].operations|, merged)
    requires Wide(pool, units[a]) ==> Wide(pool, merged)
    ensures Keeps(pool, before, PairMerged(units, a, b, merged), dontMerge)
    ensures CountLSUs(PairMerged(units, a, b, merged)) == CountLSUs(units) - if units[a].isLSU then 1 else 0
  {
    PairKeepsUnits(pool, units, a, b, merged);
    PairKeepsOperations(units, a, b, merged, true);
    PairKeepsOperations(units, a, b, merged, false);
    PairKeepsFixed(units, dontMerge, a, b, merged);
  }

  // ------------------------------------------------------------ the merge loop

  /** A pair the covariance-driven selection looks at. */
  predicate Viable(units: seq<FunctionUnit>, dontMerge: set<string>, needsLSUMerge: bool, j: nat, k: nat)
  {
    Pair(units, dontMerge, j, k) && (units[j].isLSU ==> needsLSUMerge)
  }

  function Pairs(units: seq<FunctionUnit>, dontMerge: set<string>, needsLSUMerge: bool): (nat, nat) -> bool
  {
    (j: nat, k: nat) => Viable(units, dontMerge, needsLSUMerge, j, k)
  }

  /** Looks at the pair (j, k). */
  method LookAt(units: seq<FunctionUnit>, dontMerge: set<string>, needsLSUMerge: bool, corr: (nat, nat) -> real, j: nat, k: nat,
                pair: Option<(nat, nat)>, minCorr: real) returns (next: Option<(nat, nat)>, nextCorr: real)
    requires j < k < |units| && CanMerge(units[j], dontMerge)
    requires SmallestBefore(Pairs(units, dontMerge, needsLSUMerge), corr, pair, minCorr, j, k)
    ensures SmallestBefore(Pairs(units, dontMerge, needsLSUMerge), corr, next, nextCorr, j, k + 1)
  {
    ghost var viable := Pairs(units, dontMerge, needsLSUMerge);
    next, nextCorr := pair, minCorr;
    if CanMerge(units[k], dontMerge) {
      if (needsLSUMerge && units[j].isLSU && units[k].isLSU) || (!units[j].isLSU && !units[k].isLSU) {
        if corr(j, k) < minCorr {
          nextCorr, next := corr(j, k), Some((j, k));
          PairTaken(viable, corr, pair, minCorr, j, k);
          return;
        }
      }
    }
    PairSkipped(viable, corr, pair, minCorr, j, k);
  }

  method SelectPair(units: seq<FunctionUnit>, dontMerge: set<string>, needsLSUMerge: bool, corr: (nat, nat) -> real)
    returns (pair: Option<(nat, nat)>)
    ensures pair.None? ==> forall j: nat, k: nat :: Viable(units, dontMerge, needsLSUMerge, j, k) ==> corr(j, k) >= LIMIT
    ensures pair.Some? ==>
              && Viable(units, dontMerge, needsLSUMerge, pair.value.0, pair.value.1)
              && corr(pair.value.0, pair.value.1) < LIMIT
              && forall j: nat, k: nat :: Viable(units, dontMerge, needsLSUMerge, j, k) ==>
                   && corr(pair.value.0, pair.value.1) <= corr(j, k)
                   && (j < pair.value.0 || (j == pair.value.0 && k < pair.value.1) ==>
                         corr(pair.value.0, pair.value.1) < corr(j, k))
  {
    var minCorr := LIMIT;
    pair := None;
    ghost var viable := Pairs(units, dontMerge, needsLSUMerge);
    for j := 0 to |units|
      invariant SmallestBefore(viable, corr, pair, minCorr, j, 0)
    {
      if !CanMerge(units[j], dontMerge) {
        RowDone(viable, corr, pair, minCorr, j, 0);
        continue;
      }
      RowBegins(viable, corr, pair, minCorr, j);
      for k := j + 1 to |units|
        invariant SmallestBefore(viable, corr, pair, minCorr, j, k)
      {
        pair, minCorr := LookAt(units, dontMerge, needsLSUMerge, corr, j, k, pair, minCorr);
      }
      RowDone(viable, corr, pair, minCorr, j, |units|);
    }
  }

  /** Among the first n units, only the one at i may be a load-store unit that can be merged. */
  predicate AllButLSUs(units: seq<FunctionUnit>, dontMerge: set<string>, n: nat, i: nat)
  {
    forall l: nat :: l < n <= |units| && l != i ==> !(units[l].isLSU && CanMerge(units[l], dontMerge))
  }

  /** There is at most one load-store unit that can be merged. */
  ghost predicate OneMergeableLSU(units: seq<FunctionUnit>, dontMerge: set<string>)
  {
    exists i: nat :: AllButLSUs(units, dontMerge, |units|, i)
  }

  ghost predicate MergedInto(was: seq<FunctionUnit>, a: nat, b: nat, now: seq<FunctionUnit>)
  {
    && a < b < |was| && |now| == |was| - 1 && IsMerge(was[a], was[b], |was[b].operations|, now[a])
    && (forall k :: 0 <= k < b && k != a ==> now[k] == was[k])
    && (forall k :: b < k < |was| ==> now[k - 1] == was[k])
  }

  lemma PairMergedInto(was: seq<FunctionUnit>, a: nat, b: nat, merged: FunctionUnit)
    requires a < b < |was| && IsMerge(was[a], was[b], |was[b].operations|, merged)
    ensures MergedInto(was, a, b, PairMerged(was, a, b, merged))
  {
  }

  /** Of the pairs that may be merged, of one kind, and of load-store units only while
      there are more than wanted, this is the first with the smallest covariance. */
  ghost predicate BestPair(units: seq<FunctionUnit>, numLSUs: nat, dontMerge: set<string>, corr: (nat, nat) -> real, a: nat, b: nat)
  {
    && MayMerge(units, numLSUs, dontMerge, a, b) && corr(a, b) < LIMIT
    && forall j: nat, k: nat :: MayMerge(units, numLSUs, dontMerge, j, k) ==>
         corr(a, b) <= corr(j, k) && (j < a || (j == a && k < b) ==> corr(a, b) < corr(j, k))
  }

  ghost predicate MayMerge(units: seq<FunctionUnit>, numLSUs: nat, dontMerge: set<string>, j: nat, k: nat)
  {
    && j < k < |units| && units[j].name !in dontMerge && units[k].name !in dontMerge && units[j].isLSU == units[k].isLSU
    && (units[j].isLSU ==> numLSUs > 1 && CountLSUs(units) > numLSUs)
  }

  /** A round: the second unit of the best pair goes into the first. */
  ghost predicate IsRound(units: seq<FunctionUnit>, numLSUs: nat, dontMerge: set<string>, corr: (nat, nat) -> real, now: seq<FunctionUnit>)
  {
    exists a, b :: BestPair(units, numLSUs, dontMerge, corr, a, b) && MergedInto(units, a, b, now)
  }

  /** Every configuration is a round after the one before, by the covariances measured
      then, the first after the units that the rounds were entered with. */
  ghost predicate AllRounds(numLSUs: nat, dontMerge: set<string>, corr: nat -> (nat, nat) -> real, entered: seq<FunctionUnit>,
                            configs: seq<seq<FunctionUnit>>)
    decreases |configs|
  {
    configs == [] ||
    var n := |configs| - 1;
    && AllRounds(numLSUs, dontMerge, corr, entered, configs[..n])
    && IsRound(Newest(entered, configs[..n]), numLSUs, dontMerge, corr(n), configs[n])
  }

  lemma OneMoreRound(numLSUs: nat, dontMerge: set<string>, corr: nat -> (nat, nat) -> real, entered: seq<FunctionUnit>,
                     configs: seq<seq<FunctionUnit>>, now: seq<FunctionUnit>)
    requires AllRounds(numLSUs, dontMerge, corr, entered, configs)
    requires IsRound(Newest(entered, configs), numLSUs, dontMerge, corr(|configs|), now)
    ensures AllRounds(numLSUs, dontMerge, corr, entered, configs + [now])
  {
    assert (configs + [now])[..|configs|] == configs;
  }

  lemma SelectedIsBest(units: seq<FunctionUnit>, numLSUs: nat, dontMerge: set<string>, corr: (nat, nat) -> real, needs: bool, a: nat, b: nat)
    requires needs <==> numLSUs > 1 && CountLSUs(units) > numLSUs
    requires Viable(units, dontMerge, needs, a, b) && corr(a, b) < LIMIT
    requires forall j: nat, k: nat :: Viable(units, dontMerge, needs, j, k) ==>
               corr(a, b) <= corr(j, k) && (j < a || (j == a && k < b) ==> corr(a, b) < corr(j, k))
    ensures BestPair(units, numLSUs, dontMerge, corr, a, b)
  {
    forall j: nat, k: nat | MayMerge(units, numLSUs, dontMerge, j, k) ensures Viable(units, dontMerge, needs, j, k) {
    }
  }

  /** The load-store unit that all were merged into. */
  ghost predicate HasUnitLSU(units: seq<FunctionUnit>)
  {
    exists i :: 0 <= i < |units| && units[i].isLSU && units[i].name == "LSU"
  }

  lemma UnitLSUStays(was: seq<FunctionUnit>, a: nat, b: nat, now: seq<FunctionUnit>)
    requires MergedInto(was, a, b, now) && HasUnitLSU(was) && !was[b].isLSU
    ensures HasUnitLSU(now)
  {
    var i :| 0 <= i < |was| && was[i].isLSU && was[i].name == "LSU";
    assert now[if i < b then i else i - 1].name == "LSU";
  }

  lemma ScanGoesOn(was: seq<FunctionUnit>, dontMerge: set<string>, i: nat, j: nat, now: seq<FunctionUnit>)
    requires MergedInto(was, i, j, now) && AllButLSUs(was, dontMerge, j, i)
    ensures AllButLSUs(now, dontMerge, j, i) && now[i].isLSU == was[i].isLSU && now[i].name == was[i].name
  {
    forall l: nat | l < j && l != i ensures now[l] == was[l] {
    }
  }

  /** Merging two other units brings no second load-store unit. */
  lemma OneLSUStays(was: seq<FunctionUnit>, dontMerge: set<string>, a: nat, b: nat, now: seq<FunctionUnit>, i: nat)
    requires MergedInto(was, a, b, now) && AllButLSUs(was, dontMerge, |was|, i) && !was[a].isLSU
    ensures AllButLSUs(now, dontMerge, |now|, if i > b then i - 1 else i)
  {
    forall l: nat | l < |now| && l != a ensures now[l] == was[if l < b then l else l + 1] {
    }
  }

  /** A load-store unit that may be merged. */
  predicate MergeableLSU(u: FunctionUnit, dontMerge: set<string>) { u.isLSU && CanMerge(u, dontMerge) }

  ghost predicate HasMergeableLSU(units: seq<FunctionUnit>, dontMerge: set<string>)
  {
    exists u :: u in units && MergeableLSU(u, dontMerge)
  }

  /** Another unit than the mergeable load-store units is called "LSU", and the
      first of those is not. */
  ghost predicate NameClash(units: seq<FunctionUnit>, dontMerge: set<string>)
  {
    && (exists u :: u in units && u.name == "LSU" && !MergeableLSU(u, dontMerge))
    && exists i :: FirstLSU(units, dontMerge, i) && units[i].name != "LSU"
  }

  ghost predicate FirstLSU(units: seq<FunctionUnit>, dontMerge: set<string>, i: int)
  {
    0 <= i < |units| && MergeableLSU(units[i], dontMerge) && AllButLSUs(units, dontMerge, i, i)
  }

  /** The same units but for the mergeable load-store units. */
  ghost predicate SameOthers(was: seq<FunctionUnit>, now: seq<FunctionUnit>, dontMerge: set<string>)
  {
    forall u :: !MergeableLSU(u, dontMerge) ==> (u in now <==> u in was)
  }

  lemma OthersStay(was: seq<FunctionUnit>, dontMerge: set<string>, a: nat, b: nat, now: seq<FunctionUnit>)
    requires MergedInto(was, a, b, now) && MergeableLSU(was[a], dontMerge) && MergeableLSU(was[b], dontMerge)
    ensures SameOthers(was, now, dontMerge)
  {
    forall u | !MergeableLSU(u, dontMerge) && u in was ensures u in now {
      var k :| 0 <= k < |was| && was[k] == u;
      assert now[if k < b then k else k - 1] == u;
    }
    forall u | !MergeableLSU(u, dontMerge) && u in now ensures u in was {
      var k :| 0 <= k < |now| && now[k] == u;
      assert was[if k < b then k else k + 1] == u;
    }
  }

  /** The names whose units stay as they are: when load-store units are merged into
      one without covariances, it takes the name "LSU". */
  ghost function Untouched(units: seq<FunctionUnit>, numLSUs: nat, dontMerge: set<string>): set<string>
  {
    if numLSUs == 1 && HasMergeableLSU(units, dontMerge) then dontMerge - {"LSU"} else dontMerge
  }

  class Machine {
    var units: seq<FunctionUnit>

    constructor (units: seq<FunctionUnit>)
      ensures this.units == units
    {
      this.units := units;
    }

    method HasNumLSUsLeft(amount: int) returns (left: bool)
      ensures left <==> CountLSUs(units) >= amount
    {
      var missing := amount;
      for i := 0 to |units|
        invariant missing == amount - CountLSUs(units[..i])
      {
        assert units[..i + 1][..i] == units[..i];
        if units[i].isLSU {
          missing := missing - 1;
        }
      }
      assert units[..|units|] == units;
      left := missing < 1;
    }

    /** Merges unit b into unit a and removes it. */
    method MergePair(pool: Pool, ghost dontMerge: set<string>, a: nat, b: nat, ghost before: seq<FunctionUnit>)
      requires Keeps(pool, before, units, dontMerge) && Pair(units, dontMerge, a, b)
      modifies this
      ensures Keeps(pool, before, units, dontMerge) && |units| == |old(units)| - 1
      ensures CountLSUs(units) == CountLSUs(old(units)) - if old(units)[a].isLSU then 1 else 0
      ensures MergedInto(old(units), a, b, units)
    {
      var merged := MergeFUs(pool, units[a], units[b]);
      PairKeeps(pool, before, units, dontMerge, a, b, merged);
      PairMergedInto(units, a, b, merged);
      units := PairMerged(units, a, b, merged);
    }

    /** Without covariances, for one load-store unit: all that may be merged go
        into the first of them, which is then called "LSU"; this throws when
        another unit has that name. */
    method MergeLSUs(pool: Pool, dontMerge: set<string>) returns (thrown: bool)
      requires AllValid(pool, units)
      modifies this
      ensures Keeps(pool, old(units), units, Untouched(old(units), 1, dontMerge)) && |units| <= |old(units)|
      ensures OneMergeableLSU(units, dontMerge)
      ensures thrown <==> NameClash(old(units), dontMerge)
      ensures !thrown && HasMergeableLSU(old(units), dontMerge) ==> HasUnitLSU(units)
    {
      ghost var before := units;
      var i := 0;
      while i < |units| && !(units[i].isLSU && CanMerge(units[i], dontMerge))
        invariant i <= |units| && AllButLSUs(units, dontMerge, i, i)
      {
        i := i + 1;
      }
      if i == |units| {
        NoLSUs(units, dontMerge);
        return false;
      }
      ghost var untouched := dontMerge - {"LSU"};
      assert FirstLSU(before, dontMerge, i) && before[i] in before;
      var j := i + 1;
      while j < |units|
        invariant i < j <= |units| <= |before| && Keeps(pool, before, units, untouched)
        invariant MergeableLSU(units[i], dontMerge) && units[i].name == before[i].name
        invariant AllButLSUs(units, dontMerge, j, i) && SameOthers(before, units, dontMerge)
        decreases |units| - j
      {
        if units[j].isLSU && CanMerge(units[j], dontMerge) {
          ghost var was := units;
          MergePair(pool, untouched, i, j, before);
          ScanGoesOn(was, dontMerge, i, j, units);
          OthersStay(was, dontMerge, i, j, units);
        } else {
          j := j + 1;
        }
      }
      thrown := Rename(pool, dontMerge, i, before, untouched);
    }

    /** setName("LSU"), on the one mergeable load-store unit that is left. */
    method Rename(pool: Pool, dontMerge: set<string>, i: nat, ghost before: seq<FunctionUnit>, ghost untouched: set<string>)
      returns (thrown: bool)
      requires i < |units| && MergeableLSU(units[i], dontMerge) && AllButLSUs(units, dontMerge, |units|, i)
      requires i < |before| && FirstLSU(before, dontMerge, i) && units[i].name == before[i].name
      requires untouched == dontMerge - {"LSU"} && Keeps(pool, before, units, untouched) && SameOthers(before, units, dontMerge)
      modifies this
      ensures Keeps(pool, before, units, untouched) && |units| == |old(units)|
      ensures AllButLSUs(units, dontMerge, |units|, i)
      ensures thrown <==> NameClash(before, dontMerge)
      ensures units == if thrown then old(units) else old(units)[i := old(units)[i].(name := "LSU")]
      ensures !thrown ==> HasUnitLSU(units)
    {
      ClashSeen(before, units, dontMerge, i);
      if units[i].name == "LSU" {
        assert units[i := units[i].(name := "LSU")] == units;
        return false;
      }
      if exists l :: 0 <= l < |units| && units[l].name == "LSU" {
        return true;
      }
      RenameKeeps(pool, before, units, untouched, i, "LSU");
      units := units[i := units[i].(name := "LSU")];
      assert units[i].isLSU && units[i].name == "LSU";
      return false;
    }

    /** One round: merges the pair, for the next configuration. */
    method MergeNext(pool: Pool, numLSUs: nat, ghost dontMerge: set<string>, a: nat, b: nat, ghost corr: nat -> (nat, nat) -> real,
                     ghost before: seq<FunctionUnit>, ghost entered: seq<FunctionUnit>, ghost configs: seq<seq<FunctionUnit>>,
                     ghost untouched: set<string>)
      requires Progress(pool, before, units, configs, untouched, |entered|) && untouched <= dontMerge
      requires units == Newest(entered, configs) && BestPair(units, numLSUs, dontMerge, corr(|configs|), a, b)
      requires AllRounds(numLSUs, dontMerge, corr, entered, configs)
      modifies this
      ensures Progress(pool, before, units, configs + [units], untouched, |entered|) && |units| == |old(units)| - 1
      ensures AllRounds(numLSUs, dontMerge, corr, entered, configs + [units])
      ensures CountLSUs(units) == CountLSUs(old(units)) - if old(units)[a].isLSU then 1 else 0
      ensures !old(units)[a].isLSU ==> LSUsStay(old(units), units, dontMerge)
    {
      ghost var was := units;
      MergePair(pool, untouched, a, b, before);
      if !was[a].isLSU {
        MergeLeavesLSUs(was, dontMerge, a, b, units);
      }
      OneMoreKept(pool, before, configs, untouched, |entered|, units);
      assert IsRound(was, numLSUs, dontMerge, corr(|configs|), units);
      OneMoreRound(numLSUs, dontMerge, corr, entered, configs, units);
    }

    /**
     The plugin: load-store units first when only one is wanted, then in every round
     the pair with the smallest covariance. Whatever the covariances, in every
     configuration the units stay valid, each kind keeps its operations and the
     units that must not be merged are the same; the number of load-store units
     is not brought below the wanted number by covariance-driven merging.
     */
    method Explore(pool: Pool, numLSUs: nat, dontMerge: set<string>, corr: nat -> (nat, nat) -> real)
      returns (thrown: bool, configs: seq<seq<FunctionUnit>>, ghost entered: seq<FunctionUnit>)
      requires AllValid(pool, units)
      modifies this
      ensures thrown <==> numLSUs == 1 && NameClash(old(units), dontMerge)
      ensures Keeps(pool, old(units), units, Untouched(old(units), numLSUs, dontMerge))
      ensures AllKept(pool, old(units), configs, Untouched(old(units), numLSUs, dontMerge), |entered|)
      ensures AllRounds(numLSUs, dontMerge, corr, entered, configs) && units == Newest(entered, configs)
      ensures |entered| <= |old(units)| && (numLSUs != 1 ==> entered == old(units))
      ensures |configs| + |units| == |entered|
      ensures numLSUs == 1 ==> OneMergeableLSU(units, dontMerge)
      ensures numLSUs == 1 && !thrown && HasMergeableLSU(old(units), dontMerge) ==> HasUnitLSU(units)
      ensures numLSUs > 1 ==> CountLSUs(units) >= numLSUs || CountLSUs(units) == CountLSUs(old(units))
      ensures |entered| >= 1 + numLSUs + |FixedAt(old(units), dontMerge)| ==>
                |units| >= 1 + numLSUs + |FixedAt(old(units), dontMerge)|
      ensures !thrown ==>
                || |units| == 1 + numLSUs + |FixedAt(old(units), dontMerge)|
                || forall j: nat, k: nat :: MayMerge(units, numLSUs, dontMerge, j, k) ==> corr(|configs|)(j, k) >= LIMIT
    {
      ghost var before := units;
      ghost var untouched := Untouched(units, numLSUs, dontMerge);
      var nonMergeableUnits := CountNonMergeable(dontMerge);
      thrown := MergeLSUsIfOne(pool, numLSUs, dontMerge);
      entered := units;
      configs := [];
      if !thrown {
        configs := MergePairs(pool, numLSUs, dontMerge, corr, nonMergeableUnits, before, untouched);
      }
    }

    /** The units that must not be merged, counted in the loop at the start. */
    method CountNonMergeable(dontMerge: set<string>) returns (nonMergeableUnits: nat)
      ensures nonMergeableUnits == |FixedAt(units, dontMerge)|
    {
      nonMergeableUnits := 0;
      for i := 0 to |units|
        invariant nonMergeableUnits == |Fixed(units[..i], dontMerge)|
      {
        assert units[..i + 1][..i] == units[..i];
        if !CanMerge(units[i], dontMerge) {
          nonMergeableUnits := nonMergeableUnits + 1;
        }
      }
      assert units[..|units|] == units;
      FixedCounts(units, dontMerge);
    }

    method MergeLSUsIfOne(pool: Pool, numLSUs: nat, dontMerge: set<string>) returns (thrown: bool)
      requires AllValid(pool, units)
      modifies this
      ensures Keeps(pool, old(units), units, Untouched(old(units), numLSUs, dontMerge)) && |units| <= |old(units)|
      ensures numLSUs != 1 ==> units == old(units)
      ensures thrown <==> numLSUs == 1 && NameClash(old(units), dontMerge)
      ensures numLSUs == 1 ==> OneMergeableLSU(units, dontMerge)
      ensures numLSUs == 1 && !thrown && HasMergeableLSU(old(units), dontMerge) ==> HasUnitLSU(units)
    {
      thrown := false;
      if numLSUs == 1 {
        thrown := MergeLSUs(pool, dontMerge);
      }
    }

    /** The covariance-driven rounds, until few enough units or no pair is left. */
    method MergePairs(pool: Pool, numLSUs: nat, dontMerge: set<string>, corr: nat -> (nat, nat) -> real, nonMergeableUnits: nat,
                      ghost before: seq<FunctionUnit>, ghost untouched: set<string>)
      returns (configs: seq<seq<FunctionUnit>>)
      requires Keeps(pool, before, units, untouched) && untouched <= dontMerge
      modifies this
      ensures Progress(pool, before, units, configs, untouched, |old(units)|) && units == Newest(old(units), configs)
      ensures AllRounds(numLSUs, dontMerge, corr, old(units), configs)
      ensures numLSUs == 1 ==> LSUsStay(old(units), units, dontMerge)
      ensures numLSUs > 1 ==> CountLSUs(units) >= numLSUs || CountLSUs(units) == CountLSUs(old(units))
      ensures |old(units)| >= 1 + numLSUs + nonMergeableUnits ==> |units| >= 1 + numLSUs + nonMergeableUnits
      ensures || |units| == 1 + numLSUs + nonMergeableUnits
              || forall j: nat, k: nat :: MayMerge(units, numLSUs, dontMerge, j, k) ==> corr(|configs|)(j, k) >= LIMIT
    {
      configs := [];
      ghost var entered := units;
      while |units| != 1 + numLSUs + nonMergeableUnits
        invariant Progress(pool, before, units, configs, untouched, |entered|) && units == Newest(entered, configs)
        invariant AllRounds(numLSUs, dontMerge, corr, entered, configs)
        invariant numLSUs > 1 ==> CountLSUs(units) >= numLSUs || CountLSUs(units) == CountLSUs(entered)
        invariant numLSUs == 1 ==> LSUsStay(entered, units, dontMerge)
        invariant |entered| >= 1 + numLSUs + nonMergeableUnits ==> |units| >= 1 + numLSUs + nonMergeableUnits
        decreases |units|
      {
        var needsLSUMerge := false;
        if numLSUs > 1 {
          needsLSUMerge := HasNumLSUsLeft(numLSUs + 1);
        }
        var pair := SelectPair(units, dontMerge, needsLSUMerge, corr(|configs|));
        if pair.None? {
          NothingToMerge(units, numLSUs, dontMerge, corr(|configs|), needsLSUMerge);
          return;
        }
        SelectedIsBest(units, numLSUs, dontMerge, corr(|configs|), needsLSUMerge, pair.value.0, pair.value.1);
        MergeNext(pool, numLSUs, dontMerge, pair.value.0, pair.value.1, corr, before, entered, configs, untouched);
        configs := configs + [units];
      }
    }
  }

  lemma NothingToMerge(units: seq<FunctionUnit>, numLSUs: nat, dontMerge: set<string>, corr: (nat, nat) -> real, needs: bool)
    requires needs <==> numLSUs > 1 && CountLSUs(units) > numLSUs
    requires forall j: nat, k: nat :: Viable(units, dontMerge, needs, j, k) ==> corr(j, k) >= LIMIT
    ensures forall j: nat, k: nat :: MayMerge(units, numLSUs, dontMerge, j, k) ==> corr(j, k) >= LIMIT
  {
    forall j: nat, k: nat | MayMerge(units, numLSUs, dontMerge, j, k) ensures Viable(units, dontMerge, needs, j, k) {
    }
  }

  /** The one load-store unit is left alone. */
  ghost predicate LSUsStay(was: seq<FunctionUnit>, now: seq<FunctionUnit>, dontMerge: set<string>)
  {
    && (OneMergeableLSU(was, dontMerge) ==> OneMergeableLSU(now, dontMerge))
    && (HasUnitLSU(was) ==> HasUnitLSU(now))
  }

  lemma MergeLeavesLSUs(was: seq<FunctionUnit>, dontMerge: set<string>, a: nat, b: nat, now: seq<FunctionUnit>)
    requires MergedInto(was, a, b, now) && !was[a].isLSU && !was[b].isLSU
    ensures LSUsStay(was, now, dontMerge)
  {
    if OneMergeableLSU(was, dontMerge) {
      var one: nat :| AllButLSUs(was, dontMerge, |was|, one);
      OneLSUStays(was, dontMerge, a, b, now, one);
    }
    if HasUnitLSU(was) {
      UnitLSUStays(was, a, b, now);
    }
  }

  /** Every configuration keeps what is kept, and has one unit less than the one before. */
  ghost predicate AllKept(pool: Pool, before: seq<FunctionUnit>, configs: seq<seq<FunctionUnit>>, untouched: set<string>, entered: nat)
  {
    forall k: nat :: k < |configs| ==> KeptAt(pool, before, configs, untouched, entered, k)
  }

  ghost predicate Progress(pool: Pool, before: seq<FunctionUnit>, units: seq<FunctionUnit>, configs: seq<seq<FunctionUnit>>,
                           untouched: set<string>, entered: nat)
  {
    && Keeps(pool, before, units, untouched) && |configs| + |units| == entered
    && AllKept(pool, before, configs, untouched, entered)
  }

  ghost predicate KeptAt(pool: Pool, before: seq<FunctionUnit>, configs: seq<seq<FunctionUnit>>, untouched: set<string>, entered: nat, k: nat)
  {
    k < |configs| && Keeps(pool, before, configs[k], untouched) && |configs[k]| == entered - 1 - k
  }

  lemma OneMoreKept(pool: Pool, before: seq<FunctionUnit>, configs: seq<seq<FunctionUnit>>, untouched: set<string>, entered: nat, units: seq<FunctionUnit>)
    requires AllKept(pool, before, configs, untouched, entered) && Keeps(pool, before, units, untouched)
    requires |configs| + 1 + |units| == entered
    ensures AllKept(pool, before, configs + [units], untouched, entered)
  {
    forall k: nat | k < |configs| ensures KeptAt(pool, before, configs + [units], untouched, entered, k) {
      assert KeptAt(pool, before, configs, untouched, entered, k);
    }
  }

  /** The units recorded last. */
  function Newest(entered: seq<FunctionUnit>, configs: seq<seq<FunctionUnit>>): seq<FunctionUnit>
  {
    if configs == [] then entered else configs[|configs| - 1]
  }

  lemma NoLSUs(units: seq<FunctionUnit>, dontMerge: set<string>)
    requires AllButLSUs(units, dontMerge, |units|, |units|)
    ensures !HasMergeableLSU(units, dontMerge) && !NameClash(units, dontMerge)
  {
    forall u | u in units ensures !MergeableLSU(u, dontMerge) {
      var l: nat :| l < |units| && units[l] == u;
    }
  }

  /** The clash is seen from the units that are left. */
  lemma ClashSeen(before: seq<FunctionUnit>, units: seq<FunctionUnit>, dontMerge: set<string>, i: nat)
    requires i < |units| && MergeableLSU(units[i], dontMerge) && AllButLSUs(units, dontMerge, |units|, i)
    requires i < |before| && FirstLSU(before, dontMerge, i) && units[i].name == before[i].name
    requires SameOthers(before, units, dontMerge)
    ensures NameClash(before, dontMerge) <==>
            units[i].name != "LSU" && exists l :: 0 <= l < |units| && units[l].name == "LSU"
  {
    forall k | FirstLSU(before, dontMerge, k) ensures k == i {
    }
    if u :| u in before && u.name == "LSU" && !MergeableLSU(u, dontMerge) {
      assert u in units;
      var l :| 0 <= l < |units| && units[l] == u;
    }
    if units[i].name != "LSU" {
      forall l | 0 <= l < |units| && units[l].name == "LSU"
        ensures units[l] in before && !MergeableLSU(units[l], dontMerge)
      {
        assert units[l] in units;
      }
    }
  }

  lemma RenameKeeps(pool: Pool, before: seq<FunctionUnit>, units: seq<FunctionUnit>, dontMerge: set<string>, i: nat, name: string)
    requires Keeps(pool, before, units, dontMerge) && i < |units| && CanMerge(units[i], dontMerge) && name !in dontMerge
    ensures Keeps(pool, before, units[i := units[i].(name := name)], dontMerge)
  {
    var after := units[i := units[i].(name := name)];
    FixedUpdate(units, i, after[i], dontMerge);
    forall lsu: bool | true ensures Operations(after, lsu) == Operations(units, lsu) {
      forall k | 0 <= k < |units|
        ensures units[k].isLSU == lsu ==>
                  OperationNames(units[k].operations) <= Operations(after, lsu) && OperationNames(units[k].operations) <= Operations(units, lsu)
      {
        assert after[k] in after && units[k] in units;
      }
      SameOperations(units, after, lsu);
    }
  }
}
