/**
 Global lock wiring of the generated decoder (DefaultDecoderGenerator): which
 bit of the lock request and lock ports belongs to which unit, and what the
 emitted lock equations mean.
 */
module LockWiring {

  /** A function unit, register file or immediate unit as the wiring sees it. */
  datatype Unit = Unit(id: nat, ports: nat, hasGlock: bool, hasGlockReq: bool)

  /** The units with a lock port, and the function units that request locks, in order. */
  function Locked(units: seq<Unit>): seq<nat>
  {
    if units == [] then []
    else
      var u := units[|units| - 1];
      Locked(units[..|units| - 1]) + if u.ports != 0 && u.hasGlock then [u.id] else []
  }

  function Requesting(units: seq<Unit>): seq<nat>
  {
    if units == [] then []
    else
      var u := units[|units| - 1];
      Requesting(units[..|units| - 1]) + if u.ports != 0 && u.hasGlockReq then [u.id] else []
  }

  /** Units are different objects. */
  predicate DifferentUnits(units: seq<Unit>)
  {
    forall i, j :: 0 <= i < j < |units| ==> units[i].id != units[j].id
  }

  lemma {:induction false} RequestingMembers(units: seq<Unit>)
    requires DifferentUnits(units)
    ensures forall id :: id in Requesting(units) <==> exists k :: 0 <= k < |units| && units[k].id == id && units[k].ports != 0 && units[k].hasGlockReq
    ensures forall i, j :: 0 <= i < j < |Requesting(units)| ==> Requesting(units)[i] != Requesting(units)[j]
  {
    if units != [] {
      var front, last := units[..|units| - 1], units[|units| - 1];
      RequestingMembers(front);
      assert units == front + [last];
      forall id | id in Requesting(front) ensures id != last.id {
        var k :| 0 <= k < |front| && front[k].id == id;
      }
      forall k | 0 <= k < |units| && units[k].ports != 0 && units[k].hasGlockReq ensures units[k].id in Requesting(units) {
        assert k < |front| ==> front[k].id in Requesting(front);
      }
    }
  }

  /** A unit is not among the requesting units before it. */
  lemma NewRequester(units: seq<Unit>, i: nat)
    requires DifferentUnits(units) && i < |units|
    ensures units[i].id !in Requesting(units[..i])
  {
    RequestingMembers(units[..i]);
  }

  lemma {:induction false} LockedMembers(units: seq<Unit>)
    requires DifferentUnits(units)
    ensures forall id :: id in Locked(units) <==> exists k :: 0 <= k < |units| && units[k].id == id && units[k].ports != 0 && units[k].hasGlock
    ensures forall i, j :: 0 <= i < j < |Locked(units)| ==> Locked(units)[i] != Locked(units)[j]
  {
    if units != [] {
      var front, last := units[..|units| - 1], units[|units| - 1];
      LockedMembers(front);
      assert units == front + [last];
      forall id | id in Locked(front) ensures id != last.id {
        var k :| 0 <= k < |front| && front[k].id == id;
      }
      forall k | 0 <= k < |units| && units[k].ports != 0 && units[k].hasGlock ensures units[k].id in Locked(units) {
        assert k < |front| ==> front[k].id in Locked(front);
      }
    }
  }

  lemma {:induction false} LockedAppend(a: seq<Unit>, b: seq<Unit>)
    ensures Locked(a + b) == Locked(a) + Locked(b)
  {
    if b == [] {
      assert a + b == a;
    } else {
      LockedAppend(a, b[..|b| - 1]);
      assert (a + b)[..|a + b| - 1] == a + b[..|b| - 1];
    }
  }

  lemma LockedGrows(units: seq<Unit>, n: nat)
    requires n <= |units|
    ensures |Locked(units[..n])| <= |Locked(units)|
  {
    LockedAppend(units[..n], units[n..]);
    assert units[..n] + units[n..] == units;
  }

  lemma UnitsAtAppend(units: map<nat, nat>, at: seq<nat>, id: nat)
    requires UnitsAt(units, at)
    ensures UnitsAt(units[|at| := id], at + [id])
  {
  }

  /** Bit k belongs to the k-th unit, in both directions. */
  ghost predicate BitsOf(bits: map<nat, nat>, units: seq<nat>)
  {
    && (forall u :: u in bits ==> bits[u] < |units| && units[bits[u]] == u)
    && (forall k :: 0 <= k < |units| ==> units[k] in bits && bits[units[k]] == k)
  }

  ghost predicate UnitsAt(units: map<nat, nat>, at: seq<nat>)
  {
    && (forall k :: k in units ==> k < |at|)
    && (forall k :: 0 <= k < |at| ==> k in units && units[k] == at[k])
  }

  /** What one bit of the lock port is assigned: the disjunction of some request
      bits with the incoming request, or the merged lock signal. */
  datatype Equation = OthersOrIncoming(requests: set<nat>) | Merged

  class Wiring {
    const fus: seq<Unit>
    const rfs: seq<Unit>
    const ius: seq<Unit>
    const icHasGlock: bool
    const generateDebugger: bool
    const alternate: bool
    /** From requesting unit to its request bit. */
    var unitGlockReqBitMap: map<nat, nat>
    /** From lock bit to its unit. */
    var unitGlockBitMap: map<nat, nat>

    constructor (fus: seq<Unit>, rfs: seq<Unit>, ius: seq<Unit>, ic: bool, debugger: bool, alternate: bool)
      ensures this.fus == fus && this.rfs == rfs && this.ius == ius
      ensures icHasGlock == ic && generateDebugger == debugger && this.alternate == alternate
      ensures unitGlockReqBitMap == map[] && unitGlockBitMap == map[]
    {
      this.fus, this.rfs, this.ius := fus, rfs, ius;
      icHasGlock, generateDebugger, this.alternate := ic, debugger, alternate;
      unitGlockReqBitMap, unitGlockBitMap := map[], map[];
    }

    function AllUnits(): seq<Unit> { fus + rfs + ius }

    method GlockRequestWidth() returns (lockReqWidth: nat)
      ensures lockReqWidth == |Requesting(fus)| + if generateDebugger then 1 else 0
    {
      lockReqWidth := 0;
      for i := 0 to |fus|
        invariant lockReqWidth == |Requesting(fus[..i])|
      {
        assert fus[..i + 1][..i] == fus[..i];
        if fus[i].ports == 0 {
          continue;
        }
        if fus[i].hasGlockReq {
          lockReqWidth := lockReqWidth + 1;
        }
      }
      assert fus[..|fus|] == fus;
      if generateDebugger {
        lockReqWidth := lockReqWidth + 1;
      }
    }

    method CountLocked(units: seq<Unit>) returns (glockWidth: nat)
      ensures glockWidth == |Locked(units)|
    {
      glockWidth := 0;
      for i := 0 to |units|
        invariant glockWidth == |Locked(units[..i])|
      {
        assert units[..i + 1][..i] == units[..i];
        if units[i].ports == 0 {
          continue;
        }
        if units[i].hasGlock {
          glockWidth := glockWidth + 1;
        }
      }
      assert units[..|units|] == units;
    }

    method GlockPortWidth() returns (glockWidth: nat)
      ensures glockWidth == |Locked(AllUnits())| + if icHasGlock then 1 else 0
    {
      var fuWidth := CountLocked(fus);
      var rfWidth := CountLocked(rfs);
      var iuWidth := CountLocked(ius);
      glockWidth := fuWidth + rfWidth + iuWidth;
      LockedAppend(fus + rfs, ius);
      LockedAppend(fus, rfs);
      if icHasGlock {
        glockWidth := glockWidth + 1;
      }
    }

    /** Gives the requesting units their bits. */
    method AddLockReqPort()
      requires DifferentUnits(fus) && unitGlockReqBitMap == map[]
      modifies this`unitGlockReqBitMap
      ensures BitsOf(unitGlockReqBitMap, Requesting(fus))
    {
      var lockReqWidth := GlockRequestWidth();
      if lockReqWidth == 0 {
        return;
      }
      var bitToConnect := 0;
      for i := 0 to |fus|
        invariant bitToConnect == |Requesting(fus[..i])|
        invariant BitsOf(unitGlockReqBitMap, Requesting(fus[..i]))
      {
        assert fus[..i + 1][..i] == fus[..i];
        NewRequester(fus, i);
        if fus[i].ports == 0 {
          continue;
        }
        if fus[i].hasGlockReq {
          unitGlockReqBitMap := unitGlockReqBitMap[fus[i].id := bitToConnect];
          bitToConnect := bitToConnect + 1;
        }
      }
      assert fus[..|fus|] == fus;
    }

    /** One of the three loops that hand out lock bits. */
    method ConnectGlocks(units: seq<Unit>, firstBit: nat, glockWidth: nat, ghost before: seq<nat>) returns (bitToConnect: nat)
      requires UnitsAt(unitGlockBitMap, before) && firstBit == |before| && |before| + |Locked(units)| <= glockWidth
      modifies this`unitGlockBitMap
      ensures bitToConnect == firstBit + |Locked(units)| && UnitsAt(unitGlockBitMap, before + Locked(units))
    {
      bitToConnect := firstBit;
      for i := 0 to |units|
        invariant bitToConnect == firstBit + |Locked(units[..i])|
        invariant UnitsAt(unitGlockBitMap, before + Locked(units[..i]))
        invariant |Locked(units[..i])| <= |Locked(units)|
      {
        assert units[..i + 1][..i] == units[..i];
        LockedGrows(units, i + 1);
        if units[i].ports == 0 {
          continue;
        }
        if units[i].hasGlock {
          assert bitToConnect < glockWidth;
          assert before + Locked(units[..i + 1]) == (before + Locked(units[..i])) + [units[i].id];
          UnitsAtAppend(unitGlockBitMap, before + Locked(units[..i]), units[i].id);
          unitGlockBitMap := unitGlockBitMap[bitToConnect := units[i].id];
          bitToConnect := bitToConnect + 1;
        }
      }
      assert units[..|units|] == units;
    }

    /** Gives the units with a lock port their bits, and the interconnect the last. */
    method AddGlockPort() returns (bits: nat)
      requires unitGlockBitMap == map[]
      modifies this`unitGlockBitMap
      ensures UnitsAt(unitGlockBitMap, Locked(AllUnits()))
      ensures bits == |Locked(AllUnits())| + if icHasGlock then 1 else 0
    {
      var glockWidth := GlockPortWidth();
      LockedAppend(fus + rfs, ius);
      LockedAppend(fus, rfs);
      if glockWidth == 0 {
        return 0;
      }
      var bitToConnect := ConnectGlocks(fus, 0, glockWidth, []);
      assert [] + Locked(fus) == Locked(fus);
      bitToConnect := ConnectGlocks(rfs, bitToConnect, glockWidth, Locked(fus));
      bitToConnect := ConnectGlocks(ius, bitToConnect, glockWidth, Locked(fus) + Locked(rfs));
      if icHasGlock {
        bitToConnect := bitToConnect + 1;
      }
      bits := bitToConnect;
    }

    /** The equation emitted for one lock bit. */
    function EquationOf(bit: nat): Equation
      reads this
    {
      if alternate && bit in unitGlockBitMap && unitGlockBitMap[bit] in unitGlockReqBitMap then
        OthersOrIncoming(set u | u in unitGlockReqBitMap && u != unitGlockBitMap[bit] :: unitGlockReqBitMap[u])
      else Merged
    }

    method WriteGlockMapping() returns (equations: seq<Equation>)
      ensures |equations| == |Locked(AllUnits())| + if icHasGlock then 1 else 0
      ensures forall bit :: 0 <= bit < |equations| ==> equations[bit] == EquationOf(bit)
    {
      var glockWidth := GlockPortWidth();
      equations := [];
      for bit := 0 to glockWidth
        invariant |equations| == bit && forall b :: 0 <= b < bit ==> equations[b] == EquationOf(b)
      {
        if alternate && bit in unitGlockBitMap && unitGlockBitMap[bit] in unitGlockReqBitMap {
          var associated := unitGlockBitMap[bit];
          var requests := set u | u in unitGlockReqBitMap && u != associated :: unitGlockReqBitMap[u];
          equations := equations + [OthersOrIncoming(requests)];
        } else {
          equations := equations + [Merged];
        }
      }
    }

    /** Both maps have been filled. */
    ghost predicate Wired()
      reads this
    {
      && DifferentUnits(AllUnits()) && DifferentUnits(fus)
      && BitsOf(unitGlockReqBitMap, Requesting(fus)) && UnitsAt(unitGlockBitMap, Locked(AllUnits()))
    }

    function RequestWidth(): nat { |Requesting(fus)| + if generateDebugger then 1 else 0 }

    /** The value of a lock bit, given the request port, the incoming lock request
        and the pipeline fill lock. */
    ghost predicate Glock(bit: nat, request: nat -> bool, incoming: bool, fill: bool)
      reads this
    {
      match EquationOf(bit)
      case OthersOrIncoming(requests) => (exists r :: r in requests && request(r)) || incoming
      case Merged => (exists r :: 0 <= r < RequestWidth() && request(r)) || incoming || fill
    }

    /** Every unit with a lock port has exactly one bit. */
    lemma OneBitEach(id: nat)
      requires Wired() && id in Locked(AllUnits())
      ensures exists bit :: bit in unitGlockBitMap && unitGlockBitMap[bit] == id
      ensures forall a, b :: a in unitGlockBitMap && b in unitGlockBitMap && unitGlockBitMap[a] == unitGlockBitMap[b] ==> a == b
    {
      LockedMembers(AllUnits());
      var k :| 0 <= k < |Locked(AllUnits())| && Locked(AllUnits())[k] == id;
      assert k in unitGlockBitMap;
    }

    /** The lock bit of a unit whose own request does not lock it. */
    predicate Exempt(bit: nat)
      reads this
    {
      alternate && bit < |Locked(AllUnits())| && Locked(AllUnits())[bit] in Requesting(fus)
    }

    /** Request bit k is up, and lock bit `bit` listens to it. */
    predicate Heard(bit: nat, k: nat, request: nat -> bool)
      reads this
    {
      k < |Requesting(fus)| && request(k) && !(Exempt(bit) && Requesting(fus)[k] == Locked(AllUnits())[bit])
    }

    lemma HeardIsInEquation(bit: nat, k: nat, request: nat -> bool)
      requires Wired() && Exempt(bit) && Heard(bit, k, request)
      ensures EquationOf(bit).OthersOrIncoming? && k in EquationOf(bit).requests
    {
      var u := Requesting(fus)[k];
      assert u in unitGlockReqBitMap && unitGlockReqBitMap[u] == k;
      ExemptIsOthers(bit);
    }

    lemma ExemptIsOthers(bit: nat)
      requires Wired()
      ensures Exempt(bit) <==> EquationOf(bit).OthersOrIncoming?
    {
      if bit in unitGlockBitMap && unitGlockBitMap[bit] in unitGlockReqBitMap {
        var u := unitGlockBitMap[bit];
        assert Requesting(fus)[unitGlockReqBitMap[u]] == u;
      }
    }

    /**
     What locks the unit, or the interconnect, behind any lock bit: the incoming
     request; the k-th requesting unit's request on bit k, except a unit's own in
     the alternate wiring; and, for those that are not exempt from their own
     request, the pipeline fill and the debugger's request on the last bit.
     */
    lemma WhoLocks(bit: nat, request: nat -> bool, incoming: bool, fill: bool)
      requires Wired()
      ensures Glock(bit, request, incoming, fill) <==>
              || incoming
              || (exists k :: Heard(bit, k, request))
              || (!Exempt(bit) && (fill || (generateDebugger && request(|Requesting(fus)|))))
    {
      ExemptIsOthers(bit);
      if Exempt(bit) {
        ExemptHears(bit, request);
      } else {
        MergedHears(bit, request);
      }
    }

    lemma ExemptHears(bit: nat, request: nat -> bool)
      requires Wired() && Exempt(bit) && EquationOf(bit).OthersOrIncoming?
      ensures (exists r :: r in EquationOf(bit).requests && request(r)) <==> exists k :: Heard(bit, k, request)
    {
      forall k | Heard(bit, k, request) ensures k in EquationOf(bit).requests {
        HeardIsInEquation(bit, k, request);
      }
      forall r | r in EquationOf(bit).requests && request(r) ensures Heard(bit, r, request) {
        var u :| u in unitGlockReqBitMap && u != unitGlockBitMap[bit] && unitGlockReqBitMap[u] == r;
      }
    }

    lemma MergedHears(bit: nat, request: nat -> bool)
      requires !Exempt(bit)
      ensures (exists r :: 0 <= r < RequestWidth() && request(r)) <==>
              (exists k :: Heard(bit, k, request)) || (generateDebugger && request(|Requesting(fus)|))
    {
      forall r | 0 <= r < RequestWidth() && request(r)
        ensures Heard(bit, r, request) || (generateDebugger && request(|Requesting(fus)|))
      {
        assert r < |Requesting(fus)| ==> Heard(bit, r, request);
      }
    }

    /** A request locks every unit but the requesting one. */
    lemma RequestLocksOthers(u: nat, bit: nat, request: nat -> bool, incoming: bool, fill: bool)
      requires Wired() && u in unitGlockReqBitMap && request(unitGlockReqBitMap[u])
      requires alternate && bit in unitGlockBitMap ==> unitGlockBitMap[bit] != u
      ensures Glock(bit, request, incoming, fill)
    {
      WhoLocks(bit, request, incoming, fill);
      assert Heard(bit, unitGlockReqBitMap[u], request);
    }

    /** Two requests lock everything. */
    lemma TwoRequestsLockAll(u: nat, v: nat, bit: nat, request: nat -> bool, incoming: bool, fill: bool)
      requires Wired() && u != v && u in unitGlockReqBitMap && v in unitGlockReqBitMap
      requires request(unitGlockReqBitMap[u]) && request(unitGlockReqBitMap[v])
      ensures Glock(bit, request, incoming, fill)
    {
      if bit in unitGlockBitMap && unitGlockBitMap[bit] == u {
        RequestLocksOthers(v, bit, request, incoming, fill);
      } else {
        RequestLocksOthers(u, bit, request, incoming, fill);
      }
    }

    /** A unit that alone requests a lock goes on. */
    lemma NoSelfLock(u: nat, bit: nat, request: nat -> bool, fill: bool)
      requires Wired() && alternate && bit in unitGlockBitMap && unitGlockBitMap[bit] == u && u in unitGlockReqBitMap
      requires forall r :: 0 <= r < RequestWidth() && request(r) ==> r == unitGlockReqBitMap[u]
      ensures !Glock(bit, request, false, fill)
    {
      WhoLocks(bit, request, false, fill);
      ExemptIsOthers(bit);
    }

    /** The debugger's request bit, the last one, leaves a requesting unit running. */
    lemma DebuggerDoesNotLockRequester(bit: nat, request: nat -> bool, fill: bool)
      requires Wired() && alternate && bit in unitGlockBitMap && unitGlockBitMap[bit] in unitGlockReqBitMap
      requires generateDebugger && forall r :: request(r) <==> r == RequestWidth() - 1
      ensures !Glock(bit, request, false, fill)
    {
      WhoLocks(bit, request, false, fill);
      ExemptIsOthers(bit);
    }
  }
}
