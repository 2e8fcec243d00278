/**
 MinimizeMachine: a bisection over the number of buses and a greedy
 remove/evaluate/restore loop over the function units or register files. What
 the evaluator and the simulator say about a machine is an `Oracle`.
 */
module MinimizeMachine {
  import opened BitVectors
  import opened Sequences

  /** `limits[i] == 0` means that application i has no time constraint. */
  datatype Oracle<!M> = Oracle(evaluates: M -> bool, cycles: M -> seq<nat>, limits: seq<nat>)

  predicate WithinLimits(counts: seq<nat>, limits: seq<nat>)
    requires |counts| == |limits|
  {
    forall i :: 0 <= i < |counts| && limits[i] > 0 ==> counts[i] <= limits[i]
  }

  predicate Accepts<M>(o: Oracle<M>, m: M)
  {
    o.evaluates(m) && |o.cycles(m)| == |o.limits| && WithinLimits(o.cycles(m), o.limits)
  }

  function Verdict<M>(o: Oracle<M>): M -> bool { (m: M) => Accepts(o, m) }

  method CheckCycleCounts(cycleCounts: seq<nat>, maxCycleCounts: seq<nat>) returns (ok: bool)
    requires |cycleCounts| == |maxCycleCounts|
    ensures ok == WithinLimits(cycleCounts, maxCycleCounts)
    ensures ok <==> forall i :: 0 <= i < |cycleCounts| ==> maxCycleCounts[i] == 0 || cycleCounts[i] <= maxCycleCounts[i]
  {
    for i := 0 to |cycleCounts|
      invariant WithinLimits(cycleCounts[..i], maxCycleCounts[..i])
    {
      if maxCycleCounts[i] < 1 {
        continue;
      }
      if maxCycleCounts[i] < cycleCounts[i] {
        return false;
      }
    }
    return true;
  }

  method Check<M>(o: Oracle<M>, m: M) returns (ok: bool)
    ensures ok == Verdict(o)(m)
  {
    if !o.evaluates(m) || |o.cycles(m)| != |o.limits| {
      return false;
    }
    ok := CheckCycleCounts(o.cycles(m), o.limits);
  }

  // ------------------------------------------------------ bus count bisection

  /** `Thrown`: asked to remove more buses than there are without a template slot. */
  datatype Reduction = Unchanged | Reduced(buses: nat) | Thrown

  /** The count the bisection accepts last from a loop state (`last`, 0 for
      none, until it accepts another). */
  function Bisect(ok: nat -> bool, low: nat, mid: nat, high: nat, last: nat): nat
    requires low <= mid <= high
    decreases high - low
  {
    if ok(mid) then
      if low < mid then Bisect(ok, low, (low + mid) / 2, mid - 1, mid) else mid
    else
      if mid + 1 <= (mid + high) / 2 then Bisect(ok, mid + 1, (mid + high) / 2, high, last) else last
  }

  /** The number of counts it probes. */
  function Probes(ok: nat -> bool, low: nat, mid: nat, high: nat): nat
    requires low <= mid <= high
    decreases high - low
  {
    if ok(mid) then
      if low < mid then 1 + Probes(ok, low, (low + mid) / 2, mid - 1) else 1
    else
      if mid + 1 <= (mid + high) / 2 then 1 + Probes(ok, mid + 1, (mid + high) / 2, high) else 1
  }

  /** Whether it comes to a count that leaves fewer buses than template slots. */
  predicate GoesBelow(ok: nat -> bool, low: nat, mid: nat, high: nat, slots: nat)
    requires low <= mid <= high
    decreases high - low
  {
    || mid < slots
    || (ok(mid) && low < mid && GoesBelow(ok, low, (low + mid) / 2, mid - 1, slots))
    || (!ok(mid) && mid + 1 <= (mid + high) / 2 && GoesBelow(ok, mid + 1, (mid + high) / 2, high, slots))
  }

  /** One turn of the loop: probes the middle count and halves the interval. */
  method Probe(o: Oracle<nat>, low: nat, mid: nat, high: nat, last: nat)
    returns (more: bool, busLow: nat, busMid: nat, busHigh: nat, lastOK: nat)
    requires 1 <= low <= mid <= high
    ensures more ==> 1 <= busLow <= busMid <= busHigh <= high && busHigh - busLow < high - low
    ensures Bisect(Verdict(o), low, mid, high, last) ==
            if more then Bisect(Verdict(o), busLow, busMid, busHigh, lastOK) else lastOK
    ensures Probes(Verdict(o), low, mid, high) ==
            if more then 1 + Probes(Verdict(o), busLow, busMid, busHigh) else 1
    ensures forall slots: nat :: GoesBelow(Verdict(o), low, mid, high, slots) <==>
              mid < slots || (more && GoesBelow(Verdict(o), busLow, busMid, busHigh, slots))
  {
    busLow, busMid, busHigh, lastOK := low, mid, high, last;
    var newConfigOK := Check(o, busMid);
    if newConfigOK {
      lastOK := busMid;
      busHigh := busMid - 1;
      busMid := (busLow + busMid) / 2;
    } else {
      busLow := busMid + 1;
      busMid := (busMid + busHigh) / 2;
    }
    more := busLow <= busHigh && busLow <= busMid;
  }

  method MinimizeBuses(origBusCount: nat, slotBuses: nat, o: Oracle<nat>) returns (r: Reduction, ghost probes: nat)
    requires slotBuses <= origBusCount
    ensures origBusCount < 2 || !Verdict(o)(origBusCount) ==> r == Unchanged
    ensures r.Thrown? <==> origBusCount >= 2 && Verdict(o)(origBusCount)
                           && GoesBelow(Verdict(o), 1, (1 + origBusCount) / 2, origBusCount, slotBuses)
    ensures forall least: nat :: origBusCount >= 2 && Threshold(Verdict(o), origBusCount, least) ==>
              (r.Thrown? <==>
                && slotBuses >= 2
                && ((1 + origBusCount) / 2 < slotBuses || least <= Lowest((1 + origBusCount) / 2, slotBuses)))
    ensures !r.Thrown? && origBusCount >= 2 && Verdict(o)(origBusCount) ==>
              var found := Bisect(Verdict(o), 1, (1 + origBusCount) / 2, origBusCount, 0);
              && r == (if found == 0 then Unchanged else Reduced(found))
              && probes == Probes(Verdict(o), 1, (1 + origBusCount) / 2, origBusCount)
  {
    probes := 0;
    forall least: nat | origBusCount >= 2 && Threshold(Verdict(o), origBusCount, least) {
      ThrowsExactly(Verdict(o), origBusCount, least, (1 + origBusCount) / 2, origBusCount, slotBuses);
    }
    if origBusCount < 2 {
      return Unchanged, 0;
    }
    var startOK := Check(o, origBusCount);
    if !startOK {
      return Unchanged, 0;
    }
    var busLow, busMid, busHigh, lastOK := 1, (1 + origBusCount) / 2, origBusCount, 0;
    var more := true;
    ghost var found := Bisect(Verdict(o), busLow, busMid, busHigh, 0);
    ghost var count := Probes(Verdict(o), busLow, busMid, busHigh);
    while more
      invariant more ==> 1 <= busLow <= busMid <= busHigh
      invariant found == if more then Bisect(Verdict(o), busLow, busMid, busHigh, lastOK) else lastOK
      invariant GoesBelow(Verdict(o), 1, (1 + origBusCount) / 2, origBusCount, slotBuses) <==>
                  more && GoesBelow(Verdict(o), busLow, busMid, busHigh, slotBuses)
      invariant count == probes + if more then Probes(Verdict(o), busLow, busMid, busHigh) else 0
      decreases more, busHigh - busLow
    {
      if busMid < slotBuses {
        return Thrown, probes;
      }
      probes := probes + 1;
      more, busLow, busMid, busHigh, lastOK := Probe(o, busLow, busMid, busHigh, lastOK);
    }
    r := if lastOK == 0 then Unchanged else Reduced(lastOK);
  }

  /** Exactly the counts from `least` on are feasible. */
  ghost predicate Threshold(ok: nat -> bool, n: nat, least: nat)
  {
    1 <= least <= n && forall k :: 1 <= k <= n ==> (ok(k) <==> k >= least)
  }

  /** The bisection accepts one bus above the minimum while two or more smaller
      counts than the minimum are still in its interval: the interval's upper
      end, which is the minimum, is then never probed. */
  predicate SkipsMinimum(low: nat, mid: nat, high: nat, least: nat)
    requires low <= mid <= high
    decreases high - low
  {
    if mid == least + 1 then low + 2 <= least
    else if mid > least then
      low < mid && SkipsMinimum(low, (low + mid) / 2, mid - 1, least)
    else if mid == least then false
    else
      mid + 1 <= (mid + high) / 2 && SkipsMinimum(mid + 1, (mid + high) / 2, high, least)
  }

  lemma {:induction false} AllFail(ok: nat -> bool, low: nat, mid: nat, high: nat, last: nat)
    requires low <= mid <= high
    requires forall k :: low <= k < high ==> !ok(k)
    requires mid < high || !ok(high)
    ensures Bisect(ok, low, mid, high, last) == last
    decreases high - low
  {
    if mid + 1 <= (mid + high) / 2 {
      AllFail(ok, mid + 1, (mid + high) / 2, high, last);
    }
  }

  lemma {:induction false} BisectFinds(ok: nat -> bool, n: nat, least: nat, low: nat, mid: nat, high: nat, last: nat)
    requires Threshold(ok, n, least) && 1 <= low <= mid <= high <= n && low <= least <= high
    requires if last == 0 then high == n && mid < n else least < high
    ensures var found := Bisect(ok, low, mid, high, last);
            (if found == 0 then n else found) == if SkipsMinimum(low, mid, high, least) then least + 1 else least
    decreases high - low
  {
    if mid == least + 1 {
      OneAbove(ok, n, least, low, high, last);
    } else if mid > least {
      BisectFinds(ok, n, least, low, (low + mid) / 2, mid - 1, mid);
    } else if mid == least {
      AfterMinimum(ok, n, least, low, high, last);
    } else if mid + 1 <= (mid + high) / 2 {
      BisectFinds(ok, n, least, mid + 1, (mid + high) / 2, high, last);
    }
  }

  /** What becomes of a search that accepts one above the minimum. */
  lemma OneAbove(ok: nat -> bool, n: nat, least: nat, low: nat, high: nat, last: nat)
    requires Threshold(ok, n, least) && 1 <= low <= least < high <= n
    ensures Bisect(ok, low, least + 1, high, last) == if low + 2 <= least then least + 1 else least
  {
    var next := (low + least + 1) / 2;
    if low + 2 <= least {
      AllFail(ok, low, next, least, least + 1);
    } else {
      assert next == least;
      AfterMinimum(ok, n, least, low, least, least + 1);
    }
  }

  /** Once the minimum has been probed it stays. */
  lemma AfterMinimum(ok: nat -> bool, n: nat, least: nat, low: nat, high: nat, last: nat)
    requires Threshold(ok, n, least) && 1 <= low <= least <= high <= n
    ensures Bisect(ok, low, least, high, last) == least
  {
    if low < least {
      AllFail(ok, low, (low + least) / 2, least - 1, least);
    }
  }

  /** On a monotone feasibility test the bisection returns the minimum or one
      bus more, and one bus more exactly when it skips the minimum. */
  lemma BisectionNearlyMinimal(ok: nat -> bool, n: nat, least: nat)
    requires n >= 2 && Threshold(ok, n, least)
    ensures var found := Bisect(ok, 1, (1 + n) / 2, n, 0);
            var buses := if found == 0 then n else found;
            && ok(buses)
            && buses == if SkipsMinimum(1, (1 + n) / 2, n, least) then least + 1 else least
  {
    BisectFinds(ok, n, least, 1, (1 + n) / 2, n, 0);
    if SkipsMinimum(1, (1 + n) / 2, n, least) {
      SkipsBelow(1, (1 + n) / 2, n, least);
    }
  }

  lemma {:induction false} SkipsBelow(low: nat, mid: nat, high: nat, least: nat)
    requires low <= mid <= high && SkipsMinimum(low, mid, high, least)
    ensures least + 1 <= high
    decreases high - low
  {
    if mid > least + 1 {
      SkipsBelow(low, (low + mid) / 2, mid - 1, least);
    } else if mid < least {
      SkipsBelow(mid + 1, (mid + high) / 2, high, least);
    }
  }

  function MidOf(low: nat, size: nat, up: bool): nat
    requires size > 0
  {
    if up then low + size / 2 else low + (size - 1) / 2
  }

  function HighOf(low: nat, size: nat, up: bool): nat
    requires size > 0
  {
    if up then low + size - 1 else low + size
  }

  lemma IntervalHalves(low: nat, size: nat, up: bool)
    requires size > 0
    ensures var mid, high := MidOf(low, size, up), HighOf(low, size, up);
            && low <= mid <= high && mid - low <= size / 2
            && (low < mid ==> (low + mid) / 2 == MidOf(low, mid - low, true))
            && (mid + 1 <= (mid + high) / 2 ==>
                  && 0 < high - mid - 1 <= size / 2
                  && (mid + high) / 2 == MidOf(mid + 1, high - mid - 1, false))
  {
  }

  lemma HalfIsShorter(part: nat, size: nat)
    requires 0 < size && part <= size / 2
    ensures 1 + BitLength(part) <= BitLength(size)
  {
    BitLengthMonotone(part, size / 2);
  }

  lemma ProbesAccepting(ok: nat -> bool, low: nat, mid: nat, high: nat, size: nat)
    requires low <= mid <= high && ok(mid) && size > 0 && mid - low <= size / 2
    requires low < mid ==> Probes(ok, low, (low + mid) / 2, mid - 1) <= BitLength(mid - low)
    ensures Probes(ok, low, mid, high) <= BitLength(size)
  {
    HalfIsShorter(mid - low, size);
  }

  lemma ProbesRejecting(ok: nat -> bool, low: nat, mid: nat, high: nat, size: nat)
    requires low <= mid <= high && !ok(mid) && size > 0
    requires mid + 1 <= (mid + high) / 2 ==>
               && high - mid - 1 <= size / 2
               && Probes(ok, mid + 1, (mid + high) / 2, high) <= BitLength(high - mid - 1)
    ensures Probes(ok, low, mid, high) <= BitLength(size)
  {
    HalfIsShorter(if mid + 1 <= (mid + high) / 2 then high - mid - 1 else 0, size);
  }

  /** Probes from a state left by an accepting probe, with `size` counts left,
      or by a rejecting one, with one count more. */
  lemma {:induction false} FewProbesFrom(ok: nat -> bool, low: nat, size: nat, up: bool)
    requires size > 0
    ensures MidOf(low, size, up) <= HighOf(low, size, up)
    ensures Probes(ok, low, MidOf(low, size, up), HighOf(low, size, up)) <= BitLength(size)
    decreases size, 1
  {
    var mid, high := MidOf(low, size, up), HighOf(low, size, up);
    IntervalHalves(low, size, up);
    if ok(mid) {
      FewAfterAccepting(ok, low, mid, high, size);
    } else {
      FewAfterRejecting(ok, low, mid, high, size);
    }
  }

  lemma {:induction false} FewAfterAccepting(ok: nat -> bool, low: nat, mid: nat, high: nat, size: nat)
    requires low <= mid <= high && ok(mid) && size > 0 && mid - low <= size / 2
    requires low < mid ==> (low + mid) / 2 == MidOf(low, mid - low, true)
    ensures Probes(ok, low, mid, high) <= BitLength(size)
    decreases size, 0
  {
    if low < mid {
      FewProbesFrom(ok, low, mid - low, true);
    }
    ProbesAccepting(ok, low, mid, high, size);
  }

  lemma {:induction false} FewAfterRejecting(ok: nat -> bool, low: nat, mid: nat, high: nat, size: nat)
    requires low <= mid <= high && !ok(mid) && size > 0
    requires mid + 1 <= (mid + high) / 2 ==>
               && 0 < high - mid - 1 <= size / 2
               && (mid + high) / 2 == MidOf(mid + 1, high - mid - 1, false)
    ensures Probes(ok, low, mid, high) <= BitLength(size)
    decreases size, 0
  {
    if mid + 1 <= (mid + high) / 2 {
      FewProbesFrom(ok, mid + 1, high - mid - 1, false);
    }
    ProbesRejecting(ok, low, mid, high, size);
  }

  /** At most floor(log2 n) + 1 probes, whatever the oracle says. */
  lemma FewProbes(ok: nat -> bool, n: nat)
    requires n >= 2
    ensures Probes(ok, 1, (1 + n) / 2, n) <= BitLength(n)
  {
    if ok((1 + n) / 2) {
      FewAfterAccepting(ok, 1, (1 + n) / 2, n, n);
    } else {
      FewAfterRejecting(ok, 1, (1 + n) / 2, n, n);
    }
  }

  /** A bisection never asks for fewer buses than its lower bound, so with at most
      one template slot on the starting interval it never throws. */
  lemma {:induction false} OneSlotNeverThrows(ok: nat -> bool, low: nat, mid: nat, high: nat, slots: nat)
    requires 1 <= low <= mid <= high
    ensures slots <= low ==> !GoesBelow(ok, low, mid, high, slots)
    decreases high - low
  {
    if ok(mid) && low < mid {
      OneSlotNeverThrows(ok, low, (low + mid) / 2, mid - 1, slots);
    } else if !ok(mid) && mid + 1 <= (mid + high) / 2 {
      OneSlotNeverThrows(ok, mid + 1, (mid + high) / 2, high, slots);
    }
  }

  /** The smallest count from `slots` on among mid, (1 + mid) / 2 and so on down. */
  function Lowest(mid: nat, slots: nat): (count: nat)
    ensures count <= mid && (mid >= slots ==> count >= slots)
    ensures mid >= 1 ==> count >= 1 && (count == 1 || (1 + count) / 2 < slots)
  {
    if mid <= 1 || (1 + mid) / 2 < slots then mid else Lowest((1 + mid) / 2, slots)
  }

  /** On a monotone test the bisection halves its way down from the middle while
      counts are feasible, so it throws exactly when it gets below the slot buses
      that way: its first count is already below them, or every count it halves to
      from there on is feasible. */
  lemma {:induction false} ThrowsExactly(ok: nat -> bool, n: nat, least: nat, mid: nat, high: nat, slots: nat)
    requires Threshold(ok, n, least) && 1 <= mid <= high <= n
    ensures GoesBelow(ok, 1, mid, high, slots) <==> slots >= 2 && (mid < slots || least <= Lowest(mid, slots))
    decreases mid
  {
    if slots < 2 {
      OneSlotNeverThrows(ok, 1, mid, high, slots);
    } else if mid >= slots {
      if ok(mid) {
        ThrowsExactly(ok, n, least, (1 + mid) / 2, mid - 1, slots);
      } else if mid + 1 <= (mid + high) / 2 {
        OneSlotNeverThrows(ok, mid + 1, (mid + high) / 2, high, slots);
      }
    }
  }

  /** Three buses and more are enough. */
  function ThreeBuses(): nat -> bool { (k: nat) => k >= 3 }

  /** Eight buses of which three are enough: the answer is four. */
  lemma EightBusesNeedThree()
    ensures Threshold(ThreeBuses(), 8, 3) && Bisect(ThreeBuses(), 1, 4, 8, 0) == 4
  {
    assert Bisect(ThreeBuses(), 1, 2, 3, 4) == 4;
  }

  // --------------------------------------------------- greedy unit removal

  /** A unit of a machine: its architecture up to equality, and which one it is. */
  datatype Unit = Unit(kind: nat, id: nat)

  type Machine = seq<Unit>

  /** Removes units of one kind, first to last, until a removal is refused. */
  function Shed(ok: Machine -> bool, m: Machine, kind: nat, i: nat): Machine
    requires i <= |m|
    decreases |m| - i
  {
    if i == |m| then m
    else if m[i].kind != kind then Shed(ok, m, kind, i + 1)
    else if ok(Without(m, i)) then Shed(ok, Without(m, i), kind, i)
    else m
  }

  function ShedAll(ok: Machine -> bool, m: Machine, kinds: seq<nat>): Machine
    decreases |kinds|
  {
    if kinds == [] then m else ShedAll(ok, Shed(ok, m, kinds[0], 0), kinds[1..])
  }

  method MinimizeUnits(o: Oracle<Machine>, origMach: Machine, kinds: seq<nat>) returns (result: Machine)
    ensures result == if Verdict(o)(origMach) then ShedAll(Verdict(o), origMach, kinds) else origMach
  {
    var startOK := Check(o, origMach);
    if !startOK {
      return origMach;
    }
    var currentState := origMach;
    assert kinds[0..] == kinds;
    for k := 0 to |kinds|
      invariant ShedAll(Verdict(o), currentState, kinds[k..]) == ShedAll(Verdict(o), origMach, kinds)
    {
      var mach := currentState;
      var i := 0;
      ghost var goal := Shed(Verdict(o), mach, kinds[k], 0);
      while i < |mach|
        invariant i <= |mach| && mach == currentState
        invariant Shed(Verdict(o), mach, kinds[k], i) == goal
        decreases |mach| - i
      {
        if mach[i].kind == kinds[k] {
          mach := Without(mach, i);
          var ok := Check(o, mach);
          if !ok {
            break;
          }
          currentState := mach;
          continue;
        }
        i := i + 1;
      }
      assert currentState == goal && kinds[k..][1..] == kinds[k + 1..];
    }
    return currentState;
  }

  /** The machine without its first n units of a kind. */
  ghost function DropFirst(m: Machine, kind: nat, n: nat): Machine
  {
    if n == 0 || m == [] then m
    else if m[0].kind == kind then DropFirst(m[1..], kind, n - 1)
    else [m[0]] + DropFirst(m[1..], kind, n)
  }

  ghost function CountOf(m: Machine, kind: nat): nat
  {
    if m == [] then 0 else CountOf(m[1..], kind) + if m[0].kind == kind then 1 else 0
  }

  lemma {:induction false} DropsOne(m: Machine, kind: nat, i: nat, n: nat)
    requires i < |m| && m[i].kind == kind && forall j :: 0 <= j < i ==> m[j].kind != kind
    ensures DropFirst(m, kind, n + 1) == DropFirst(Without(m, i), kind, n)
    ensures CountOf(m, kind) == CountOf(Without(m, i), kind) + 1
  {
    if i == 0 {
      assert Without(m, 0) == m[1..];
    } else {
      DropsOne(m[1..], kind, i - 1, n);
      assert Without(m, i)[1..] == Without(m[1..], i - 1) && Without(m, i)[0] == m[0];
      if n == 0 {
        assert Without(m, i) == [m[0]] + Without(m, i)[1..];
      }
    }
  }

  lemma {:induction false} CountOfNone(m: Machine, kind: nat)
    requires forall j :: 0 <= j < |m| ==> m[j].kind != kind
    ensures CountOf(m, kind) == 0
  {
    if m != [] {
      CountOfNone(m[1..], kind);
    }
  }

  /** Without each of its first 1, .., n units of the kind the machine is accepted,
      and it is refused without one more, or there is none. */
  ghost predicate StopsAt(ok: Machine -> bool, m: Machine, kind: nat, n: nat)
  {
    && n <= CountOf(m, kind) && (forall k: nat :: 1 <= k <= n ==> ok(DropFirst(m, kind, k)))
    && (n == CountOf(m, kind) || !ok(DropFirst(m, kind, n + 1)))
  }

  /** One pass drops the first units of the kind, up to the first refusal. */
  lemma {:induction false} ShedDropsFirst(ok: Machine -> bool, m: Machine, kind: nat, i: nat)
    requires i <= |m| && forall j :: 0 <= j < i ==> m[j].kind != kind
    ensures exists n: nat :: StopsAt(ok, m, kind, n) && Shed(ok, m, kind, i) == DropFirst(m, kind, n)
    decreases |m| - i
  {
    if i == |m| {
      CountOfNone(m, kind);
      assert StopsAt(ok, m, kind, 0);
    } else if m[i].kind != kind {
      ShedDropsFirst(ok, m, kind, i + 1);
    } else if ok(Without(m, i)) {
      var next := Without(m, i);
      ShedDropsFirst(ok, next, kind, i);
      var n: nat :| StopsAt(ok, next, kind, n) && Shed(ok, next, kind, i) == DropFirst(next, kind, n);
      forall k: nat ensures DropFirst(m, kind, k + 1) == DropFirst(next, kind, k) && CountOf(m, kind) == CountOf(next, kind) + 1 {
        DropsOne(m, kind, i, k);
      }
      StopsLater(ok, m, next, kind, n);
    } else {
      DropsOne(m, kind, i, 0);
      assert StopsAt(ok, m, kind, 0);
    }
  }

  lemma StopsLater(ok: Machine -> bool, m: Machine, next: Machine, kind: nat, n: nat)
    requires StopsAt(ok, next, kind, n) && ok(next) && CountOf(m, kind) == CountOf(next, kind) + 1
    requires forall k: nat :: DropFirst(m, kind, k + 1) == DropFirst(next, kind, k)
    ensures StopsAt(ok, m, kind, n + 1)
  {
    forall k: nat | 1 <= k <= n + 1 ensures ok(DropFirst(m, kind, k)) {
      assert DropFirst(m, kind, k - 1 + 1) == DropFirst(next, kind, k - 1);
    }
  }

  /** The kinds are passed in their order. */
  lemma {:induction false} KindsInOrder(ok: Machine -> bool, m: Machine, kinds: seq<nat>, kind: nat)
    ensures ShedAll(ok, m, kinds + [kind]) == Shed(ok, ShedAll(ok, m, kinds), kind, 0)
    decreases |kinds|
  {
    if kinds != [] {
      KindsInOrder(ok, Shed(ok, m, kinds[0], 0), kinds[1..], kind);
      assert (kinds + [kind])[1..] == kinds[1..] + [kind];
    }
  }

  lemma {:induction false} ShedKeeps(ok: Machine -> bool, m: Machine, kind: nat, i: nat, orig: Machine)
    requires i <= |m| && ok(m) && Subsequence(m, orig)
    ensures ok(Shed(ok, m, kind, i)) && Subsequence(Shed(ok, m, kind, i), orig)
    decreases |m| - i
  {
    if i < |m| {
      if m[i].kind != kind {
        ShedKeeps(ok, m, kind, i + 1, orig);
      } else if ok(Without(m, i)) {
        SubsequenceWithout(m, orig, i);
        ShedKeeps(ok, Without(m, i), kind, i, orig);
      }
    }
  }

  /** Whatever the oracle says, the result is an accepted machine made of units
      of the original in their order. */
  lemma {:induction false} ShedAllKeeps(ok: Machine -> bool, m: Machine, kinds: seq<nat>, orig: Machine)
    requires ok(m) && Subsequence(m, orig)
    ensures ok(ShedAll(ok, m, kinds)) && Subsequence(ShedAll(ok, m, kinds), orig)
    decreases |kinds|
  {
    if kinds != [] {
      ShedKeeps(ok, m, kinds[0], 0, orig);
      ShedAllKeeps(ok, Shed(ok, m, kinds[0], 0), kinds[1..], orig);
    }
  }

  function KindsOf(m: Machine): multiset<nat>
  {
    if m == [] then multiset{} else KindsOf(m[1..]) + multiset{m[0].kind}
  }

  lemma {:induction false} KindsOfWithout(m: Machine, i: nat)
    requires i < |m|
    ensures KindsOf(m) == KindsOf(Without(m, i)) + multiset{m[i].kind}
  {
    if i == 0 {
      assert Without(m, 0) == m[1..];
    } else {
      KindsOfWithout(m[1..], i - 1);
      var rest := Without(m[1..], i - 1);
      assert Without(m, i)[1..] == rest && Without(m, i)[0] == m[0];
      Swap(KindsOf(rest), m[i].kind, m[0].kind);
    }
  }

  lemma Swap(a: multiset<nat>, x: nat, y: nat)
    ensures a + multiset{x} + multiset{y} == a + multiset{y} + multiset{x}
  {
  }

  lemma {:induction false} KindsOfNone(m: Machine, kind: nat)
    requires forall j :: 0 <= j < |m| ==> m[j].kind != kind
    ensures kind !in KindsOf(m)
  {
    if m != [] {
      KindsOfNone(m[1..], kind);
    }
  }

  /** Acceptance depends on the kinds of the units only, and removing units
      never makes an unacceptable machine acceptable. */
  ghost predicate Monotone(ok: Machine -> bool, accepted: multiset<nat> -> bool)
  {
    && (forall m {:trigger ok(m)} :: ok(m) == accepted(KindsOf(m)))
    && (forall a, b :: a <= b && accepted(a) ==> accepted(b))
  }

  ghost predicate NeedsAll(accepted: multiset<nat> -> bool, kinds: multiset<nat>, kind: nat)
  {
    kind in kinds ==> !accepted(kinds - multiset{kind})
  }

  lemma {:induction false} ShedShrinks(ok: Machine -> bool, m: Machine, kind: nat, i: nat)
    requires i <= |m|
    ensures KindsOf(Shed(ok, m, kind, i)) <= KindsOf(m)
    decreases |m| - i
  {
    if i < |m| {
      if m[i].kind != kind {
        ShedShrinks(ok, m, kind, i + 1);
      } else if ok(Without(m, i)) {
        KindsOfWithout(m, i);
        ShedShrinks(ok, Without(m, i), kind, i);
      }
    }
  }

  lemma {:induction false} ShedExhausts(ok: Machine -> bool, accepted: multiset<nat> -> bool, m: Machine, kind: nat, i: nat)
    requires Monotone(ok, accepted) && i <= |m|
    requires forall j :: 0 <= j < i ==> m[j].kind != kind
    ensures NeedsAll(accepted, KindsOf(Shed(ok, m, kind, i)), kind)
    decreases |m| - i
  {
    if i == |m| {
      KindsOfNone(m, kind);
    } else if m[i].kind != kind {
      ShedExhausts(ok, accepted, m, kind, i + 1);
    } else {
      var next := Without(m, i);
      if ok(next) {
        ShedExhausts(ok, accepted, next, kind, i);
      } else {
        KindsOfWithout(m, i);
        assert KindsOf(m) - multiset{kind} == KindsOf(next);
      }
    }
  }

  lemma {:induction false} StillNeedsAll(ok: Machine -> bool, accepted: multiset<nat> -> bool, m: Machine, kinds: seq<nat>, kind: nat)
    requires Monotone(ok, accepted)
    requires NeedsAll(accepted, KindsOf(m), kind) || kind in kinds
    ensures NeedsAll(accepted, KindsOf(ShedAll(ok, m, kinds)), kind)
    decreases |kinds|
  {
    if kinds != [] {
      var next := Shed(ok, m, kinds[0], 0);
      ShedExhausts(ok, accepted, m, kinds[0], 0);
      ShedShrinks(ok, m, kinds[0], 0);
      if NeedsAll(accepted, KindsOf(m), kind) && kind in KindsOf(next) {
        assert KindsOf(next) - multiset{kind} <= KindsOf(m) - multiset{kind};
      }
      assert kind in kinds ==> kind == kinds[0] || kind in kinds[1..];
      StillNeedsAll(ok, accepted, next, kinds[1..], kind);
    }
  }

  /** Under a monotone oracle no single further unit of an analysed kind can be
      removed from the result. */
  lemma NoUnitToSpare(ok: Machine -> bool, accepted: multiset<nat> -> bool, m: Machine, kinds: seq<nat>, i: nat)
    requires Monotone(ok, accepted)
    requires i < |ShedAll(ok, m, kinds)| && ShedAll(ok, m, kinds)[i].kind in kinds
    ensures !ok(Without(ShedAll(ok, m, kinds), i))
  {
    var r := ShedAll(ok, m, kinds);
    StillNeedsAll(ok, accepted, m, kinds, r[i].kind);
    KindsOfWithout(r, i);
  }
}
