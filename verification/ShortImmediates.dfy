/**
 ShortImmediateOptimizer: histograms of the executed immediates of a 32-bit bus,
 running sums of what each width covers, and a greedy distribution of a bit
 budget over the buses.

 The source stores the entry for a width of `w` bits at index w-1 of a bus's
 list but reads the list at index w. The distribution is therefore modelled on
 any list, and the list as it is built and the list as it is meant to be read
 are two instances.
 */
module ShortImmediates {
  import opened BitVectors
  import opened Sequences

  // ------------------------------------------------------------- histograms

  const WIDTH := 32

  /** A 32-bit signed immediate. */
  type Immediate = v: int | -0x8000_0000 <= v < 0x8000_0000

  /** The complement of a negative number. */
  function Flip(v: int): nat
    requires v < 0
  {
    -v - 1
  }

  /** The histogram column the source counts an immediate in. */
  function Bits(v: Immediate): nat
  {
    if v < 0 then RequiredBits(Flip(v)) + 1 else RequiredBits(v)
  }

  /** The value of an i-bit field, zero- or sign-extended. */
  predicate FitsUnsigned(v: Immediate, i: nat) { 0 <= v < Pow2(i) }

  predicate FitsSigned(v: Immediate, i: nat)
    requires i > 0
  {
    -(Pow2(i - 1) as int) <= v < Pow2(i - 1)
  }

  function CountColumn(imms: seq<Immediate>, negative: bool, bits: nat): nat
  {
    if imms == [] then 0
    else
      var v := imms[|imms| - 1];
      CountColumn(imms[..|imms| - 1], negative, bits) + if (v < 0) == negative && Bits(v) == bits then 1 else 0
  }

  /** Both histograms; None when a column past the end is written. */
  method Histograms(imms: seq<Immediate>) returns (r: Option<(seq<nat>, seq<nat>)>)
    ensures r.Some? <==> forall k :: 0 <= k < |imms| ==> imms[k] >= -0x4000_0000
    ensures r.Some? ==> |r.value.0| == WIDTH && |r.value.1| == WIDTH
    ensures r.Some? ==> forall b :: 0 <= b < WIDTH ==>
              r.value.0[b] == CountColumn(imms, false, b) && r.value.1[b] == CountColumn(imms, true, b)
  {
    var uimmUsage, simmUsage := new nat[WIDTH](_ => 0), new nat[WIDTH](_ => 0);
    for k := 0 to |imms|
      invariant forall l :: 0 <= l < k ==> imms[l] >= -0x4000_0000
      invariant forall b :: 0 <= b < WIDTH ==>
                  uimmUsage[b] == CountColumn(imms[..k], false, b) && simmUsage[b] == CountColumn(imms[..k], true, b)
    {
      assert imms[..k + 1][..k] == imms[..k];
      var v := imms[k];
      ColumnExists(v);
      if v < 0 {
        var bits := RequiredBits(Flip(v)) + 1;
        if bits >= WIDTH {
          return None;
        }
        simmUsage[bits] := simmUsage[bits] + 1;
      } else {
        var bits := RequiredBits(v);
        uimmUsage[bits] := uimmUsage[bits] + 1;
      }
    }
    assert imms[..|imms|] == imms;
    return Some((uimmUsage[..], simmUsage[..]));
  }

  lemma {:induction false} BitLengthAtMost(n: nat, k: nat)
    ensures BitLength(n) <= k <==> n < Pow2(k)
  {
    if n > 0 && k > 0 {
      BitLengthAtMost(n / 2, k - 1);
    }
  }

  lemma Pow2Of30And31()
    ensures Pow2(30) == 0x4000_0000 && Pow2(31) == 0x8000_0000
  {
    assert Pow2(10) == 1024;
    assert Pow2(20) == 1024 * 1024;
    assert Pow2(30) == 1024 * 1024 * 1024;
  }

  /** Only immediates below -2^30 miss the histogram. */
  lemma ColumnExists(v: Immediate)
    ensures 1 <= Bits(v)
    ensures Bits(v) < WIDTH <==> v >= -0x4000_0000
  {
    Pow2Of30And31();
    if v < 0 {
      BitLengthAtMost(Flip(v), 30);
    } else {
      BitLengthAtMost(v, 31);
    }
  }

  // ----------------------------------------------------------- running sums

  /** How many of the immediates an i-bit field covers. */
  ghost function Covered(imms: seq<Immediate>, signed: bool, i: nat): nat
    requires i > 0
  {
    if imms == [] then 0
    else
      var v := imms[|imms| - 1];
      Covered(imms[..|imms| - 1], signed, i) + if (if signed then FitsSigned(v, i) else FitsUnsigned(v, i)) then 1 else 0
  }

  function SumColumns(imms: seq<Immediate>, negative: bool, n: nat): nat
  {
    if n == 0 then CountColumn(imms, negative, 0) else SumColumns(imms, negative, n - 1) + CountColumn(imms, negative, n)
  }

  lemma {:induction false} SumColumnsSplit(imms: seq<Immediate>, negative: bool, n: nat)
    requires imms != []
    ensures var v := imms[|imms| - 1];
            SumColumns(imms, negative, n) == SumColumns(imms[..|imms| - 1], negative, n)
              + if (v < 0) == negative && Bits(v) <= n then 1 else 0
  {
    if n > 0 {
      SumColumnsSplit(imms, negative, n - 1);
    }
  }

  lemma {:induction false} SumOfNothing(negative: bool, n: nat)
    ensures SumColumns([], negative, n) == 0
  {
    if n > 0 {
      SumOfNothing(negative, n - 1);
    }
  }

  /** The columns up to i are the immediates that fit i bits zero-extended. */
  lemma {:induction false} UnsignedSum(imms: seq<Immediate>, i: nat)
    requires i > 0
    ensures SumColumns(imms, false, i) == Covered(imms, false, i)
  {
    if imms == [] {
      SumOfNothing(false, i);
    } else {
      UnsignedSum(imms[..|imms| - 1], i);
      SumColumnsSplit(imms, false, i);
      var v := imms[|imms| - 1];
      if v >= 0 {
        BitLengthAtMost(v, i);
      }
    }
  }

  /** Negative columns up to i and others up to i-1 are the immediates that fit i
      bits sign-extended, from two bits on. */
  lemma {:induction false} SignedSum(imms: seq<Immediate>, i: nat)
    requires i > 1
    ensures SumColumns(imms, true, i) + SumColumns(imms, false, i - 1) == Covered(imms, true, i)
  {
    if imms == [] {
      SumOfNothing(true, i);
      SumOfNothing(false, i - 1);
    } else {
      SignedSum(imms[..|imms| - 1], i);
      SumColumnsSplit(imms, true, i);
      SumColumnsSplit(imms, false, i - 1);
      var v := imms[|imms| - 1];
      if v >= 0 {
        BitLengthAtMost(v, i - 1);
      } else {
        BitLengthAtMost(Flip(v), i - 1);
      }
    }
  }

  /** One-bit sign-extended fields are never counted, though 0 and -1 fit them. */
  lemma {:induction false} OneBitSigned(imms: seq<Immediate>)
    ensures SumColumns(imms, true, 1) + SumColumns(imms, false, 0) == 0
  {
    if imms == [] {
      SumOfNothing(true, 1);
      SumOfNothing(false, 0);
    } else {
      OneBitSigned(imms[..|imms| - 1]);
      SumColumnsSplit(imms, true, 1);
      SumColumnsSplit(imms, false, 0);
      ColumnExists(imms[|imms| - 1]);
    }
  }

  /** An entry of a bus's list: extension and number of immediates covered. */
  datatype Entry = Entry(signed: bool, count: nat)

  /** The entry computed for a width of i bits. */
  ghost predicate BestFor(entry: Entry, imms: seq<Immediate>, i: nat)
    requires i > 0
  {
    entry == Entry(SignExtends(imms, i), Coverage(imms, i))
  }

  /** What the source takes a field of i bits to cover sign-extended. */
  ghost function CountedSigned(imms: seq<Immediate>, i: nat): nat
    requires i > 0
  {
    if i == 1 then 0 else Covered(imms, true, i)
  }

  /** Sign extension covers as many immediates as zero extension, or more. */
  ghost predicate SignExtends(imms: seq<Immediate>, i: nat)
    requires i > 0
  {
    CountedSigned(imms, i) >= Covered(imms, false, i)
  }

  /** What a field of i bits covers with the better extension. */
  ghost function Coverage(imms: seq<Immediate>, i: nat): nat
  {
    if i == 0 then 0
    else if SignExtends(imms, i) then CountedSigned(imms, i)
    else Covered(imms, false, i)
  }

  /** The immediates that need all of the i bits unsigned, against the negative
      ones that fit i bits. */
  predicate Outnumbered(imms: seq<Immediate>, i: nat) { CountColumn(imms, false, i) > SumColumns(imms, true, i) }

  /** Zero extension is better exactly when the non-negative immediates that need
      the last bit outnumber the negative ones. */
  lemma ExtensionByColumns(imms: seq<Immediate>, i: nat)
    requires i > 0
    ensures SignExtends(imms, i) <==> !Outnumbered(imms, i)
  {
    UnsignedSum(imms, i);
    if i == 1 {
      OneBitSigned(imms);
    } else {
      SignedSum(imms, i);
    }
  }

  method BestImmediates(imms: seq<Immediate>, uimmUsage: seq<nat>, simmUsage: seq<nat>) returns (best: seq<Entry>)
    requires |uimmUsage| == WIDTH && |simmUsage| == WIDTH
    requires forall b :: 0 <= b < WIDTH ==>
               uimmUsage[b] == CountColumn(imms, false, b) && simmUsage[b] == CountColumn(imms, true, b)
    ensures ListOf(best, imms)
  {
    best := [];
    var signedImms, unsignedImms := 0, 0;
    NothingInColumnZero(imms);
    for i := 1 to WIDTH
      invariant |best| == i - 1 && forall k :: 0 <= k < i - 1 ==> BestFor(best[k], imms, k + 1)
      invariant unsignedImms == SumColumns(imms, false, i - 1)
      invariant signedImms == SumColumns(imms, true, i - 1) + if i == 1 then 0 else SumColumns(imms, false, i - 2)
    {
      unsignedImms := unsignedImms + uimmUsage[i];
      signedImms := signedImms + simmUsage[i] + uimmUsage[i - 1];
      UnsignedSum(imms, i);
      if i == 1 {
        OneBitSigned(imms);
      } else {
        SignedSum(imms, i);
      }
      if unsignedImms > signedImms {
        best := best + [Entry(false, unsignedImms)];
      } else {
        best := best + [Entry(true, signedImms)];
      }
    }
  }

  lemma {:induction false} NothingInColumnZero(imms: seq<Immediate>)
    ensures CountColumn(imms, false, 0) == 0 && CountColumn(imms, true, 0) == 0
  {
    if imms != [] {
      NothingInColumnZero(imms[..|imms| - 1]);
      ColumnExists(imms[|imms| - 1]);
    }
  }

  // --------------------------------------------------------- bit distribution

  lemma {:induction false} SumUpdate(xs: seq<nat>, i: nat, x: nat)
    requires i < |xs|
    ensures Sum(xs[i := x]) == Sum(xs) - xs[i] + x
  {
    var ys := xs[i := x];
    if i == |xs| - 1 {
      assert ys[..i] == xs[..i];
    } else {
      SumUpdate(xs[..|xs| - 1], i, x);
      assert ys[..|ys| - 1] == xs[..|xs| - 1][i := x];
    }
  }

  lemma {:induction false} SumOfZeros(n: nat)
    ensures Sum(seq(n, _ => 0)) == 0
  {
    if n > 0 {
      SumOfZeros(n - 1);
      assert seq(n, _ => 0)[..n - 1] == seq(n - 1, _ => 0);
    }
  }

  lemma {:induction false} AtMostSum(xs: seq<nat>, i: nat)
    requires i < |xs|
    ensures xs[i] <= Sum(xs)
  {
    if i < |xs| - 1 {
      AtMostSum(xs[..|xs| - 1], i);
    }
  }

  /** The buses: their widths and their lists as the distribution reads them. */
  datatype Buses = Buses(widths: seq<nat>, lists: seq<seq<Entry>>)
  {
    predicate Valid() { |widths| == |lists| }

    function Count(bus: nat, i: nat): nat
      requires Valid() && bus < |lists|
    {
      if i < |lists[bus]| then lists[bus][i].count else 0
    }

    /** A width the scan looks at. */
    predicate Scans(immWidth: seq<nat>, remaining: nat, bus: nat, i: nat)
      requires Valid() && |immWidth| == |widths|
    {
      bus < |widths| && immWidth[bus] < i < widths[bus] && i <= remaining
    }

    /** Additionally covered immediates per additional bit. */
    function Metric(immWidth: seq<nat>, bus: nat, i: nat): real
      requires Valid() && |immWidth| == |widths| && bus < |widths| && immWidth[bus] < i
    {
      var base := if immWidth[bus] > 0 then Count(bus, immWidth[bus]) else 0;
      (Count(bus, i) - base) as real / (i - immWidth[bus]) as real
    }

    /** The widest index the scan needs from a bus's list at the start. */
    function Reach(bus: nat, totalBits: nat): nat
      requires Valid() && bus < |widths|
    {
      if widths[bus] == 0 then 0 else if widths[bus] - 1 < totalBits then widths[bus] - 1 else totalBits
    }

    /** No list is read past its end. */
    predicate InBounds(totalBits: nat)
      requires Valid()
    {
      forall bus :: 0 <= bus < |widths| ==> Reach(bus, totalBits) < |lists[bus]|
    }
  }

  /** `bits == 0`: nothing more can be covered. */
  datatype Grant = Grant(bus: nat, bits: nat)

  ghost predicate IsBest(b: Buses, immWidth: seq<nat>, remaining: nat, grant: Grant)
    requires b.Valid() && |immWidth| == |b.widths|
  {
    if grant.bits == 0 then
      forall bus: nat, i: nat :: b.Scans(immWidth, remaining, bus, i) ==> b.Metric(immWidth, bus, i) <= 0.0
    else
      && grant.bus < |immWidth| && b.Scans(immWidth, remaining, grant.bus, immWidth[grant.bus] + grant.bits)
      && b.Metric(immWidth, grant.bus, immWidth[grant.bus] + grant.bits) > 0.0
      && forall bus: nat, i: nat :: b.Scans(immWidth, remaining, bus, i) ==>
           && b.Metric(immWidth, bus, i) <= b.Metric(immWidth, grant.bus, immWidth[grant.bus] + grant.bits)
           && (bus < grant.bus || (bus == grant.bus && i < immWidth[bus] + grant.bits) ==>
                 b.Metric(immWidth, bus, i) < b.Metric(immWidth, grant.bus, immWidth[grant.bus] + grant.bits))
  }

  /** The scan looks only at entries that exist. */
  ghost predicate ScanInBounds(b: Buses, immWidth: seq<nat>, remaining: nat)
    requires b.Valid() && |immWidth| == |b.widths|
  {
    && (forall bus :: 0 <= bus < |immWidth| && immWidth[bus] > 0 ==> immWidth[bus] < |b.lists[bus]|)
    && (forall bus: nat, i: nat :: b.Scans(immWidth, remaining, bus, i) ==> i < |b.lists[bus]|)
  }

  /** The best of the widths scanned before (bus, i), with its metric. */
  ghost predicate BestSoFar(b: Buses, immWidth: seq<nat>, remaining: nat, grant: Grant, metric: real, bus: nat, i: nat)
    requires b.Valid() && |immWidth| == |b.widths|
  {
    && (if grant.bits == 0 then metric == 0.0
        else && grant.bus < |immWidth| && b.Scans(immWidth, remaining, grant.bus, immWidth[grant.bus] + grant.bits)
             && metric == b.Metric(immWidth, grant.bus, immWidth[grant.bus] + grant.bits) > 0.0
             && (grant.bus < bus || (grant.bus == bus && immWidth[grant.bus] + grant.bits < i)))
    && (forall c: nat, j: nat :: b.Scans(immWidth, remaining, c, j) && (c < bus || (c == bus && j < i)) ==>
          && b.Metric(immWidth, c, j) <= metric
          && (grant.bits > 0 && (c < grant.bus || (c == grant.bus && j < immWidth[c] + grant.bits)) ==>
                b.Metric(immWidth, c, j) < metric))
  }

  lemma GrantTaken(b: Buses, immWidth: seq<nat>, remaining: nat, grant: Grant, metric: real, bus: nat, i: nat)
    requires b.Valid() && |immWidth| == |b.widths| && BestSoFar(b, immWidth, remaining, grant, metric, bus, i)
    requires b.Scans(immWidth, remaining, bus, i) && b.Metric(immWidth, bus, i) > metric
    ensures BestSoFar(b, immWidth, remaining, Grant(bus, i - immWidth[bus]), b.Metric(immWidth, bus, i), bus, i + 1)
  {
  }

  lemma GrantKept(b: Buses, immWidth: seq<nat>, remaining: nat, grant: Grant, metric: real, bus: nat, i: nat)
    requires b.Valid() && |immWidth| == |b.widths| && BestSoFar(b, immWidth, remaining, grant, metric, bus, i)
    requires b.Scans(immWidth, remaining, bus, i) && b.Metric(immWidth, bus, i) <= metric
    ensures BestSoFar(b, immWidth, remaining, grant, metric, bus, i + 1)
  {
  }

  lemma BusDone(b: Buses, immWidth: seq<nat>, remaining: nat, grant: Grant, metric: real, bus: nat, i: nat)
    requires b.Valid() && |immWidth| == |b.widths| && bus < |b.widths| && BestSoFar(b, immWidth, remaining, grant, metric, bus, i)
    requires i >= b.widths[bus] || i > remaining
    ensures BestSoFar(b, immWidth, remaining, grant, metric, bus + 1, 0)
  {
  }

  /** Looks at one width of a bus. */
  method ScanWidth(b: Buses, immWidth: seq<nat>, remaining: nat, bus: nat, i: nat, baseImms: nat, grant: Grant, bestMetric: real)
    returns (next: Grant, nextMetric: real)
    requires b.Valid() && |immWidth| == |b.widths| && BestSoFar(b, immWidth, remaining, grant, bestMetric, bus, i)
    requires b.Scans(immWidth, remaining, bus, i) && i < |b.lists[bus]|
    requires baseImms == if immWidth[bus] > 0 then b.Count(bus, immWidth[bus]) else 0
    ensures BestSoFar(b, immWidth, remaining, next, nextMetric, bus, i + 1)
  {
    var additionalImms := b.lists[bus][i].count - baseImms;
    var additionalBits := i - immWidth[bus];
    var metric := additionalImms as real / additionalBits as real;
    assert metric == b.Metric(immWidth, bus, i);
    next, nextMetric := grant, bestMetric;
    if metric > bestMetric {
      nextMetric, next := metric, Grant(bus, additionalBits);
      GrantTaken(b, immWidth, remaining, grant, bestMetric, bus, i);
    } else {
      GrantKept(b, immWidth, remaining, grant, bestMetric, bus, i);
    }
  }

  /** One scan over all buses and widths; None when a list is read past its end. */
  method BestGrant(b: Buses, immWidth: seq<nat>, remaining: nat) returns (r: Option<Grant>)
    requires b.Valid() && |immWidth| == |b.widths|
    ensures r.Some? <==> ScanInBounds(b, immWidth, remaining)
    ensures r.Some? ==> IsBest(b, immWidth, remaining, r.value)
  {
    var grant, bestMetric := Grant(0, 0), 0.0;
    for bus := 0 to |b.widths|
      invariant BestSoFar(b, immWidth, remaining, grant, bestMetric, bus, 0)
      invariant forall c :: 0 <= c < bus && immWidth[c] > 0 ==> immWidth[c] < |b.lists[c]|
      invariant forall c: nat, j: nat :: b.Scans(immWidth, remaining, c, j) && c < bus ==> j < |b.lists[c]|
    {
      var busWidth, baseImms := b.widths[bus], 0;
      if immWidth[bus] > 0 {
        if immWidth[bus] >= |b.lists[bus]| {
          return None;
        }
        baseImms := b.lists[bus][immWidth[bus]].count;
      }
      var i := immWidth[bus] + 1;
      while i < busWidth && i <= remaining
        invariant immWidth[bus] < i
        invariant BestSoFar(b, immWidth, remaining, grant, bestMetric, bus, i)
        invariant forall j: nat :: b.Scans(immWidth, remaining, bus, j) && j < i ==> j < |b.lists[bus]|
      {
        if i >= |b.lists[bus]| {
          assert b.Scans(immWidth, remaining, bus, i);
          return None;
        }
        grant, bestMetric := ScanWidth(b, immWidth, remaining, bus, i, baseImms, grant, bestMetric);
        i := i + 1;
      }
      BusDone(b, immWidth, remaining, grant, bestMetric, bus, i);
    }
    return Some(grant);
  }

  /** The distribution from one scan to the next. */
  ghost predicate Follows(b: Buses, totalBits: nat, before: seq<nat>, after: seq<nat>)
    requires b.Valid() && |before| == |b.widths|
  {
    exists grant: Grant :: grant.bits > 0 && grant.bus < |before| && Sum(before) <= totalBits
      && IsBest(b, before, totalBits - Sum(before), grant)
      && after == before[grant.bus := before[grant.bus] + grant.bits]
  }

  /** All the widths on the way, from nothing to the result. */
  ghost predicate Greedy(b: Buses, totalBits: nat, steps: seq<seq<nat>>)
    requires b.Valid()
  {
    && steps != [] && steps[0] == seq(|b.widths|, _ => 0)
    && (forall k :: 0 <= k < |steps| ==> |steps[k]| == |b.widths|)
    && (forall k :: 0 <= k < |steps| - 1 ==> Follows(b, totalBits, steps[k], steps[k + 1]))
  }

  datatype Distribution = OutOfBounds | Distributed(immWidth: seq<nat>, signed: seq<bool>, remaining: nat)

  /** The allocation loop; None when a scan reads past the end of a list. */
  method Allocate(b: Buses, totalBits: nat) returns (d: Option<(seq<nat>, nat)>, ghost steps: seq<seq<nat>>)
    requires b.Valid()
    ensures d.Some? <==> totalBits == 0 || ReachExists(b, totalBits)
    ensures d.Some? ==> Budget(b, d.value.0, totalBits, d.value.1) && IsBest(b, d.value.0, d.value.1, Grant(0, 0))
    ensures d.Some? ==> Greedy(b, totalBits, steps) && steps[|steps| - 1] == d.value.0
  {
    var remaining: nat := totalBits;
    var immWidth: seq<nat> := seq(|b.widths|, _ => 0);
    SumOfZeros(|b.widths|);
    steps := [immWidth];
    ghost var scanned := false;
    while remaining > 0
      invariant Budget(b, immWidth, totalBits, remaining)
      invariant Greedy(b, totalBits, steps) && steps[|steps| - 1] == immWidth
      invariant if scanned then ReachExists(b, totalBits) else remaining == totalBits && immWidth == steps[0]
    {
      var scan := BestGrant(b, immWidth, remaining);
      ScanOutcome(b, immWidth, totalBits, remaining, scanned);
      if scan.None? {
        return None, steps;
      }
      scanned := true;
      var grant := scan.value;
      if grant.bits == 0 {
        return Some((immWidth, remaining)), steps;
      }
      ApplyGrant(b, immWidth, totalBits, remaining, grant);
      remaining := remaining - grant.bits;
      immWidth := immWidth[grant.bus := immWidth[grant.bus] + grant.bits];
      GreedyGrows(b, totalBits, steps, immWidth);
      steps := steps + [immWidth];
    }
    return Some((immWidth, remaining)), steps;
  }

  /** Reads the extension of every bus. */
  method Extensions(b: Buses, immWidth: seq<nat>) returns (signed: Option<seq<bool>>)
    requires b.Valid() && |immWidth| == |b.widths|
    ensures signed.Some? <==> forall bus :: 0 <= bus < |b.widths| ==> immWidth[bus] < |b.lists[bus]|
    ensures signed.Some? ==>
              && |signed.value| == |b.widths|
              && forall bus :: 0 <= bus < |b.widths| ==> signed.value[bus] == b.lists[bus][immWidth[bus]].signed
  {
    var read: seq<bool> := [];
    for bus := 0 to |b.widths|
      invariant |read| == bus && forall c :: 0 <= c < bus ==>
                  immWidth[c] < |b.lists[c]| && read[c] == b.lists[c][immWidth[c]].signed
    {
      if immWidth[bus] >= |b.lists[bus]| {
        return None;
      }
      read := read + [b.lists[bus][immWidth[bus]].signed];
    }
    return Some(read);
  }

  /**
   The greedy distribution. It reads past the end of a list exactly when some
   list has no entry for the widest field its bus could be given. Otherwise all
   granted and remaining bits add up, every field is narrower than its bus, each
   grant was the best one at its time, and none with a gain is left.
   */
  method Distribute(b: Buses, totalBits: nat) returns (d: Distribution, ghost steps: seq<seq<nat>>)
    requires b.Valid()
    ensures d.Distributed? <==> b.InBounds(totalBits)
    ensures d.Distributed? ==>
              && Budget(b, d.immWidth, totalBits, d.remaining) && IsBest(b, d.immWidth, d.remaining, Grant(0, 0))
              && Greedy(b, totalBits, steps) && steps[|steps| - 1] == d.immWidth
    ensures d.Distributed? ==>
              && |d.signed| == |b.widths|
              && forall bus :: 0 <= bus < |b.widths| ==>
                   d.immWidth[bus] < |b.lists[bus]| && d.signed[bus] == b.lists[bus][d.immWidth[bus]].signed
  {
    var shares: Option<(seq<nat>, nat)>;
    shares, steps := Allocate(b, totalBits);
    if shares.None? {
      return OutOfBounds, steps;
    }
    var (immWidth, remaining) := shares.value;
    var signed := Extensions(b, immWidth);
    forall bus | 0 <= bus < |b.widths| ensures immWidth[bus] <= b.Reach(bus, totalBits) {
      WidthWithinReach(b, immWidth, totalBits, remaining, bus);
    }
    if signed.None? {
      return OutOfBounds, steps;
    }
    return Distributed(immWidth, signed.value, remaining), steps;
  }

  /** Granted and remaining bits add up and every field is narrower than its bus. */
  ghost predicate Budget(b: Buses, immWidth: seq<nat>, totalBits: nat, remaining: nat)
    requires b.Valid()
  {
    && |immWidth| == |b.widths| && remaining + Sum(immWidth) == totalBits
    && forall bus :: 0 <= bus < |b.widths| ==> immWidth[bus] == 0 || immWidth[bus] < b.widths[bus]
  }

  lemma ApplyGrant(b: Buses, immWidth: seq<nat>, totalBits: nat, remaining: nat, grant: Grant)
    requires b.Valid() && Budget(b, immWidth, totalBits, remaining)
    requires grant.bits > 0 && IsBest(b, immWidth, remaining, grant)
    ensures grant.bits <= remaining
    ensures var after := immWidth[grant.bus := immWidth[grant.bus] + grant.bits];
            Budget(b, after, totalBits, remaining - grant.bits) && Follows(b, totalBits, immWidth, after)
  {
    SumUpdate(immWidth, grant.bus, immWidth[grant.bus] + grant.bits);
  }

  /** What the first scan finds out: the lists of all buses it looks at reach. */
  ghost predicate ReachExists(b: Buses, totalBits: nat)
    requires b.Valid()
  {
    forall bus :: 0 <= bus < |b.widths| && b.Reach(bus, totalBits) > 0 ==> b.Reach(bus, totalBits) < |b.lists[bus]|
  }

  lemma FirstScan(b: Buses, immWidth: seq<nat>, totalBits: nat)
    requires b.Valid() && immWidth == seq(|b.widths|, _ => 0)
    ensures ScanInBounds(b, immWidth, totalBits) ==> ReachExists(b, totalBits)
  {
    forall bus | 0 <= bus < |b.widths| && b.Reach(bus, totalBits) > 0
      ensures b.Scans(immWidth, totalBits, bus, b.Reach(bus, totalBits))
    {
    }
  }

  lemma LaterScan(b: Buses, immWidth: seq<nat>, totalBits: nat, remaining: nat)
    requires b.Valid() && ReachExists(b, totalBits) && Budget(b, immWidth, totalBits, remaining)
    ensures ScanInBounds(b, immWidth, remaining)
  {
    forall bus | 0 <= bus < |immWidth| ensures immWidth[bus] <= totalBits {
      AtMostSum(immWidth, bus);
    }
  }

  lemma ScanOutcome(b: Buses, immWidth: seq<nat>, totalBits: nat, remaining: nat, scanned: bool)
    requires b.Valid() && Budget(b, immWidth, totalBits, remaining)
    requires if scanned then ReachExists(b, totalBits) else remaining == totalBits && immWidth == seq(|b.widths|, _ => 0)
    ensures ScanInBounds(b, immWidth, remaining) <==> ReachExists(b, totalBits)
  {
    if !scanned {
      FirstScan(b, immWidth, totalBits);
    }
    if ReachExists(b, totalBits) {
      LaterScan(b, immWidth, totalBits, remaining);
    }
  }

  lemma GreedyGrows(b: Buses, totalBits: nat, steps: seq<seq<nat>>, after: seq<nat>)
    requires b.Valid() && Greedy(b, totalBits, steps) && |after| == |b.widths|
    requires Follows(b, totalBits, steps[|steps| - 1], after)
    ensures Greedy(b, totalBits, steps + [after])
  {
  }

  lemma WidthWithinReach(b: Buses, immWidth: seq<nat>, totalBits: nat, remaining: nat, bus: nat)
    requires b.Valid() && Budget(b, immWidth, totalBits, remaining) && bus < |b.widths|
    ensures immWidth[bus] <= b.Reach(bus, totalBits)
  {
    AtMostSum(immWidth, bus);
  }

  // ------------------------------------------------- the lists as they are read

  /** As built: one entry less than the bus has bits. The distribution then reads
      past a list's end exactly when the budget reaches a bus's width less one. */
  lemma AsBuilt(b: Buses, totalBits: nat)
    requires b.Valid() && forall bus :: 0 <= bus < |b.widths| ==>
               |b.lists[bus]| == if b.widths[bus] == 0 then 0 else b.widths[bus] - 1
    ensures b.InBounds(totalBits) <==> forall bus :: 0 <= bus < |b.widths| ==> totalBits + 1 < b.widths[bus]
  {
    if forall bus :: 0 <= bus < |b.widths| ==> totalBits + 1 < b.widths[bus] {
      assert b.InBounds(totalBits);
    }
    forall bus | 0 <= bus < |b.widths| && b.InBounds(totalBits) ensures totalBits + 1 < b.widths[bus] {
      assert b.Reach(bus, totalBits) < |b.lists[bus]|;
    }
  }

  /** The lists as they are built: the entry for w bits at index w-1. */
  ghost predicate BuiltFrom(b: Buses, imms: seq<seq<Immediate>>)
  {
    && |imms| == |b.widths| == |b.lists|
    && forall bus :: 0 <= bus < |imms| ==> b.widths[bus] == WIDTH && ListOf(b.lists[bus], imms[bus])
  }

  ghost predicate ListOf(best: seq<Entry>, imms: seq<Immediate>)
  {
    |best| == WIDTH - 1 && forall k :: 0 <= k < WIDTH - 1 ==> BestFor(best[k], imms, k + 1)
  }

  /** The extension read for a width of w bits, which is the one for w+1 bits, is
      the better one for w bits exactly when both widths are on the same side. */
  lemma RightExtension(best: seq<Entry>, imms: seq<Immediate>, w: nat)
    requires ListOf(best, imms) && 1 <= w < WIDTH - 1
    ensures best[w].signed == SignExtends(imms, w) <==> Outnumbered(imms, w) == Outnumbered(imms, w + 1)
  {
    assert BestFor(best[w], imms, w + 1);
    ExtensionByColumns(imms, w);
    ExtensionByColumns(imms, w + 1);
  }

  /** Every immediate has a histogram column. */
  predicate Counted(imms: seq<Immediate>)
  {
    forall k :: 0 <= k < |imms| ==> imms[k] >= -0x4000_0000
  }

  /** The lists of all buses; None when a histogram column is missing. */
  method BuildLists(imms: seq<seq<Immediate>>) returns (lists: Option<seq<seq<Entry>>>)
    ensures lists.Some? <==> forall bus :: 0 <= bus < |imms| ==> Counted(imms[bus])
    ensures lists.Some? ==> |lists.value| == |imms| && forall bus :: 0 <= bus < |imms| ==> ListOf(lists.value[bus], imms[bus])
  {
    var built: seq<seq<Entry>> := [];
    for bus := 0 to |imms|
      invariant |built| == bus && forall c :: 0 <= c < bus ==> Counted(imms[c]) && ListOf(built[c], imms[c])
    {
      var histograms := Histograms(imms[bus]);
      if histograms.None? {
        return None;
      }
      var best := BestImmediates(imms[bus], histograms.value.0, histograms.value.1);
      built := built + [best];
    }
    return Some(built);
  }

  /**
   From the executed immediates of the buses to their short immediate fields. The
   lists are read in bounds exactly when every immediate has a column and the
   budget plus one is below the bus width; the extension of a granted field is
   then the better one exactly when one more bit would not change it.
   */
  method Optimize(imms: seq<seq<Immediate>>, totalBits: nat) returns (d: Distribution, ghost b: Buses, ghost steps: seq<seq<nat>>)
    ensures d.Distributed? <==>
              (forall bus :: 0 <= bus < |imms| ==> Counted(imms[bus])) && (imms == [] || totalBits + 1 < WIDTH)
    ensures d.Distributed? ==>
              && BuiltFrom(b, imms) && b.Valid()
              && Budget(b, d.immWidth, totalBits, d.remaining) && IsBest(b, d.immWidth, d.remaining, Grant(0, 0))
              && Greedy(b, totalBits, steps) && steps[|steps| - 1] == d.immWidth
    ensures d.Distributed? ==>
              && |d.signed| == |d.immWidth| == |imms|
              && forall bus :: 0 <= bus < |imms| && d.immWidth[bus] > 0 ==>
                   (d.signed[bus] == SignExtends(imms[bus], d.immWidth[bus]) <==>
                    Outnumbered(imms[bus], d.immWidth[bus]) == Outnumbered(imms[bus], d.immWidth[bus] + 1))
  {
    var built := BuildLists(imms);
    b, steps := Buses([], []), [];
    if built.None? {
      return OutOfBounds, b, steps;
    }
    var buses := Buses(seq(|imms|, _ => WIDTH), built.value);
    AsBuilt(buses, totalBits);
    assert imms != [] ==> buses.widths[0] == WIDTH;
    d, steps := Distribute(buses, totalBits);
    b := buses;
    if d.Distributed? {
      forall bus | 0 <= bus < |imms| && d.immWidth[bus] > 0
        ensures d.signed[bus] == SignExtends(imms[bus], d.immWidth[bus]) <==>
                Outnumbered(imms[bus], d.immWidth[bus]) == Outnumbered(imms[bus], d.immWidth[bus] + 1)
      {
        RightExtension(built.value[bus], imms[bus], d.immWidth[bus]);
      }
    }
  }

  /** The lists as they are meant: the entry for w bits at index w. */
  ghost predicate MeantFor(b: Buses, imms: seq<seq<Immediate>>)
  {
    && |imms| == |b.widths| == |b.lists|
    && forall bus :: 0 <= bus < |imms| ==>
         && b.widths[bus] == |b.lists[bus]| == WIDTH
         && forall k :: 1 <= k < WIDTH ==> BestFor(b.lists[bus][k], imms[bus], k)
  }

  /** As meant, with the entry for w bits at index w: always within the lists. */
  lemma AsMeant(b: Buses, totalBits: nat)
    requires b.Valid() && forall bus :: 0 <= bus < |b.widths| ==> b.widths[bus] > 0 && |b.lists[bus]| == b.widths[bus]
    ensures b.InBounds(totalBits)
  {
  }

  /** Additionally covered immediates per additional bit. */
  ghost function GainPerBit(imms: seq<Immediate>, w: nat, i: nat): real
    requires w < i
  {
    (Coverage(imms, i) - Coverage(imms, w)) as real / (i - w) as real
  }

  lemma MeantMetric(b: Buses, imms: seq<seq<Immediate>>, immWidth: seq<nat>, bus: nat, i: nat)
    requires MeantFor(b, imms) && b.Valid() && |immWidth| == |imms| && bus < |imms| && immWidth[bus] < i < WIDTH
    ensures b.Metric(immWidth, bus, i) == GainPerBit(imms[bus], immWidth[bus], i)
  {
    assert BestFor(b.lists[bus][i], imms[bus], i);
    if immWidth[bus] > 0 {
      assert BestFor(b.lists[bus][immWidth[bus]], imms[bus], immWidth[bus]);
    }
  }

  /** As built, the gain that is looked at is the one between fields of one bit more. */
  lemma BuiltMetric(b: Buses, imms: seq<seq<Immediate>>, immWidth: seq<nat>, bus: nat, i: nat)
    requires BuiltFrom(b, imms) && b.Valid() && |immWidth| == |imms| && bus < |imms| && immWidth[bus] < i < WIDTH - 1
    ensures b.Metric(immWidth, bus, i) ==
            (Coverage(imms[bus], i + 1) - if immWidth[bus] > 0 then Coverage(imms[bus], immWidth[bus] + 1) else 0) as real
            / (i - immWidth[bus]) as real
  {
    assert BestFor(b.lists[bus][i], imms[bus], i + 1);
    if immWidth[bus] > 0 {
      assert BestFor(b.lists[bus][immWidth[bus]], imms[bus], immWidth[bus] + 1);
    }
  }

  /** As meant, each grant covers the most additional immediates per bit, of all
      fields that are wider than now, narrower than the bus and not wider than the
      bits that remain; the distribution stops only when none of them covers more. */
  lemma MeantGrantCoversMost(b: Buses, imms: seq<seq<Immediate>>, immWidth: seq<nat>, remaining: nat, grant: Grant)
    requires MeantFor(b, imms) && b.Valid() && |immWidth| == |imms| && IsBest(b, immWidth, remaining, grant)
    ensures grant.bits == 0 ==>
              forall bus, i :: 0 <= bus < |imms| && immWidth[bus] < i < WIDTH && i <= remaining ==>
                GainPerBit(imms[bus], immWidth[bus], i) <= 0.0
    ensures grant.bits > 0 ==>
              && grant.bus < |imms| && immWidth[grant.bus] + grant.bits < WIDTH && immWidth[grant.bus] + grant.bits <= remaining
              && var w := immWidth[grant.bus];
              && Coverage(imms[grant.bus], w + grant.bits) > Coverage(imms[grant.bus], w)
              && forall bus, i :: 0 <= bus < |imms| && immWidth[bus] < i < WIDTH && i <= remaining ==>
                   GainPerBit(imms[bus], immWidth[bus], i) <= GainPerBit(imms[grant.bus], w, w + grant.bits)
  {
    if grant.bits > 0 {
      MeantMetric(b, imms, immWidth, grant.bus, immWidth[grant.bus] + grant.bits);
      GainIsPositive(imms[grant.bus], immWidth[grant.bus], immWidth[grant.bus] + grant.bits);
    }
    forall bus, i | 0 <= bus < |imms| && immWidth[bus] < i < WIDTH && i <= remaining
      ensures b.Scans(immWidth, remaining, bus, i)
      ensures b.Metric(immWidth, bus, i) == GainPerBit(imms[bus], immWidth[bus], i)
    {
      MeantMetric(b, imms, immWidth, bus, i);
    }
  }

  lemma GainIsPositive(imms: seq<Immediate>, w: nat, i: nat)
    requires w < i
    ensures GainPerBit(imms, w, i) > 0.0 <==> Coverage(imms, i) > Coverage(imms, w)
  {
    QuotientSign((Coverage(imms, i) - Coverage(imms, w)) as real, (i - w) as real);
  }

  lemma QuotientSign(gain: real, bits: real)
    requires bits > 0.0
    ensures gain / bits > 0.0 <==> gain > 0.0
  {
    assert gain == (gain / bits) * bits;
  }

  /** Reading one index too far also picks the wrong extension: of 1, 1 and -1 a
      one-bit field covers two zero-extended, but the entry read for one bit is
      the one for two bits, which says to sign-extend. */
  lemma WrongExtension(best: seq<Entry>)
    requires ListOf(best, [1, 1, -1])
    ensures best[0] == Entry(false, 2) && best[1].signed != SignExtends([1, 1, -1], 1)
    ensures Covered([1, 1, -1], true, 1) == 1
  {
    var one: seq<Immediate>, two: seq<Immediate>, three: seq<Immediate> := [1], [1, 1], [1, 1, -1];
    assert three[..2] == two && two[..1] == one && one[..0] == [];
    assert Pow2(0) == 1 && Pow2(1) == 2 && Pow2(2) == 4;
    assert Covered(one, false, 1) == 1 && Covered(one, false, 2) == 1 && Covered(one, true, 2) == 1;
    assert Covered(two, false, 1) == 2 && Covered(two, false, 2) == 2 && Covered(two, true, 2) == 2;
    assert Covered(one, true, 1) == 0 && Covered(two, true, 1) == 0;
    assert Covered(three, false, 1) == 2 && Covered(three, false, 2) == 2 && Covered(three, true, 2) == 3;
    assert BestFor(best[0], three, 1) && BestFor(best[1], three, 2);
  }
}
