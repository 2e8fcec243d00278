/**
 The fan-in/fan-out decomposition of the interconnect estimator
 (DefaultICDecoderPlugin): input and output widths are cut into layers of bits
 that all have the same number of inputs and outputs. The three width vectors
 are consumed in place, one of them while it is being iterated over.
 */
module InterconnectLayers {
  import opened Sorting

  datatype Layer = Layer(fanIn: nat, fanOut: nat, dataWidth: nat)

  // ------------------------------------------------------------ vocabulary

  function SumOf(ws: seq<nat>, f: nat -> nat): nat
  {
    if ws == [] then 0 else f(ws[0]) + SumOf(ws[1..], f)
  }

  function Carries(b: nat): nat -> nat { (w: nat) => if w > b then 1 else 0 }

  function CutAt(limit: nat): nat -> nat { (w: nat) => if w < limit then w else limit }

  /** The number of components that carry bit `b`. */
  function WiderThan(ws: seq<nat>, b: nat): nat { SumOf(ws, Carries(b)) }

  /** The bits of all components below `limit`. */
  function BitsBelow(ws: seq<nat>, limit: nat): nat { SumOf(ws, CutAt(limit)) }

  function Max(ws: seq<nat>): (m: nat)
    ensures forall w :: w in ws ==> w <= m
    ensures if ws == [] then m == 0 else m in ws
  {
    if ws == [] then 0
    else
      var m := Max(ws[1..]);
      assert ws == [ws[0]] + ws[1..];
      if ws[0] >= m then ws[0] else m
  }

  /** The number of bits with an input and an output. */
  function Common(inputs: seq<nat>, outputs: seq<nat>): nat
  {
    if Max(inputs) < Max(outputs) then Max(inputs) else Max(outputs)
  }

  /** What is left of a width once `consumed` bits have been cut off. */
  function Rest(w: nat, consumed: nat): nat { if w > consumed then w - consumed else 0 }

  function Height(layers: seq<Layer>): nat
  {
    if layers == [] then 0 else Height(layers[..|layers| - 1]) + layers[|layers| - 1].dataWidth
  }

  function WiresIn(layers: seq<Layer>): nat
  {
    if layers == [] then 0
    else WiresIn(layers[..|layers| - 1]) + layers[|layers| - 1].fanIn * layers[|layers| - 1].dataWidth
  }

  function WiresOut(layers: seq<Layer>): nat
  {
    if layers == [] then 0
    else WiresOut(layers[..|layers| - 1]) + layers[|layers| - 1].fanOut * layers[|layers| - 1].dataWidth
  }

  /** The layer over bit `b`, with the layers stacked from bit 0. */
  function LayerAt(layers: seq<Layer>, b: nat): Layer
    requires b < Height(layers)
  {
    var below := layers[..|layers| - 1];
    if b < Height(below) then LayerAt(below, b) else layers[|layers| - 1]
  }

  /** The layer over bit `b` has as many inputs and outputs as there are
      components that carry bit `b`. */
  ghost predicate Describes(layers: seq<Layer>, inputs: seq<nat>, outputs: seq<nat>)
  {
    forall b :: 0 <= b < Height(layers) ==>
      LayerAt(layers, b).fanIn == WiderThan(inputs, b) && LayerAt(layers, b).fanOut == WiderThan(outputs, b)
  }

  /** No two neighbouring layers could have been one. */
  ghost predicate Maximal(layers: seq<Layer>)
  {
    forall k :: 0 < k < |layers| && layers[k - 1].dataWidth > 0 ==>
      layers[k].fanIn != layers[k - 1].fanIn || layers[k].fanOut != layers[k - 1].fanOut
  }

  lemma {:induction false} SumOfInsert(s: seq<nat>, x: nat, key: nat -> int, f: nat -> nat)
    ensures SumOf(Insert(s, x, key), f) == f(x) + SumOf(s, f)
  {
    if s != [] && key(x) > key(s[0]) {
      SumOfInsert(s[1..], x, key, f);
      assert Insert(s, x, key)[1..] == Insert(s[1..], x, key);
    } else {
      assert Insert(s, x, key)[1..] == s;
    }
  }

  lemma {:induction false} SumOfSort(s: seq<nat>, key: nat -> int, f: nat -> nat)
    ensures SumOf(Sort(s, key), f) == SumOf(s, f)
  {
    if s != [] {
      SumOfSort(s[1..], key, f);
      SumOfInsert(Sort(s[1..], key), s[0], key, f);
    }
  }

  function Value(w: nat): int { w }

  function Ascending(s: seq<nat>): seq<nat> { Sort(s, Value) }

  lemma AscendingMembers(s: seq<nat>)
    ensures forall x :: x in Ascending(s) <==> x in s
    ensures Max(Ascending(s)) == Max(s)
  {
    SortCorrect(s, Value);
    assert forall x :: x in s <==> x in multiset(s);
    assert forall x :: x in Ascending(s) <==> x in multiset(Ascending(s));
  }

  // ------------------------------------------------- between two cut points

  /** No width lies strictly between the two cut points. */
  ghost predicate NoneBetween(ws: seq<nat>, low: nat, high: nat)
  {
    forall n :: 0 <= n < |ws| ==> ws[n] <= low || ws[n] >= high
  }

  lemma {:induction false} SameBetween(ws: seq<nat>, low: nat, high: nat, b: nat)
    requires low <= b < high && NoneBetween(ws, low, high)
    ensures WiderThan(ws, b) == WiderThan(ws, low)
  {
    if ws != [] {
      SameBetween(ws[1..], low, high, b);
    }
  }

  lemma {:induction false} BitsBetween(ws: seq<nat>, low: nat, high: nat)
    requires low <= high && NoneBetween(ws, low, high)
    ensures BitsBelow(ws, high) == BitsBelow(ws, low) + WiderThan(ws, low) * (high - low)
  {
    if ws != [] {
      BitsBetween(ws[1..], low, high);
      var n := WiderThan(ws[1..], low);
      assert (1 + n) * (high - low) == (high - low) + n * (high - low);
    }
  }

  lemma {:induction false} DropsAt(ws: seq<nat>, b: nat)
    requires b > 0
    ensures WiderThan(ws, b) <= WiderThan(ws, b - 1)
    ensures b in ws ==> WiderThan(ws, b) < WiderThan(ws, b - 1)
  {
    if ws != [] {
      DropsAt(ws[1..], b);
    }
  }

  lemma {:induction false} SomeWider(ws: seq<nat>, b: nat)
    ensures WiderThan(ws, b) > 0 <==> Max(ws) > b
  {
    if ws != [] {
      SomeWider(ws[1..], b);
    }
  }

  lemma {:induction false} NoBitsBelowZero(ws: seq<nat>)
    ensures BitsBelow(ws, 0) == 0
  {
    if ws != [] {
      NoBitsBelowZero(ws[1..]);
    }
  }

  // --------------------------------------------------------------- the loops

  /** std::sort on the caller's vector. */
  method SortInPlace(a: array<nat>)
    modifies a
    ensures a[..] == Ascending(old(a[..]))
  {
    var sorted := Ascending(a[..]);
    forall i | 0 <= i < a.Length {
      a[i] := sorted[i];
    }
  }

  /** The distinct widths in ascending order, as std::set holds them. */
  function Distinct(s: seq<nat>): (r: seq<nat>)
    requires SortedBy(s, Value)
    ensures (forall i, j :: 0 <= i < j < |r| ==> r[i] < r[j]) && (forall x :: x in r <==> x in s)
  {
    if s == [] then []
    else
      var r := Distinct(s[1..]);
      assert s == [s[0]] + s[1..];
      assert forall x :: x in s[1..] ==> Value(s[0]) <= Value(x);
      if r != [] && r[0] == s[0] then r else [s[0]] + r
  }

  /** The widths that are left once the bits below `low` are gone. */
  ghost predicate LeftOf(widths: seq<nat>, ws: seq<nat>, low: nat)
  {
    |widths| == |ws| && forall n :: 0 <= n < |ws| ==> widths[n] == Rest(ws[n], low)
  }

  /** What the counting loop counts, including its early `break`. */
  function Fitting(s: seq<nat>, width: nat): nat
  {
    if s == [] || width > s[0] > 0 then 0
    else (if s[0] != 0 then 1 else 0) + Fitting(s[1..], width)
  }

  /** The `break` does not fire on what is left of widths that avoid the bits of
      the layer, so the loop counts the components that carry its lowest bit. */
  lemma {:induction false} BreakNeverFires(ws: seq<nat>, rests: seq<nat>, low: nat, width: nat)
    requires NoneBetween(ws, low, low + width) && LeftOf(rests, ws, low)
    ensures Fitting(rests, width) == WiderThan(ws, low)
  {
    if ws != [] {
      BreakNeverFires(ws[1..], rests[1..], low, width);
    }
  }

  method CountFitting(widths: array<nat>, width: nat, ghost ws: seq<nat>, ghost low: nat) returns (fan: nat)
    requires LeftOf(widths[..], ws, low) && NoneBetween(ws, low, low + width)
    ensures fan == WiderThan(ws, low)
  {
    fan := 0;
    var n := 0;
    assert widths[0..] == widths[..];
    while n < widths.Length
      invariant n <= widths.Length
      invariant fan + Fitting(widths[n..], width) == Fitting(widths[..], width)
    {
      assert widths[n..][0] == widths[n] && widths[n..][1..] == widths[n + 1..];
      if width > widths[n] && widths[n] > 0 {
        break;
      }
      if widths[n] != 0 {
        fan := fan + 1;
      }
      n := n + 1;
    }
    BreakNeverFires(ws, widths[..], low, width);
  }

  method Subtract(widths: array<nat>, width: nat, ghost ws: seq<nat>, ghost low: nat)
    requires LeftOf(widths[..], ws, low)
    modifies widths
    ensures LeftOf(widths[..], ws, low + width)
  {
    for n := 0 to widths.Length
      invariant forall k :: 0 <= k < n ==> widths[k] == Rest(ws[k], low + width)
      invariant forall k :: n <= k < widths.Length ==> widths[k] == Rest(ws[k], low)
    {
      if widths[n] > width {
        widths[n] := widths[n] - width;
      } else {
        widths[n] := 0;
      }
    }
  }

  /** What the layers found so far are worth: they describe all bits up to `consumed`. */
  ghost predicate Covers(layers: seq<Layer>, inputs: seq<nat>, outputs: seq<nat>, consumed: nat)
  {
    && Height(layers) == consumed
    && Describes(layers, inputs, outputs)
    && WiresIn(layers) == BitsBelow(inputs, consumed)
    && WiresOut(layers) == BitsBelow(outputs, consumed)
  }

  lemma AddDescription(layers: seq<Layer>, inputs: seq<nat>, outputs: seq<nat>, low: nat, high: nat)
    requires Describes(layers, inputs, outputs) && Height(layers) == low <= high
    requires NoneBetween(inputs, low, high) && NoneBetween(outputs, low, high)
    ensures Describes(layers + [Layer(WiderThan(inputs, low), WiderThan(outputs, low), high - low)], inputs, outputs)
  {
    var next := layers + [Layer(WiderThan(inputs, low), WiderThan(outputs, low), high - low)];
    assert next[..|next| - 1] == layers;
    forall b | 0 <= b < high
      ensures LayerAt(next, b).fanIn == WiderThan(inputs, b) && LayerAt(next, b).fanOut == WiderThan(outputs, b)
    {
      if b >= low {
        SameBetween(inputs, low, high, b);
        SameBetween(outputs, low, high, b);
      }
    }
  }

  lemma Stack(layers: seq<Layer>, top: Layer)
    ensures Height(layers + [top]) == Height(layers) + top.dataWidth
    ensures WiresIn(layers + [top]) == WiresIn(layers) + top.fanIn * top.dataWidth
    ensures WiresOut(layers + [top]) == WiresOut(layers) + top.fanOut * top.dataWidth
  {
    assert (layers + [top])[..|layers|] == layers;
  }

  lemma AddLayer(layers: seq<Layer>, inputs: seq<nat>, outputs: seq<nat>, low: nat, high: nat)
    requires Covers(layers, inputs, outputs, low) && low <= high
    requires NoneBetween(inputs, low, high) && NoneBetween(outputs, low, high)
    ensures Covers(layers + [Layer(WiderThan(inputs, low), WiderThan(outputs, low), high - low)], inputs, outputs, high)
  {
    Stack(layers, Layer(WiderThan(inputs, low), WiderThan(outputs, low), high - low));
    AddDescription(layers, inputs, outputs, low, high);
    BitsBetween(inputs, low, high);
    BitsBetween(outputs, low, high);
  }

  /** A layer above a cut point that some component ends at differs from the one below. */
  lemma LayersDiffer(layers: seq<Layer>, inputs: seq<nat>, outputs: seq<nat>, low: nat)
    requires Covers(layers, inputs, outputs, low) && layers != [] && layers[|layers| - 1].dataWidth > 0
    requires low in inputs || low in outputs
    ensures var top := layers[|layers| - 1];
            WiderThan(inputs, low) != top.fanIn || WiderThan(outputs, low) != top.fanOut
  {
    assert LayerAt(layers, low - 1) == layers[|layers| - 1];
    DropsAt(inputs, low);
    DropsAt(outputs, low);
  }

  /** The cut points of a machine: all widths and nothing else, ascending. */
  ghost predicate AreCuts(cuts: seq<nat>, inputs: seq<nat>, outputs: seq<nat>)
  {
    && (forall j, k :: 0 <= j < k < |cuts| ==> cuts[j] < cuts[k])
    && (forall w :: w in cuts <==> w in inputs || w in outputs)
  }

  function Consumed(cuts: seq<nat>, i: nat): nat
    requires i <= |cuts|
  {
    if i == 0 then 0 else cuts[i - 1]
  }

  lemma CutsAvoid(ws: seq<nat>, cuts: seq<nat>, i: nat)
    requires i < |cuts|
    requires forall j, k :: 0 <= j < k < |cuts| ==> cuts[j] < cuts[k]
    requires forall w :: w in ws ==> w in cuts
    ensures Consumed(cuts, i) <= cuts[i] && NoneBetween(ws, Consumed(cuts, i), cuts[i])
  {
    forall n | 0 <= n < |ws| ensures ws[n] <= Consumed(cuts, i) || ws[n] >= cuts[i] {
      assert ws[n] in ws;
      var k :| 0 <= k < |cuts| && cuts[k] == ws[n];
    }
  }

  lemma StaysMaximal(layers: seq<Layer>, inputs: seq<nat>, outputs: seq<nat>, low: nat, width: nat)
    requires Covers(layers, inputs, outputs, low) && Maximal(layers)
    requires layers != [] ==> low in inputs || low in outputs
    ensures Maximal(layers + [Layer(WiderThan(inputs, low), WiderThan(outputs, low), width)])
  {
    if layers != [] && layers[|layers| - 1].dataWidth > 0 {
      LayersDiffer(layers, inputs, outputs, low);
    }
  }

  lemma NextLayer(layers: seq<Layer>, inputs: seq<nat>, outputs: seq<nat>, cuts: seq<nat>, i: nat)
    requires AreCuts(cuts, inputs, outputs) && i < |cuts| && |layers| == i
    requires Covers(layers, inputs, outputs, Consumed(cuts, i)) && Maximal(layers)
    ensures var low := Consumed(cuts, i);
            var next := layers + [Layer(WiderThan(inputs, low), WiderThan(outputs, low), cuts[i] - low)];
            low <= cuts[i] && Covers(next, inputs, outputs, cuts[i]) && Maximal(next)
  {
    CutsAvoid(inputs, cuts, i);
    CutsAvoid(outputs, cuts, i);
    AddLayer(layers, inputs, outputs, Consumed(cuts, i), cuts[i]);
    assert i > 0 ==> cuts[i - 1] in cuts;
    StaysMaximal(layers, inputs, outputs, Consumed(cuts, i), cuts[i] - Consumed(cuts, i));
  }

  /** The state of the outer loop before its iteration `i`. */
  ghost predicate Progress(layers: seq<Layer>, inputs: seq<nat>, outputs: seq<nat>, cuts: seq<nat>, i: nat)
  {
    && i <= |cuts| && |layers| == i && AreCuts(cuts, inputs, outputs)
    && Consumed(cuts, i) <= Common(inputs, outputs)
    && Covers(layers, inputs, outputs, Consumed(cuts, i)) && Maximal(layers)
  }

  /** An iteration adds its layer; without an input or an output left, all
      common bits are covered. */
  lemma Iteration(layers: seq<Layer>, inputs: seq<nat>, outputs: seq<nat>, cuts: seq<nat>, i: nat)
    requires Progress(layers, inputs, outputs, cuts, i) && i < |cuts|
    ensures Consumed(cuts, i) <= cuts[i]
    ensures var low := Consumed(cuts, i);
            if WiderThan(inputs, low) > 0 && WiderThan(outputs, low) > 0
            then Progress(layers + [Layer(WiderThan(inputs, low), WiderThan(outputs, low), cuts[i] - low)],
                          inputs, outputs, cuts, i + 1)
            else low == Common(inputs, outputs)
  {
    CutsAvoid(inputs, cuts, i);
    CutsAvoid(outputs, cuts, i);
    SomeWider(inputs, Consumed(cuts, i));
    SomeWider(outputs, Consumed(cuts, i));
    NextLayer(layers, inputs, outputs, cuts, i);
  }

  lemma ProgressStarts(inputs: seq<nat>, outputs: seq<nat>, cuts: seq<nat>)
    requires AreCuts(cuts, inputs, outputs)
    ensures Progress([], inputs, outputs, cuts, 0)
  {
    NoBitsBelowZero(inputs);
    NoBitsBelowZero(outputs);
  }

  lemma ProgressEnds(layers: seq<Layer>, inputs: seq<nat>, outputs: seq<nat>, cuts: seq<nat>)
    requires Progress(layers, inputs, outputs, cuts, |cuts|)
    ensures Consumed(cuts, |cuts|) == Common(inputs, outputs)
  {
    if inputs != [] {
      assert Max(inputs) in cuts;
    }
  }

  /** One iteration: counts both fans and, when neither is zero, cuts the layer
      off all three vectors. */
  method CutOne(inputWidths: array<nat>, outputWidths: array<nat>, allWidths: array<nat>, width: nat,
                ghost inputs: seq<nat>, ghost outputs: seq<nat>, ghost cuts: seq<nat>, ghost low: nat)
    returns (fanIn: nat, fanOut: nat)
    requires inputWidths != outputWidths && inputWidths != allWidths && outputWidths != allWidths
    requires LeftOf(inputWidths[..], inputs, low) && LeftOf(outputWidths[..], outputs, low)
    requires LeftOf(allWidths[..], cuts, low)
    requires NoneBetween(inputs, low, low + width) && NoneBetween(outputs, low, low + width)
    modifies inputWidths, outputWidths, allWidths
    ensures fanIn == WiderThan(inputs, low) && fanOut == WiderThan(outputs, low)
    ensures var low' := if fanIn == 0 || fanOut == 0 then low else low + width;
            LeftOf(inputWidths[..], inputs, low') && LeftOf(outputWidths[..], outputs, low')
            && LeftOf(allWidths[..], cuts, low')
  {
    fanIn := CountFitting(inputWidths, width, inputs, low);
    fanOut := CountFitting(outputWidths, width, outputs, low);
    if fanIn != 0 && fanOut != 0 {
      Subtract(inputWidths, width, inputs, low);
      Subtract(outputWidths, width, outputs, low);
      Subtract(allWidths, width, cuts, low);
    }
  }

  /** An iteration of the outer loop: the next layer, unless all common bits are covered. */
  method CutNext(inputWidths: array<nat>, outputWidths: array<nat>, allWidths: array<nat>, i: nat,
                 ghost inputs: seq<nat>, ghost outputs: seq<nat>, ghost cuts: seq<nat>, ghost layers: seq<Layer>)
    returns (more: bool, layer: Layer)
    requires inputWidths != outputWidths && inputWidths != allWidths && outputWidths != allWidths
    requires i < allWidths.Length && Progress(layers, inputs, outputs, cuts, i)
    requires LeftOf(inputWidths[..], inputs, Consumed(cuts, i)) && LeftOf(outputWidths[..], outputs, Consumed(cuts, i))
    requires LeftOf(allWidths[..], cuts, Consumed(cuts, i))
    modifies inputWidths, outputWidths, allWidths
    ensures more ==> Progress(layers + [layer], inputs, outputs, cuts, i + 1) && LeftOf(allWidths[..], cuts, cuts[i])
    ensures !more ==> Consumed(cuts, i) == Common(inputs, outputs)
    ensures var consumed := if more then cuts[i] else Consumed(cuts, i);
            LeftOf(inputWidths[..], inputs, consumed) && LeftOf(outputWidths[..], outputs, consumed)
  {
    ghost var low := Consumed(cuts, i);
    var width := allWidths[i];
    Iteration(layers, inputs, outputs, cuts, i);
    assert allWidths[..][i] == Rest(cuts[i], low);
    assert low + width == cuts[i];
    CutsAvoid(inputs, cuts, i);
    CutsAvoid(outputs, cuts, i);
    var fanIn, fanOut := CutOne(inputWidths, outputWidths, allWidths, width, inputs, outputs, cuts, low);
    more, layer := fanIn != 0 && fanOut != 0, Layer(fanIn, fanOut, width);
  }

  /** The part of the algorithm that follows the sorting. */
  method CutLayers(inputWidths: array<nat>, outputWidths: array<nat>, cuts: seq<nat>)
    returns (combinations: seq<Layer>)
    requires inputWidths != outputWidths && AreCuts(cuts, inputWidths[..], outputWidths[..])
    modifies inputWidths, outputWidths
    ensures var inputs, outputs := old(inputWidths[..]), old(outputWidths[..]);
            var common := Common(inputs, outputs);
            && Covers(combinations, inputs, outputs, common) && Maximal(combinations)
            && LeftOf(inputWidths[..], inputs, common) && LeftOf(outputWidths[..], outputs, common)
  {
    ghost var inputs, outputs := inputWidths[..], outputWidths[..];
    var allWidths := new nat[|cuts|](i requires 0 <= i < |cuts| => cuts[i]);
    combinations := [];
    ProgressStarts(inputs, outputs, cuts);
    for i := 0 to allWidths.Length
      invariant Progress(combinations, inputs, outputs, cuts, i)
      invariant LeftOf(inputWidths[..], inputs, Consumed(cuts, i))
      invariant LeftOf(outputWidths[..], outputs, Consumed(cuts, i))
      invariant LeftOf(allWidths[..], cuts, Consumed(cuts, i))
    {
      var more, layer := CutNext(inputWidths, outputWidths, allWidths, i, inputs, outputs, cuts, combinations);
      if !more {
        return;
      }
      combinations := combinations + [layer];
    }
    ProgressEnds(combinations, inputs, outputs, cuts);
  }

  method GenerateFanInFanOutCombinations(inputWidths: array<nat>, outputWidths: array<nat>)
    returns (combinations: seq<Layer>)
    requires inputWidths != outputWidths
    modifies inputWidths, outputWidths
    ensures var inputs, outputs := old(inputWidths[..]), old(outputWidths[..]);
            var common := Common(inputs, outputs);
            && Covers(combinations, inputs, outputs, common) && Maximal(combinations)
            && LeftOf(inputWidths[..], Ascending(inputs), common)
            && LeftOf(outputWidths[..], Ascending(outputs), common)
  {
    ghost var inputs, outputs := inputWidths[..], outputWidths[..];
    AscendingMembers(inputs);
    AscendingMembers(outputs);
    SortInPlace(inputWidths);
    SortInPlace(outputWidths);
    var both := inputWidths[..] + outputWidths[..];
    SortCorrect(both, Value);
    AscendingMembers(both);
    combinations := CutLayers(inputWidths, outputWidths, Distinct(Ascending(both)));
    SameDescription(combinations, inputs, outputs, Common(inputs, outputs));
  }

  /** The description does not depend on the order of the components. */
  lemma SameDescription(layers: seq<Layer>, inputs: seq<nat>, outputs: seq<nat>, consumed: nat)
    requires Covers(layers, Ascending(inputs), Ascending(outputs), consumed)
    ensures Covers(layers, inputs, outputs, consumed)
  {
    forall b: nat | true
      ensures WiderThan(Ascending(inputs), b) == WiderThan(inputs, b)
      ensures WiderThan(Ascending(outputs), b) == WiderThan(outputs, b)
    {
      SumOfSort(inputs, Value, Carries(b));
      SumOfSort(outputs, Value, Carries(b));
    }
    SumOfSort(inputs, Value, CutAt(consumed));
    SumOfSort(outputs, Value, CutAt(consumed));
  }
}
