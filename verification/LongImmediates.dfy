/**
 Long immediates, from the template that ImmediateGenerator builds to the
 register that the generated decoder writes (DefaultDecoderGenerator).
 */
module LongImmediates {
  import opened BitVectors
  import opened Sorting
  import opened Sequences
  import opened Words

  // --------------------------------------------------- choosing move slots

  /** A move slot of the binary encoding: which one, and its width. */
  datatype MoveSlot = MoveSlot(index: nat, width: nat)

  function Total(slots: seq<MoveSlot>): nat
  {
    if slots == [] then 0 else Total(slots[..|slots| - 1]) + slots[|slots| - 1].width
  }

  predicate Distinct(slots: seq<MoveSlot>)
  {
    forall i, j :: 0 <= i < j < |slots| ==> slots[i] != slots[j]
  }

  /** Sort key: wider slots first. */
  function Narrowness(s: MoveSlot): int { -(s.width as int) }

  predicate Descending(slots: seq<MoveSlot>)
  {
    forall i, j :: 0 <= i < j < |slots| ==> slots[i].width >= slots[j].width
  }

  /** The shortest non-empty prefix with enough width, or everything. */
  predicate EnoughPrefix(priority: seq<MoveSlot>, target: nat, n: nat)
  {
    && n <= |priority|
    && (n < |priority| ==> n > 0 && Total(priority[..n]) >= target)
    && (forall j :: 0 < j < n ==> Total(priority[..j]) < target)
  }

  method SortByWidth(priority: seq<MoveSlot>, targetWidth: nat) returns (sorted: seq<MoveSlot>)
    ensures Descending(sorted) && EnoughPrefix(priority, targetWidth, |sorted|)
    ensures multiset(sorted) == multiset(priority[..|sorted|])
  {
    var usedBuses := |priority|;
    var width := 0;
    for bus := 0 to |priority|
      invariant usedBuses == |priority| && width == Total(priority[..bus])
      invariant forall j :: 0 < j <= bus ==> Total(priority[..j]) < targetWidth
    {
      assert priority[..bus + 1][..bus] == priority[..bus];
      width := width + priority[bus].width;
      if width >= targetWidth {
        usedBuses := bus + 1;
        break;
      }
    }
    var kept := priority;
    while |kept| > usedBuses
      invariant usedBuses <= |kept| <= |priority| && kept == priority[..|kept|]
      decreases |kept|
    {
      kept := kept[..|kept| - 1];
    }
    sorted := Sort(kept, Narrowness);
    SortCorrect(kept, Narrowness);
    assert forall i, j :: 0 <= i < j < |sorted| ==> Narrowness(sorted[i]) <= Narrowness(sorted[j]);
  }

  // -------------------------------------------------------- filling the slots

  /** A template slot: the move slot and how many of its bits are used. */
  datatype Part = Part(slot: MoveSlot, width: nat)

  function Width(part: Part): nat { part.width }

  function AllBits(parts: seq<Part>): nat { Upto(parts, Width, |parts|) }

  lemma {:induction false} UptoAppend(parts: seq<Part>, part: Part, n: nat)
    requires n <= |parts|
    ensures Upto(parts + [part], Width, n) == Upto(parts, Width, n)
  {
    if n > 0 {
      UptoAppend(parts, part, n - 1);
    }
  }

  /** The parts use the first slots, all but the last completely. */
  predicate Fills(parts: seq<Part>, priority: seq<MoveSlot>)
  {
    && |parts| <= |priority|
    && (forall k :: 0 <= k < |parts| ==> parts[k].slot == priority[k] && parts[k].width > 0)
    && (forall k :: 0 <= k < |parts| - 1 ==> parts[k].width == priority[k].width)
  }

  predicate WithinSlots(parts: seq<Part>)
  {
    forall k :: 0 <= k < |parts| ==> parts[k].width <= parts[k].slot.width
  }

  lemma {:induction false} UptoWithin(parts: seq<Part>, priority: seq<MoveSlot>, n: nat)
    requires Fills(parts, priority) && WithinSlots(parts) && n <= |parts|
    ensures Upto(parts, Width, n) <= Total(priority[..n])
  {
    if n > 0 {
      UptoWithin(parts, priority, n - 1);
      TotalPrefix(priority, n - 1);
    }
  }

  /** Parts within their slots have no more bits than the slots. */
  lemma WithinCapacity(parts: seq<Part>, priority: seq<MoveSlot>)
    requires Fills(parts, priority) && WithinSlots(parts)
    ensures AllBits(parts) <= Total(priority)
  {
    UptoWithin(parts, priority, |parts|);
    TotalGrows(priority, |parts|);
  }

  /** With more bits than the slots have, the last part is wider than its slot. */
  lemma LastIsOverfull(parts: seq<Part>, priority: seq<MoveSlot>)
    requires Fills(parts, priority) && parts != [] && AllBits(parts) > Total(priority)
    ensures parts[|parts| - 1].width > parts[|parts| - 1].slot.width
  {
    if parts[|parts| - 1].width <= parts[|parts| - 1].slot.width {
      WithinCapacity(parts, priority);
    }
  }

  /** All parts take their whole slot and `remaining` bits are still to be placed. */
  predicate Filling(parts: seq<Part>, priority: seq<MoveSlot>, width: nat, remaining: nat)
  {
    && |parts| <= |priority|
    && (forall k :: 0 <= k < |parts| ==> parts[k] == Part(priority[k], priority[k].width) && parts[k].width > 0)
    && AllBits(parts) == Total(priority[..|parts|]) && AllBits(parts) + remaining == width
  }

  /** A slot that is not wider than what remains is taken completely. */
  lemma FillStep(parts: seq<Part>, priority: seq<MoveSlot>, width: nat, remaining: nat)
    requires Filling(parts, priority, width, remaining) && |parts| < |priority|
    requires 0 < priority[|parts|].width <= remaining
    ensures var w := priority[|parts|].width;
            Filling(parts + [Part(priority[|parts|], w)], priority, width, remaining - w)
  {
    var k := |parts|;
    UptoAppend(parts, Part(priority[k], priority[k].width), k);
    TotalPrefix(priority, k);
  }

  /** With enough slots the next one is not empty and the last one is wide enough. */
  lemma NextSlotFits(parts: seq<Part>, priority: seq<MoveSlot>, width: nat, remaining: nat)
    requires Filling(parts, priority, width, remaining) && |parts| < |priority| && remaining > 0
    ensures width <= Total(priority) && Descending(priority) ==> priority[|parts|].width > 0
    ensures width <= Total(priority) && |parts| == |priority| - 1 ==> remaining <= priority[|parts|].width
  {
    if width <= Total(priority) && Descending(priority) {
      SlotIsNotEmpty(priority, |parts|, width);
    }
  }

  /** The last part takes what remains. */
  lemma {:induction false} FillEnd(parts: seq<Part>, priority: seq<MoveSlot>, width: nat, remaining: nat)
    requires Filling(parts, priority, width, remaining) && |parts| < |priority| && remaining > 0
    requires remaining <= priority[|parts|].width || |parts| == |priority| - 1
    ensures var next := parts + [Part(priority[|parts|], remaining)];
            && Fills(next, priority) && AllBits(next) == width
            && (Descending(priority) ==> (width <= Total(priority) <==> WithinSlots(next)))
  {
    var next := parts + [Part(priority[|parts|], remaining)];
    UptoAppend(parts, next[|parts|], |parts|);
    NextSlotFits(parts, priority, width, remaining);
    if WithinSlots(next) {
      WithinCapacity(next, priority);
    }
  }

  /** The slot-filling loop; None when InstructionTemplate refuses an empty slot. */
  method AddSplitSlots(priority: seq<MoveSlot>, width: nat) returns (parts: Option<seq<Part>>)
    requires Distinct(priority)
    ensures parts.Some? ==> Fills(parts.value, priority)
    ensures parts.Some? && priority != [] ==>
              && parts.value != [] && AllBits(parts.value) == width
              && Total(priority[..|parts.value| - 1]) < width
    ensures priority != [] && width > 0 && Descending(priority) ==>
              (width <= Total(priority) <==> parts.Some? && WithinSlots(parts.value))
  {
    var added: seq<Part> := [];
    var remaining := width;
    for k := 0 to |priority|
      invariant |added| == k && Filling(added, priority, width, remaining)
      invariant k > 0 ==> remaining > 0 && k < |priority|
    {
      var ms := priority[k];
      if remaining > 0 {
        NextSlotFits(added, priority, width, remaining);
      }
      var widthAdd := ms.width;
      if widthAdd > remaining || ms == priority[|priority| - 1] {
        widthAdd := remaining;
      }
      if widthAdd == 0 {
        return None;
      }
      if widthAdd == remaining {
        FillEnd(added, priority, width, remaining);
      } else {
        FillStep(added, priority, width, remaining);
      }
      added := added + [Part(ms, widthAdd)];
      remaining := remaining - widthAdd;
      if remaining == 0 {
        return Some(added);
      }
    }
    return Some(added);
  }

  lemma {:induction false} TotalGrows(slots: seq<MoveSlot>, n: nat)
    requires n <= |slots|
    ensures Total(slots[..n]) <= Total(slots)
    decreases |slots|
  {
    if n < |slots| {
      var front := slots[..|slots| - 1];
      TotalGrows(front, n);
      assert front[..n] == slots[..n];
    } else {
      assert slots[..n] == slots;
    }
  }

  /** While bits are missing that the slots can still provide, the next slot of
      a descending order has some. */
  lemma {:induction false} SlotIsNotEmpty(slots: seq<MoveSlot>, k: nat, width: nat)
    requires Descending(slots) && k < |slots| && Total(slots[..k]) < width <= Total(slots)
    ensures slots[k].width > 0
    decreases |slots|
  {
    if k < |slots| - 1 && slots[|slots| - 1].width == 0 {
      var front := slots[..|slots| - 1];
      assert front[..k] == slots[..k];
      SlotIsNotEmpty(front, k, width);
    }
  }

  // ------------------------------------------------------- the fewest slots

  lemma {:induction false} TotalWithout(slots: seq<MoveSlot>, i: nat)
    requires i < |slots|
    ensures Total(slots) == Total(slots[..i] + slots[i + 1..]) + slots[i].width
  {
    var less := slots[..i] + slots[i + 1..];
    if i == |slots| - 1 {
      assert less == slots[..i];
    } else {
      var front := slots[..|slots| - 1];
      TotalWithout(front, i);
      assert less[..|less| - 1] == front[..i] + front[i + 1..];
    }
  }

  lemma TotalPrefix(slots: seq<MoveSlot>, n: nat)
    requires n < |slots|
    ensures Total(slots[..n + 1]) == Total(slots[..n]) + slots[n].width
  {
    assert slots[..n + 1][..n] == slots[..n];
  }

  /** A choice of slots without repetition. */
  predicate Choice(chosen: seq<MoveSlot>, slots: seq<MoveSlot>)
  {
    Distinct(chosen) && forall s :: s in chosen ==> s in slots
  }

  lemma ChosenElsewhere(chosen: seq<MoveSlot>, i: nat, slots: seq<MoveSlot>)
    requires slots != [] && Choice(chosen, slots) && i < |chosen| && chosen[i] == slots[|slots| - 1]
    ensures Choice(chosen[..i] + chosen[i + 1..], slots[..|slots| - 1])
  {
    var front, less := slots[..|slots| - 1], chosen[..i] + chosen[i + 1..];
    assert slots == front + [slots[|slots| - 1]];
    forall s | s in less ensures s in front {
      assert s in chosen && s != chosen[i];
    }
  }

  lemma ChosenBefore(chosen: seq<MoveSlot>, slots: seq<MoveSlot>)
    requires slots != [] && Choice(chosen, slots) && slots[|slots| - 1] !in chosen
    ensures Choice(chosen, slots[..|slots| - 1])
  {
    assert slots == slots[..|slots| - 1] + [slots[|slots| - 1]];
  }

  lemma ChosenFromSome(chosen: seq<MoveSlot>, slots: seq<MoveSlot>)
    requires Choice(chosen, slots)
    ensures chosen != [] ==> slots != []
  {
    assert chosen != [] ==> chosen[0] in chosen;
  }

  lemma AddNarrowest(slots: seq<MoveSlot>, chosen: seq<MoveSlot>, i: nat)
    requires slots != [] && Descending(slots) && i < |chosen| && chosen[i] == slots[|slots| - 1]
    requires |chosen| <= |slots|
    requires Total(chosen[..i] + chosen[i + 1..]) <= Total(slots[..|chosen| - 1])
    ensures Total(chosen) <= Total(slots[..|chosen|])
  {
    var k := |chosen| - 1;
    TotalWithout(chosen, i);
    TotalPrefix(slots, k);
    assert slots[k].width >= slots[|slots| - 1].width;
  }

  /** Any n of the slots are at most as wide as the n widest. */
  lemma {:induction false} WidestFirst(slots: seq<MoveSlot>, chosen: seq<MoveSlot>)
    requires Descending(slots) && Choice(chosen, slots)
    ensures |chosen| <= |slots| && Total(chosen) <= Total(slots[..|chosen|])
    decreases |slots|
  {
    ChosenFromSome(chosen, slots);
    if slots != [] {
      var front := slots[..|slots| - 1];
      if i :| 0 <= i < |chosen| && chosen[i] == slots[|slots| - 1] {
        ChosenElsewhere(chosen, i, slots);
        WidestFirst(front, chosen[..i] + chosen[i + 1..]);
        assert front[..|chosen| - 1] == slots[..|chosen| - 1];
        AddNarrowest(slots, chosen, i);
      } else {
        ChosenBefore(chosen, slots);
        WidestFirst(front, chosen);
        assert front[..|chosen|] == slots[..|chosen|];
      }
    }
  }

  /** No choice among the slots that has enough width uses fewer of them than the
      filling loop does. */
  lemma FewestSlots(slots: seq<MoveSlot>, parts: seq<Part>, width: nat, chosen: seq<MoveSlot>)
    requires Descending(slots) && Fills(parts, slots) && parts != [] && Total(slots[..|parts| - 1]) < width
    requires Choice(chosen, slots) && Total(chosen) >= width
    ensures |chosen| >= |parts|
  {
    WidestFirst(slots, chosen);
    if |chosen| < |parts| {
      var most := slots[..|parts| - 1];
      assert most[..|chosen|] == slots[..|chosen|];
      TotalGrows(most, |chosen|);
    }
  }

  lemma OneTaken(b: seq<MoveSlot>, i: nat)
    requires i < |b|
    ensures multiset(b[..i] + b[i + 1..]) == multiset(b) - multiset{b[i]}
  {
    assert b == b[..i] + [b[i]] + b[i + 1..];
  }

  lemma {:induction false} SameTotal(a: seq<MoveSlot>, b: seq<MoveSlot>)
    requires multiset(a) == multiset(b)
    ensures Total(a) == Total(b)
    decreases |a|
  {
    if a == [] {
      assert |multiset(b)| == |b|;
    } else {
      var front, last := a[..|a| - 1], a[|a| - 1];
      assert a == front + [last];
      assert last in multiset(b);
      var i :| 0 <= i < |b| && b[i] == last;
      var less := b[..i] + b[i + 1..];
      OneTaken(b, i);
      SameTotal(front, less);
      TotalWithout(b, i);
    }
  }

  /**
   The split template over the slots in `priority`: the shortest sufficient prefix
   is sorted and filled. When it is not refused, its parts sum to the width; they
   stay within the slots' widths exactly when all slots together are wide enough.
   */
  method AddSplitTemplate(priority: seq<MoveSlot>, width: nat) returns (parts: Option<seq<Part>>, ghost sorted: seq<MoveSlot>)
    requires Distinct(priority)
    ensures Descending(sorted) && EnoughPrefix(priority, width, |sorted|)
    ensures multiset(sorted) == multiset(priority[..|sorted|])
    ensures parts.Some? ==> Fills(parts.value, sorted)
    ensures parts.Some? && priority != [] ==> parts.value != [] && AllBits(parts.value) == width
    ensures priority != [] && width > 0 ==> (width <= Total(priority) <==> parts.Some? && WithinSlots(parts.value))
  {
    var chosen := SortByWidth(priority, width);
    sorted := chosen;
    SameTotal(chosen, priority[..|chosen|]);
    PrefixDistinct(priority, chosen);
    assert priority[..|priority|] == priority;
    TotalGrows(priority, |chosen|);
    parts := AddSplitSlots(chosen, width);
  }

  lemma PrefixDistinct(priority: seq<MoveSlot>, chosen: seq<MoveSlot>)
    requires Distinct(priority) && |chosen| <= |priority| && multiset(chosen) == multiset(priority[..|chosen|])
    ensures Distinct(chosen)
  {
    var front := priority[..|chosen|];
    forall i, j | 0 <= i < j < |chosen| ensures chosen[i] != chosen[j] {
      if chosen[i] == chosen[j] {
        TwiceIn(chosen, i, j);
        OnceIn(front, chosen[i]);
      }
    }
  }

  lemma TwiceIn(slots: seq<MoveSlot>, i: nat, j: nat)
    requires i < j < |slots| && slots[i] == slots[j]
    ensures multiset(slots)[slots[i]] >= 2
  {
    assert slots == slots[..i] + [slots[i]] + slots[i + 1..j] + [slots[j]] + slots[j + 1..];
  }

  lemma {:induction false} OnceIn(slots: seq<MoveSlot>, s: MoveSlot)
    requires Distinct(slots)
    ensures multiset(slots)[s] <= 1
  {
    if slots != [] {
      var front, last := slots[..|slots| - 1], slots[|slots| - 1];
      assert slots == front + [last];
      OnceIn(front, s);
      assert last !in front;
    }
  }

  // -------------------------------------------------------------- the decoder

  /** The bits of a long immediate in the instruction word: where the lowest is, and
      how many there are. */
  datatype ImmField = ImmField(position: nat, width: nat)

  function FieldWidth(field: ImmField): nat { field.width }

  function FieldBits(fields: seq<ImmField>): nat { Upto(fields, FieldWidth, |fields|) }

  /** The immediate fields are inside the instruction word. */
  predicate Inside(fields: seq<ImmField>, word: Word)
  {
    forall k :: 0 <= k < |fields| ==> fields[k].position + fields[k].width <= |word|
  }

  function Field(field: ImmField, word: Word): Word
    requires field.position + field.width <= |word|
  {
    word[field.position..field.position + field.width]
  }

  /** The concatenated fields of the first `n` fields; the first is the highest. */
  function Value(fields: seq<ImmField>, word: Word, n: nat): (v: Word)
    requires n <= |fields| && Inside(fields, word)
    ensures |v| == Upto(fields, FieldWidth, n)
  {
    if n == 0 then []
    else Field(fields[n - 1], word) + Value(fields, word, n - 1)
  }

  lemma ResizeAbove(low: Word, v: Word, length: nat, signed: bool)
    requires v != []
    ensures low + Resize(v, length, signed) == Resize(low + v, |low| + length, signed)
  {
  }

  /** Assigns the slice just below the bits that `upper` already has. */
  method WriteSlice(register: array<bool>, lsb: nat, slice: Word, ghost upper: Word)
    requires lsb + |slice| <= register.Length && register[lsb + |slice|..] == upper
    modifies register
    ensures register[..lsb] == old(register[..lsb]) && register[lsb..] == slice + upper
  {
    forall b | lsb <= b < lsb + |slice| {
      register[b] := slice[b - lsb];
    }
  }

  /** The register from bit `lsb` up holds the first `j` fields. */
  ghost predicate Holds(fields: seq<ImmField>, word: Word, signed: bool, length: nat, j: nat, lsb: int, upper: Word)
  {
    && j <= |fields| && Inside(fields, word) && lsb == FieldBits(fields) - Upto(fields, FieldWidth, j) && 0 <= lsb < length
    && Upto(fields, FieldWidth, j) > 0 && upper == Resize(Value(fields, word, j), length - lsb, signed)
  }

  lemma FirstSlice(fields: seq<ImmField>, word: Word, signed: bool, length: nat)
    requires fields != [] && Inside(fields, word) && fields[0].width > 0 && FieldBits(fields) - fields[0].width < length
    ensures var lsb := FieldBits(fields) - fields[0].width;
            0 <= lsb && Holds(fields, word, signed, length, 1, lsb, Resize(Field(fields[0], word), length - lsb, signed))
  {
    UptoGrows(fields, FieldWidth, 1, |fields|);
    assert Upto(fields, FieldWidth, 1) == fields[0].width;
    assert Value(fields, word, 0) == [];
    assert Field(fields[0], word) + [] == Field(fields[0], word);
  }

  lemma NextSlice(fields: seq<ImmField>, word: Word, signed: bool, length: nat, j: nat, lsb: int, upper: Word)
    requires Holds(fields, word, signed, length, j, lsb, upper) && j < |fields|
    ensures Holds(fields, word, signed, length, j + 1, lsb - fields[j].width, Field(fields[j], word) + upper)
  {
    UptoGrows(fields, FieldWidth, j + 1, |fields|);
    assert Value(fields, word, j) != [];
    ResizeAbove(Field(fields[j], word), Value(fields, word, j), |upper|, signed);
  }

  /**
   The assignments that the decoder makes to the register of an immediate unit:
   the first slice is the resized first field, each later slice a field.
   */
  method WriteImmediate(fields: seq<ImmField>, word: Word, signed: bool, register: array<bool>)
    requires fields != [] && Inside(fields, word) && fields[0].width > 0
    requires FieldBits(fields) - fields[0].width < register.Length
    modifies register
    ensures register[..] == Resize(Value(fields, word, |fields|), register.Length, signed)
    ensures register.Length >= FieldBits(fields) && !signed ==>
              UnsignedValue(register[..]) == FieldsNumber(fields, word, |fields|)
    ensures register.Length >= FieldBits(fields) && signed ==>
              SignedValue(register[..]) == TwosComplement(FieldsNumber(fields, word, |fields|), FieldBits(fields))
    ensures register.Length <= FieldBits(fields) ==>
              UnsignedValue(register[..]) == FieldsNumber(fields, word, |fields|) % Pow2(register.Length)
  {
    var msb := register.Length - 1;
    var lsb := FieldBits(fields) - fields[0].width;
    FirstSlice(fields, word, signed, register.Length);
    var first := Resize(Field(fields[0], word), msb - lsb + 1, signed);
    WriteSlice(register, lsb, first, []);
    ghost var upper := first;
    assert first + [] == first;
    for j := 1 to |fields|
      invariant 0 <= lsb < register.Length && register[lsb..] == upper
      invariant Holds(fields, word, signed, register.Length, j, lsb, upper)
    {
      lsb, upper := WriteNext(fields, word, signed, register, j, lsb, upper);
    }
    LastSlice(fields, word, signed, register.Length, lsb, upper);
    assert register[..] == register[lsb..];
    UptoGrows(fields, FieldWidth, 1, |fields|);
    assert Upto(fields, FieldWidth, 1) == fields[0].width;
    RegisterMeans(fields, word, signed, register[..]);
  }

  /** The assignment of slice j, just below the bits written before. */
  method WriteNext(fields: seq<ImmField>, word: Word, signed: bool, register: array<bool>, j: nat, oldLsb: int, ghost upper: Word)
    returns (lsb: int, ghost next: Word)
    requires Holds(fields, word, signed, register.Length, j, oldLsb, upper) && j < |fields| && register[oldLsb..] == upper
    modifies register
    ensures Holds(fields, word, signed, register.Length, j + 1, lsb, next) && register[lsb..] == next
  {
    NextSlice(fields, word, signed, register.Length, j, oldLsb, upper);
    var msb := oldLsb - 1;
    lsb := msb - fields[j].width + 1;
    var bits := Field(fields[j], word);
    WriteSlice(register, lsb, bits, upper);
    next := bits + upper;
  }

  lemma LastSlice(fields: seq<ImmField>, word: Word, signed: bool, length: nat, lsb: int, upper: Word)
    requires Holds(fields, word, signed, length, |fields|, lsb, upper)
    ensures lsb == 0 && upper == Resize(Value(fields, word, |fields|), length, signed)
  {
  }

  // ------------------------------------------------------------ the round trip

  /** No two fields share bits of the instruction word. */
  predicate Apart(fields: seq<ImmField>)
  {
    forall i, j :: 0 <= i < j < |fields| ==>
      || fields[i].position + fields[i].width <= fields[j].position
      || fields[j].position + fields[j].width <= fields[i].position
  }

  function Put(word: Word, position: nat, bits: Word): (r: Word)
    requires position + |bits| <= |word|
    ensures |r| == |word|
  {
    word[..position] + bits + word[position + |bits|..]
  }

  /** Splits a value over the fields of the first `n` fields, the highest bits
      first. */
  function Split(fields: seq<ImmField>, word: Word, value: Word, n: nat): (r: Word)
    requires n <= |fields| && Inside(fields, word) && |value| == Upto(fields, FieldWidth, n)
    ensures |r| == |word|
  {
    if n == 0 then word
    else
      var w := fields[n - 1].width;
      Put(Split(fields, word, value[w..], n - 1), fields[n - 1].position, value[..w])
  }

  lemma PutReads(word: Word, position: nat, bits: Word)
    requires position + |bits| <= |word|
    ensures Put(word, position, bits)[position..position + |bits|] == bits
  {
  }

  lemma FieldUnaffected(field: ImmField, word: Word, position: nat, bits: Word)
    requires position + |bits| <= |word| && field.position + field.width <= |word|
    requires field.position + field.width <= position || position + |bits| <= field.position
    ensures Field(field, Put(word, position, bits)) == Field(field, word)
  {
    var after := Put(word, position, bits);
    forall b | field.position <= b < field.position + field.width ensures after[b] == word[b] {
    }
  }

  /** A field that is apart from a change is unaffected by it. */
  lemma {:induction false} ValueUnaffected(fields: seq<ImmField>, word: Word, position: nat, bits: Word, n: nat)
    requires n <= |fields| && Inside(fields, word) && position + |bits| <= |word|
    requires forall k :: 0 <= k < n ==>
               || fields[k].position + fields[k].width <= position
               || position + |bits| <= fields[k].position
    ensures Value(fields, Put(word, position, bits), n) == Value(fields, word, n)
  {
    if n > 0 {
      ValueUnaffected(fields, word, position, bits, n - 1);
      FieldUnaffected(fields[n - 1], word, position, bits);
    }
  }

  lemma PutValue(fields: seq<ImmField>, inner: Word, value: Word, n: nat)
    requires 0 < n <= |fields| && Inside(fields, inner) && Apart(fields)
    requires fields[n - 1].width <= |value| && Value(fields, inner, n - 1) == value[fields[n - 1].width..]
    ensures Value(fields, Put(inner, fields[n - 1].position, value[..fields[n - 1].width]), n) == value
  {
    var w, position := fields[n - 1].width, fields[n - 1].position;
    ValueUnaffected(fields, inner, position, value[..w], n - 1);
    PutReads(inner, position, value[..w]);
    assert value[..w] + value[w..] == value;
  }

  /** The fields hold what was split over them. */
  lemma {:induction false} SplitValue(fields: seq<ImmField>, word: Word, value: Word, n: nat)
    requires n <= |fields| && Inside(fields, word) && |value| == Upto(fields, FieldWidth, n) && Apart(fields)
    ensures Value(fields, Split(fields, word, value, n), n) == value
  {
    if n > 0 {
      var rest := value[fields[n - 1].width..];
      SplitValue(fields, word, rest, n - 1);
      PutValue(fields, Split(fields, word, rest, n - 1), value, n);
    }
  }

  /** Some instruction word makes the decoder write this value. */
  ghost predicate Decodes(fields: seq<ImmField>, blank: Word, value: Word, signed: bool)
  {
    exists word :: |word| == |blank| && Inside(fields, word) && |Value(fields, word, |fields|)| > 0 &&
                   Resize(Value(fields, word, |fields|), |value|, signed) == value
  }

  /** The number that the fields make up, the first one highest. */
  ghost function FieldsNumber(fields: seq<ImmField>, word: Word, n: nat): nat
    requires n <= |fields| && Inside(fields, word)
  {
    if n == 0 then 0
    else
      var field := fields[n - 1];
      UnsignedValue(word[field.position..field.position + field.width]) + Pow2(field.width) * FieldsNumber(fields, word, n - 1)
  }

  lemma {:induction false} ValueIsNumber(fields: seq<ImmField>, word: Word, n: nat)
    requires n <= |fields| && Inside(fields, word)
    ensures UnsignedValue(Value(fields, word, n)) == FieldsNumber(fields, word, n)
  {
    if n > 0 {
      ValueIsNumber(fields, word, n - 1);
      UnsignedOfConcat(Field(fields[n - 1], word), Value(fields, word, n - 1));
    }
  }

  /** The register in numbers: the number of the fields, unsigned or as two's
      complement of their bits; what does not fit is cut off at the top. */
  lemma RegisterMeans(fields: seq<ImmField>, word: Word, signed: bool, register: Word)
    requires Inside(fields, word) && FieldBits(fields) > 0
    requires register == Resize(Value(fields, word, |fields|), |register|, signed)
    ensures |register| >= FieldBits(fields) && !signed ==>
              UnsignedValue(register) == FieldsNumber(fields, word, |fields|)
    ensures |register| >= FieldBits(fields) && signed ==>
              SignedValue(register) == TwosComplement(FieldsNumber(fields, word, |fields|), FieldBits(fields))
    ensures |register| <= FieldBits(fields) ==>
              UnsignedValue(register) == FieldsNumber(fields, word, |fields|) % Pow2(|register|)
  {
    var v := Value(fields, word, |fields|);
    ValueIsNumber(fields, word, |fields|);
    UnsignedRange(v);
    if |register| >= |v| {
      if signed {
        SignExtends(v, |register|);
      } else {
        ZeroExtends(v, |register|);
      }
    }
    if |register| <= |v| {
      CutsValue(v, |register|, signed);
    }
  }

  /** A register value comes out of the decoder for some instruction word exactly
      when it is representable in the template's width; the word that splits it
      is such a word. */
  lemma DecodesExactly(fields: seq<ImmField>, blank: Word, value: Word, signed: bool)
    requires fields != [] && Inside(fields, blank) && Apart(fields) && 0 < FieldBits(fields) <= |value|
    ensures Representable(value, FieldBits(fields), signed) <==>
            Decodes(fields, blank, value, signed)
  {
    var low := value[..FieldBits(fields)];
    if Representable(value, FieldBits(fields), signed) {
      SplitValue(fields, blank, low, |fields|);
      var word := Split(fields, blank, low, |fields|);
      assert Resize(Value(fields, word, |fields|), |value|, signed) == value;
    }
    forall word | |word| == |blank| && Inside(fields, word) && |Value(fields, word, |fields|)| > 0 &&
                  Resize(Value(fields, word, |fields|), |value|, signed) == value
      ensures Representable(value, FieldBits(fields), signed)
    {
      assert value[..FieldBits(fields)] == Value(fields, word, |fields|);
    }
  }

  /** The bit of the decoded value that comes from bit t of field k. */
  lemma {:induction false} FieldBit(fields: seq<ImmField>, word: Word, n: nat, k: nat, t: nat)
    requires k < n <= |fields| && Inside(fields, word) && t < fields[k].width
    ensures Upto(fields, FieldWidth, k + 1) <= Upto(fields, FieldWidth, n)
    ensures var b := Upto(fields, FieldWidth, n) - Upto(fields, FieldWidth, k + 1) + t;
            b < |Value(fields, word, n)| && Value(fields, word, n)[b] == word[fields[k].position + t]
  {
    if k < n - 1 {
      FieldBit(fields, word, n - 1, k, t);
    }
  }

  /** The bit of the register that bit p of the instruction word goes to by field k. */
  function BitOf(fields: seq<ImmField>, k: nat, p: nat): int
    requires k < |fields|
  {
    Upto(fields, FieldWidth, |fields|) - Upto(fields, FieldWidth, k + 1) + (p - fields[k].position)
  }

  /** Word bit p is in field k. */
  predicate Covers(field: ImmField, p: nat)
  {
    field.position <= p < field.position + field.width
  }

  lemma BitsDiffer(fields: seq<ImmField>, i: nat, j: nat, p: nat)
    requires i < j < |fields| && Covers(fields[i], p) && Covers(fields[j], p)
    ensures 0 <= BitOf(fields, j, p) < BitOf(fields, i, p) < FieldBits(fields)
  {
    UptoGrows(fields, FieldWidth, i + 1, j);
    UptoGrows(fields, FieldWidth, j + 1, |fields|);
    UptoGrows(fields, FieldWidth, 0, i);
  }

  lemma WordBit(fields: seq<ImmField>, word: Word, k: nat, p: nat)
    requires Inside(fields, word) && k < |fields| && Covers(fields[k], p)
    ensures 0 <= BitOf(fields, k, p) < FieldBits(fields) && p < |word|
    ensures Value(fields, word, |fields|)[BitOf(fields, k, p)] == word[p]
  {
    FieldBit(fields, word, |fields|, k, p - fields[k].position);
  }

  lemma WordCannotHold(fields: seq<ImmField>, word: Word, i: nat, j: nat, p: nat, low: Word)
    requires Inside(fields, word) && i < j < |fields| && Covers(fields[i], p) && Covers(fields[j], p)
    requires 0 <= BitOf(fields, j, p) < BitOf(fields, i, p) < |low| && low[BitOf(fields, i, p)] != low[BitOf(fields, j, p)]
    ensures Value(fields, word, |fields|) != low
  {
    WordBit(fields, word, i, p);
    WordBit(fields, word, j, p);
  }

  /** A value that differs in two bits which come from the same word bit is lost. */
  lemma SharedBitLosesValue(fields: seq<ImmField>, blank: Word, i: nat, j: nat, p: nat, length: nat, signed: bool)
    requires Inside(fields, blank) && i < j < |fields| && FieldBits(fields) <= length
    requires Covers(fields[i], p) && Covers(fields[j], p)
    ensures exists value :: |value| == length && Representable(value, FieldBits(fields), signed) && !Decodes(fields, blank, value, signed)
  {
    var bi, bj := BitOf(fields, i, p), BitOf(fields, j, p);
    BitsDiffer(fields, i, j, p);
    var low := seq(FieldBits(fields), b => b == bi);
    assert low[bi] && !low[bj];
    var value := Resize(low, length, signed);
    assert value[..FieldBits(fields)] == low;
    forall word | |word| == |blank| && Inside(fields, word) && |Value(fields, word, |fields|)| > 0
      ensures Resize(Value(fields, word, |fields|), |value|, signed) != value
    {
      WordCannotHold(fields, word, i, j, p, low);
      assert Resize(Value(fields, word, |fields|), |value|, signed)[..FieldBits(fields)] == Value(fields, word, |fields|);
    }
  }

  /** The decoder produces every representable value exactly when no two fields
      share bits of the instruction word. */
  lemma DecodesAllWhenApart(fields: seq<ImmField>, blank: Word, length: nat, signed: bool)
    requires fields != [] && Inside(fields, blank) && 0 < FieldBits(fields) <= length
    requires forall k :: 0 <= k < |fields| ==> fields[k].width > 0
    ensures Apart(fields) <==>
            forall value :: |value| == length && Representable(value, FieldBits(fields), signed) ==> Decodes(fields, blank, value, signed)
  {
    if Apart(fields) {
      forall value | |value| == length && Representable(value, FieldBits(fields), signed)
        ensures Decodes(fields, blank, value, signed)
      {
        DecodesExactly(fields, blank, value, signed);
      }
    } else {
      var i, j :| 0 <= i < j < |fields|
        && fields[i].position < fields[j].position + fields[j].width
        && fields[j].position < fields[i].position + fields[i].width;
      var p := if fields[i].position < fields[j].position then fields[j].position else fields[i].position;
      SharedBitLosesValue(fields, blank, i, j, p, length, signed);
    }
  }

  // ------------------------------------------ the encoding that is decoded with

  /** The widest template slot on a move slot, over all instruction templates of the
      machine (maxLongImmSlotWidth). */
  function LongestPart(all: seq<Part>, index: nat): (width: nat)
    ensures forall p :: p in all && p.slot.index == index ==> p.width <= width
    ensures width > 0 ==> exists p :: p in all && p.slot.index == index && p.width == width
  {
    if all == [] then 0
    else
      var rest, last := LongestPart(all[..|all| - 1], index), all[|all| - 1];
      assert all == all[..|all| - 1] + [last];
      if last.slot.index == index && last.width > rest then last.width else rest
  }

  /** The binary encoding is generated again once the template is there: a move slot
      that is narrower than a template slot on it gets extra bits. */
  function Regenerated(base: seq<nat>, all: seq<Part>): seq<nat>
  {
    seq(|base|, i requires 0 <= i < |base| =>
      if LongestPart(all, i) > base[i] then LongestPart(all, i) else base[i])
  }

  /** Where the parts are in the instruction word: move slots lie side by side, in
      front of `front` bits of other fields. */
  function Place(front: nat, widths: seq<nat>, parts: seq<Part>): (fields: seq<ImmField>)
    requires forall p :: p in parts ==> p.slot.index < |widths|
    ensures |fields| == |parts|
  {
    seq(|parts|, k requires 0 <= k < |parts| =>
      ImmField(front + Upto(widths, Itself, parts[k].slot.index), parts[k].width))
  }

  /** Every slot gets the least width that is not below its own and that holds
      every template slot on it. */
  lemma RegeneratedIsLeast(base: seq<nat>, all: seq<Part>, i: nat, width: nat)
    requires i < |base|
    ensures |Regenerated(base, all)| == |base|
    ensures Regenerated(base, all)[i] <= width <==>
              base[i] <= width && forall p :: p in all && p.slot.index == i ==> p.width <= width
  {
  }

  /** The move slots follow each other from bit `front` on, and a part takes the low
      bits of its own. */
  lemma PlacedInOrder(front: nat, widths: seq<nat>, parts: seq<Part>, j: nat, k: nat)
    requires (forall p :: p in parts ==> p.slot.index < |widths|) && j < |parts| && k < |parts|
    ensures var fields, slot := Place(front, widths, parts), parts[j].slot.index;
            && fields[j].width == parts[j].width && (slot == 0 ==> fields[j].position == front)
            && (parts[k].slot.index == slot ==> fields[k].position == fields[j].position)
            && (parts[k].slot.index == slot + 1 ==> fields[k].position == fields[j].position + widths[slot])
  {
    assert parts[j] in parts && parts[k] in parts;
  }

  /** The slots are those of the encoding the template was filled with. */
  predicate OfEncoding(slots: seq<MoveSlot>, base: seq<nat>)
  {
    forall s :: s in slots ==> s.index < |base| && s.width == base[s.index]
  }

  /** The template of these slots is one of the machine's. */
  predicate IsTemplate(parts: seq<Part>, slots: seq<MoveSlot>, base: seq<nat>, all: seq<Part>)
  {
    && OfEncoding(slots, base) && Distinct(slots) && Fills(parts, slots)
    && forall p :: p in parts ==> p in all
  }

  lemma PartHasSlot(parts: seq<Part>, slots: seq<MoveSlot>, base: seq<nat>, all: seq<Part>, k: nat)
    requires IsTemplate(parts, slots, base, all) && k < |parts|
    ensures parts[k].slot.index < |base| && parts[k].slot.width == base[parts[k].slot.index]
    ensures parts[k].width <= Regenerated(base, all)[parts[k].slot.index]
  {
    assert parts[k] in parts && slots[k] in slots;
  }

  lemma PartsHaveSlots(parts: seq<Part>, slots: seq<MoveSlot>, base: seq<nat>, all: seq<Part>)
    requires IsTemplate(parts, slots, base, all)
    ensures forall p :: p in parts ==> p.slot.index < |base|
    ensures forall i, j :: 0 <= i < j < |parts| ==> parts[i].slot.index != parts[j].slot.index
  {
    forall k | 0 <= k < |parts| ensures parts[k].slot.index < |base| && parts[k].slot.width == base[parts[k].slot.index] {
      PartHasSlot(parts, slots, base, all, k);
    }
  }

  /** A part stays inside its own move slot of the encoding that is decoded with. */
  lemma PlacedInside(front: nat, base: seq<nat>, all: seq<Part>, slots: seq<MoveSlot>, parts: seq<Part>, k: nat)
    requires IsTemplate(parts, slots, base, all) && k < |parts|
    ensures var widths, i := Regenerated(base, all), parts[k].slot.index;
            && i < |base| && |widths| == |base| && parts[k].width <= widths[i]
            && Upto(widths, Itself, i) + parts[k].width <= Upto(widths, Itself, i + 1) <= Upto(widths, Itself, |base|)
  {
    PartHasSlot(parts, slots, base, all, k);
    UptoGrows(Regenerated(base, all), Itself, parts[k].slot.index + 1, |base|);
  }

  lemma SlotsSideBySide(widths: seq<nat>, m: nat, inM: nat, n: nat, inN: nat)
    requires m < |widths| && n < |widths| && m != n && inM <= widths[m] && inN <= widths[n]
    ensures || Upto(widths, Itself, m) + inM <= Upto(widths, Itself, n)
            || Upto(widths, Itself, n) + inN <= Upto(widths, Itself, m)
  {
    if m < n {
      UptoGrows(widths, Itself, m + 1, n);
    } else {
      UptoGrows(widths, Itself, n + 1, m);
    }
  }

  /** No two fields of a template share bits, whatever the widths it asked for. */
  lemma PlacedApart(front: nat, base: seq<nat>, all: seq<Part>, slots: seq<MoveSlot>, parts: seq<Part>)
    requires IsTemplate(parts, slots, base, all)
    ensures forall p :: p in parts ==> p.slot.index < |base|
    ensures Apart(Place(front, Regenerated(base, all), parts))
  {
    var widths := Regenerated(base, all);
    PartsHaveSlots(parts, slots, base, all);
    var fields := Place(front, widths, parts);
    forall i, j | 0 <= i < j < |fields|
      ensures fields[i].position + fields[i].width <= fields[j].position
           || fields[j].position + fields[j].width <= fields[i].position
    {
      PlacedInside(front, base, all, slots, parts, i);
      PlacedInside(front, base, all, slots, parts, j);
      SlotsSideBySide(widths, parts[i].slot.index, parts[i].width, parts[j].slot.index, parts[j].width);
    }
  }

  /** Slots are widened for a template exactly when one of its parts is wider than
      the slot it was filled into. */
  lemma WidenedExactly(base: seq<nat>, slots: seq<MoveSlot>, parts: seq<Part>)
    requires IsTemplate(parts, slots, base, parts)
    ensures Regenerated(base, parts) == base <==> WithinSlots(parts)
  {
    var widths := Regenerated(base, parts);
    forall k | 0 <= k < |parts| ensures parts[k].slot.index < |base| && parts[k].slot.width == base[parts[k].slot.index] {
      PartHasSlot(parts, slots, base, parts, k);
    }
    if WithinSlots(parts) {
      forall i | 0 <= i < |base| ensures widths[i] == base[i] {
      }
    } else {
      var k :| 0 <= k < |parts| && parts[k].width > parts[k].slot.width;
      assert parts[k] in parts;
      assert widths[parts[k].slot.index] != base[parts[k].slot.index];
    }
  }

  lemma {:induction false} PlacedBits(front: nat, widths: seq<nat>, parts: seq<Part>, n: nat)
    requires n <= |parts| && forall p :: p in parts ==> p.slot.index < |widths|
    ensures Upto(Place(front, widths, parts), FieldWidth, n) == Upto(parts, Width, n)
  {
    if n > 0 {
      PlacedBits(front, widths, parts, n - 1);
    }
  }

  /**
   Every template the generator builds, wide enough slots or not: on the encoding
   that the decoder is generated from, the decoder produces exactly the register
   values representable in the template's width.
   */
  lemma GeneratedTemplate(front: nat, base: seq<nat>, all: seq<Part>, slots: seq<MoveSlot>, parts: seq<Part>,
                          blank: Word, value: Word, signed: bool)
    requires IsTemplate(parts, slots, base, all) && parts != [] && AllBits(parts) <= |value|
    requires front + Upto(Regenerated(base, all), Itself, |base|) <= |blank|
    ensures forall p :: p in parts ==> p.slot.index < |base|
    ensures var fields := Place(front, Regenerated(base, all), parts);
            && Inside(fields, blank) && Apart(fields)
            && (Representable(value, AllBits(parts), signed) <==> Decodes(fields, blank, value, signed))
    ensures AllBits(parts) > 0 && (Representable(value, AllBits(parts), signed) <==> InRange(value, AllBits(parts), signed))
  {
    PlacedApart(front, base, all, slots, parts);
    var fields := Place(front, Regenerated(base, all), parts);
    forall k | 0 <= k < |fields| ensures fields[k].position + fields[k].width <= |blank| {
      PlacedInside(front, base, all, slots, parts, k);
    }
    PlacedBits(front, Regenerated(base, all), parts, |parts|);
    UptoGrows(parts, Width, 1, |parts|);
    assert Upto(parts, Width, 1) == parts[0].width;
    DecodesExactly(fields, blank, value, signed);
    RepresentableMeans(value, AllBits(parts), signed);
  }

  // ------------------------------------------------------- the program image

  /** The bits of the value that belong to part k. */
  function Share(parts: seq<Part>, value: Word, k: nat): (bits: Word)
    requires k < |parts| && AllBits(parts) <= |value|
    ensures |bits| == parts[k].width
  {
    UptoGrows(parts, Width, k + 1, |parts|);
    value[AllBits(parts) - Upto(parts, Width, k + 1)..AllBits(parts) - Upto(parts, Width, k)]
  }

  /** encodeLongImmediate: what goes into the move slot of part k; None when the
      part does not fit the slot, which the source asserts it does. */
  method EncodeLongImmediate(parts: seq<Part>, index: nat, slotWidth: nat, value: Word, ghost k: nat) returns (bits: Option<Word>)
    requires k < |parts| && parts[k].slot.index == index && AllBits(parts) <= |value|
    requires forall i, j :: 0 <= i < j < |parts| ==> parts[i].slot.index != parts[j].slot.index
    ensures bits.Some? <==> parts[k].width <= slotWidth
    ensures bits.Some? ==>
              && |bits.value| == slotWidth && bits.value[..parts[k].width] == Share(parts, value, k)
              && forall b :: parts[k].width <= b < slotWidth ==> !bits.value[b]
  {
    var rightmost := 0;
    var i := |parts| - 1;
    while parts[i].slot.index != index
      invariant k <= i < |parts| && rightmost == AllBits(parts) - Upto(parts, Width, i + 1)
      decreases i
    {
      rightmost := rightmost + parts[i].width;
      i := i - 1;
    }
    UptoGrows(parts, Width, i + 1, |parts|);
    if parts[i].width > slotWidth {
      return None;
    }
    var zeros := seq(slotWidth - parts[i].width, _ => false);
    return Some(value[rightmost..rightmost + parts[i].width] + zeros);
  }

  /** The bits of the value that belong to the first `n` parts. */
  function Shares(parts: seq<Part>, value: Word, n: nat): Word
    requires n <= |parts| && AllBits(parts) <= |value|
  {
    UptoGrows(parts, Width, n, |parts|);
    value[AllBits(parts) - Upto(parts, Width, n)..AllBits(parts)]
  }

  lemma SharesJoin(parts: seq<Part>, value: Word, n: nat)
    requires n < |parts| && AllBits(parts) <= |value|
    ensures Share(parts, value, n) + Shares(parts, value, n) == Shares(parts, value, n + 1)
  {
    UptoGrows(parts, Width, n + 1, |parts|);
  }

  /** Fields that hold their shares hold the value together. */
  lemma {:induction false} SharesMakeValue(fields: seq<ImmField>, parts: seq<Part>, word: Word, value: Word, n: nat)
    requires n <= |fields| == |parts| && Inside(fields, word) && AllBits(parts) <= |value|
    requires forall k :: 0 <= k < n ==> Field(fields[k], word) == Share(parts, value, k)
    ensures Value(fields, word, n) == Shares(parts, value, n)
  {
    if n > 0 {
      SharesMakeValue(fields, parts, word, value, n - 1);
      SharesJoin(parts, value, n - 1);
    }
  }

  /** A representable value that the image writer has put into the move slots of its
      template is the one the decoder writes to the register. */
  lemma ImmediateComesBack(fields: seq<ImmField>, parts: seq<Part>, word: Word, value: Word, signed: bool)
    requires |fields| == |parts| && Inside(fields, word) && Representable(value, AllBits(parts), signed)
    requires forall k :: 0 <= k < |parts| ==> Field(fields[k], word) == Share(parts, value, k)
    ensures Resize(Value(fields, word, |parts|), |value|, signed) == value
  {
    SharesMakeValue(fields, parts, word, value, |parts|);
    assert Shares(parts, value, |parts|) == value[..AllBits(parts)];
  }
}
