/**
 The move slot compressor: one dictionary per move slot, built over all
 programs at the first compression, and the decompressor that is generated
 from the dictionaries afterwards.
 */
module MoveSlotCompression {
  import opened BitVectors
  import opened Sequences

  /** The instruction format as the compressor sees it: the bits in front of the
      first move slot and the widths of the slots. */
  datatype Format = Format(first: nat, widths: seq<nat>)
  {
    /** Where slot `i` begins; the end of the last slot for i == |widths|. */
    function Begin(i: nat): nat
      requires i <= |widths|
    {
      first + Upto(widths, Itself, i)
    }

    function Width(): nat { Begin(|widths|) }

    /** The bits the compressor can read: BitVector's sub-vector constructor
        throws for an empty slot and past the end of the instruction. */
    predicate Readable(instruction: Bits)
    {
      (forall i :: 0 <= i < |widths| ==> widths[i] > 0) && |instruction| >= Width()
    }

    function Slot(instruction: Bits, i: nat): Bits
      requires i < |widths| && Readable(instruction)
    {
      UptoGrows(widths, Itself, i + 1, |widths|);
      instruction[Begin(i)..Begin(i + 1)]
    }
  }

  /** The first `i` slots can be cut out. */
  predicate Reaches(f: Format, instruction: Bits, i: nat)
  {
    && i <= |f.widths| && (forall j :: 0 <= j < i ==> f.widths[j] > 0)
    && (i > 0 ==> f.Begin(i) <= |instruction|)
  }

  lemma ReachesOrNot(f: Format, instruction: Bits, i: nat)
    requires Reaches(f, instruction, i) && i < |f.widths|
    ensures if f.widths[i] == 0 || f.Begin(i + 1) > |instruction| then !f.Readable(instruction)
            else Reaches(f, instruction, i + 1)
  {
    UptoGrows(f.widths, Itself, i + 1, |f.widths|);
  }

  /** The first `i` slots of a readable instruction have codes. */
  ghost predicate Known(f: Format, dictionaries: seq<Dictionary>, instruction: Bits, i: nat)
    requires i <= |f.widths| == |dictionaries|
  {
    f.Readable(instruction) ==> forall j :: 0 <= j < i ==> f.Slot(instruction, j) in dictionaries[j]
  }

  lemma KnownGrows(f: Format, later: seq<Dictionary>, earlier: seq<Dictionary>, instruction: Bits, i: nat)
    requires i < |f.widths| == |earlier| && Extends(later, earlier) && Known(f, earlier, instruction, i)
    requires f.Readable(instruction) ==> f.Slot(instruction, i) in later[i]
    ensures Known(f, later, instruction, i + 1)
  {
  }

  /** Every slot of the instruction has a code. */
  predicate Encodable(f: Format, dictionaries: seq<Dictionary>, instruction: Bits)
  {
    && |dictionaries| == |f.widths| && f.Readable(instruction)
    && forall i :: 0 <= i < |f.widths| ==> f.Slot(instruction, i) in dictionaries[i]
  }

  function CodeOf(f: Format, dictionaries: seq<Dictionary>, instruction: Bits, i: nat): Bits
    requires i < |f.widths| && Encodable(f, dictionaries, instruction)
  {
    ToBits(dictionaries[i][f.Slot(instruction, i)], RequiredBits(|dictionaries[i]|))
  }

  /** The compressed word up to slot `n`: the leading bits as they are, then the codes. */
  function Packed(f: Format, dictionaries: seq<Dictionary>, instruction: Bits, n: nat): Bits
    requires n <= |f.widths| && Encodable(f, dictionaries, instruction)
  {
    if n == 0 then instruction[..f.first]
    else Packed(f, dictionaries, instruction, n - 1) + CodeOf(f, dictionaries, instruction, n - 1)
  }

  /** Where the code of slot `n` begins in the compressed word. */
  function Offset(f: Format, dictionaries: seq<Dictionary>, n: nat): nat
    requires n <= |dictionaries|
  {
    if n == 0 then f.first else Offset(f, dictionaries, n - 1) + RequiredBits(|dictionaries[n - 1]|)
  }

  lemma {:induction false} PackedWidth(f: Format, dictionaries: seq<Dictionary>, instruction: Bits, n: nat)
    requires n <= |f.widths| && Encodable(f, dictionaries, instruction)
    ensures |Packed(f, dictionaries, instruction, n)| == Offset(f, dictionaries, n)
  {
    if n > 0 {
      PackedWidth(f, dictionaries, instruction, n - 1);
    }
  }

  lemma {:induction false} PackedGrows(f: Format, dictionaries: seq<Dictionary>, instruction: Bits, n: nat, m: nat)
    requires n <= m <= |f.widths| && Encodable(f, dictionaries, instruction)
    ensures Packed(f, dictionaries, instruction, n) <= Packed(f, dictionaries, instruction, m)
  {
    if n < m {
      PackedGrows(f, dictionaries, instruction, n, m - 1);
    }
  }

  // ------------------------------------------------------- the decompressor

  /** evaluateMoveSlotBoundaries: the slices of the fetched word, counted from 1. */
  method EvaluateMoveSlotBoundaries(f: Format, dictionaries: seq<Dictionary>) returns (boundaries: seq<(nat, nat)>)
    requires |dictionaries| == |f.widths|
    ensures AtOffsets(f, dictionaries, boundaries)
  {
    boundaries := [];
    for i := 0 to |f.widths|
      invariant |boundaries| == i
      invariant forall k :: 0 <= k < i ==>
                  boundaries[k] == (Offset(f, dictionaries, k) + 1, Offset(f, dictionaries, k + 1))
    {
      var temp := 0;
      if |boundaries| == 0 {
        temp := f.first;
      } else {
        temp := boundaries[|boundaries| - 1].1;
      }
      var begin := temp + 1;
      var end := temp + RequiredBits(|dictionaries[i]|);
      boundaries := boundaries + [(begin, end)];
    }
  }

  /** The boundaries are where the packing puts the codes. */
  ghost predicate AtOffsets(f: Format, dictionaries: seq<Dictionary>, boundaries: seq<(nat, nat)>)
  {
    && |boundaries| == |dictionaries| == |f.widths|
    && forall k :: 0 <= k < |boundaries| ==>
         boundaries[k] == (Offset(f, dictionaries, k) + 1, Offset(f, dictionaries, k + 1))
  }

  /** The generated lookup of one slot: a constant for a dictionary with at most
      one entry, otherwise the table line that the slice selects. */
  ghost function Lookup(d: Dictionary, slice: Bits): Option<Bits>
  {
    if |d| > 1 then KeyForValue(d, ToNat(slice)) else KeyForValue(d, 0)
  }

  ghost function LookupSlice(d: Dictionary, boundary: (nat, nat), word: Bits): Option<Bits>
  {
    if 1 <= boundary.0 <= boundary.1 + 1 <= |word| + 1 then Lookup(d, word[boundary.0 - 1..boundary.1]) else None
  }

  ghost function Concat(front: Option<Bits>, slot: Option<Bits>): Option<Bits>
  {
    if front.Some? && slot.Some? then Some(front.value + slot.value) else None
  }

  /** The generated decompressor up to slot `n`, on a fetched word whose index k
      is the signal's element 'length-1-k. */
  ghost function Decompress(f: Format, dictionaries: seq<Dictionary>, boundaries: seq<(nat, nat)>, word: Bits, n: nat): Option<Bits>
    requires n <= |dictionaries| == |boundaries|
  {
    if n == 0 then (if f.first <= |word| then Some(word[..f.first]) else None)
    else Concat(Decompress(f, dictionaries, boundaries, word, n - 1),
                LookupSlice(dictionaries[n - 1], boundaries[n - 1], word))
  }

  ghost predicate AllNumbered(dictionaries: seq<Dictionary>, tables: seq<seq<Bits>>)
  {
    |tables| == |dictionaries| && forall i :: 0 <= i < |dictionaries| ==> Numbers(dictionaries[i], tables[i])
  }

  lemma LookupFinds(d: Dictionary, table: seq<Bits>, slot: Bits)
    requires Numbers(d, table) && slot in d
    ensures Lookup(d, ToBits(d[slot], RequiredBits(|d|))) == Some(slot)
  {
    RequiredBitsMonotone(|d| - 1, |d|);
    CodeFits(d, table, slot, RequiredBits(|d|));
    KeyForCode(d, table, slot);
    if |d| <= 1 {
      assert d[slot] == 0;
    }
  }

  /** The slice between the boundaries of slot n is the code packed for it. */
  lemma SliceIsCode(f: Format, dictionaries: seq<Dictionary>, instruction: Bits, padding: Bits, n: nat)
    requires Encodable(f, dictionaries, instruction) && n < |f.widths|
    ensures var word := Packed(f, dictionaries, instruction, |f.widths|) + padding;
            var begin, end := Offset(f, dictionaries, n), Offset(f, dictionaries, n + 1);
            begin <= end <= |word| && word[begin..end] == CodeOf(f, dictionaries, instruction, n)
  {
    PackedGrows(f, dictionaries, instruction, n + 1, |f.widths|);
    PackedWidth(f, dictionaries, instruction, n);
    PackedWidth(f, dictionaries, instruction, n + 1);
    var word, upTo := Packed(f, dictionaries, instruction, |f.widths|) + padding, Packed(f, dictionaries, instruction, n + 1);
    assert word[..|upTo|] == upTo;
    assert word[Offset(f, dictionaries, n)..|upTo|] == upTo[Offset(f, dictionaries, n)..];
  }

  /**
   The words in bits: the leading bits are those of the instruction, and the code
   of slot n is behind the codes before it, in as many bits as the number of
   entries needs.
   */
  lemma CodeWrittenOut(f: Format, dictionaries: seq<Dictionary>, instruction: Bits, n: nat, k: nat)
    requires Encodable(f, dictionaries, instruction) && n < |f.widths|
    requires k < Offset(f, dictionaries, n + 1) - Offset(f, dictionaries, n)
    ensures Offset(f, dictionaries, 0) == f.first
    ensures var word, d := Packed(f, dictionaries, instruction, |f.widths|), dictionaries[n];
            var begin, end := Offset(f, dictionaries, n), Offset(f, dictionaries, n + 1);
            var first := f.first + Upto(f.widths, Itself, n);
            && LeastWidth(end - begin, |d|) && end <= |word| && first + f.widths[n] <= |instruction|
            && instruction[first..first + f.widths[n]] in d
            && (word[begin + k] <==> (d[instruction[first..first + f.widths[n]]] / Pow2(end - begin - 1 - k)) % 2 == 1)
  {
    SliceIsCode(f, dictionaries, instruction, [], n);
    var word := Packed(f, dictionaries, instruction, |f.widths|);
    assert word + [] == word;
    RequiredBitsLeast(|dictionaries[n]|);
    BitOfNumber(dictionaries[n][f.Slot(instruction, n)], RequiredBits(|dictionaries[n]|), k);
    SlotIs(f, instruction, n);
  }

  lemma SlotIs(f: Format, instruction: Bits, n: nat)
    requires f.Readable(instruction) && n < |f.widths|
    ensures f.Begin(n) + f.widths[n] == f.Begin(n + 1) <= |instruction|
    ensures f.Slot(instruction, n) == instruction[f.Begin(n)..f.Begin(n) + f.widths[n]]
  {
    UptoGrows(f.widths, Itself, n + 1, |f.widths|);
  }

  lemma SlotComesBack(f: Format, dictionaries: seq<Dictionary>, tables: seq<seq<Bits>>, boundaries: seq<(nat, nat)>, instruction: Bits, padding: Bits, n: nat)
    requires Encodable(f, dictionaries, instruction) && AllNumbered(dictionaries, tables) && n < |f.widths|
    requires AtOffsets(f, dictionaries, boundaries)
    ensures LookupSlice(dictionaries[n], boundaries[n], Packed(f, dictionaries, instruction, |f.widths|) + padding)
         == Some(f.Slot(instruction, n))
  {
    SliceIsCode(f, dictionaries, instruction, padding, n);
    LookupFinds(dictionaries[n], tables[n], f.Slot(instruction, n));
  }

  /** The leading bits are packed as they are. */
  lemma LeadingBits(f: Format, dictionaries: seq<Dictionary>, instruction: Bits, padding: Bits)
    requires Encodable(f, dictionaries, instruction) && f.first <= |instruction|
    ensures var word := Packed(f, dictionaries, instruction, |f.widths|) + padding;
            f.first <= |word| && word[..f.first] == instruction[..f.first]
  {
    PackedGrows(f, dictionaries, instruction, 0, |f.widths|);
  }

  lemma SlotFollows(f: Format, instruction: Bits, n: nat)
    requires f.Readable(instruction) && n < |f.widths| && f.Begin(n + 1) <= |instruction|
    ensures f.Begin(n) <= f.Begin(n + 1)
    ensures instruction[..f.Begin(n)] + f.Slot(instruction, n) == instruction[..f.Begin(n + 1)]
  {
  }

  lemma OneMoreSlot(f: Format, dictionaries: seq<Dictionary>, boundaries: seq<(nat, nat)>, instruction: Bits, word: Bits, n: nat)
    requires f.Readable(instruction) && 0 < n <= |f.widths| == |dictionaries| == |boundaries| && f.Begin(n) <= |instruction|
    requires f.Begin(n - 1) <= |instruction| && Decompress(f, dictionaries, boundaries, word, n - 1) == Some(instruction[..f.Begin(n - 1)])
    requires LookupSlice(dictionaries[n - 1], boundaries[n - 1], word) == Some(f.Slot(instruction, n - 1))
    ensures Decompress(f, dictionaries, boundaries, word, n) == Some(instruction[..f.Begin(n)])
  {
    SlotFollows(f, instruction, n - 1);
  }

  /** Decompressing what was packed returns the instruction up to the end of the
      last slot, whatever follows the word in memory. */
  lemma {:induction false} DecompressesPacked(f: Format, dictionaries: seq<Dictionary>, tables: seq<seq<Bits>>, boundaries: seq<(nat, nat)>, instruction: Bits, padding: Bits, n: nat)
    requires Encodable(f, dictionaries, instruction) && AllNumbered(dictionaries, tables) && n <= |f.widths|
    requires AtOffsets(f, dictionaries, boundaries)
    ensures f.Begin(n) <= |instruction|
    ensures Decompress(f, dictionaries, boundaries, Packed(f, dictionaries, instruction, |f.widths|) + padding, n)
         == Some(instruction[..f.Begin(n)])
  {
    UptoGrows(f.widths, Itself, n, |f.widths|);
    if n == 0 {
      LeadingBits(f, dictionaries, instruction, padding);
    } else {
      DecompressesPacked(f, dictionaries, tables, boundaries, instruction, padding, n - 1);
      SlotComesBack(f, dictionaries, tables, boundaries, instruction, padding, n - 1);
      OneMoreSlot(f, dictionaries, boundaries, instruction, Packed(f, dictionaries, instruction, |f.widths|) + padding, n);
    }
  }

  /** The round trip is exact precisely when the instruction ends with its last
      move slot; dedicated immediate slots behind it would be lost. */
  lemma RoundTrip(f: Format, dictionaries: seq<Dictionary>, tables: seq<seq<Bits>>, boundaries: seq<(nat, nat)>, instruction: Bits, padding: Bits)
    requires Encodable(f, dictionaries, instruction) && AllNumbered(dictionaries, tables)
    requires AtOffsets(f, dictionaries, boundaries)
    ensures var word := Packed(f, dictionaries, instruction, |f.widths|) + padding;
            var back := Decompress(f, dictionaries, boundaries, word, |f.widths|);
            back.Some? && (back.value == instruction <==> |instruction| == f.Width())
  {
    DecompressesPacked(f, dictionaries, tables, boundaries, instruction, padding, |f.widths|);
    WholePrefix(instruction, f.Width());
  }

  lemma WholePrefix(b: Bits, n: nat)
    requires n <= |b|
    ensures b[..n] == b <==> |b| == n
  {
  }

  // --------------------------------------------------------- the compressor

  /** Codes are stable: a later dictionary keeps every entry with its code. */
  ghost predicate Extends(later: seq<Dictionary>, earlier: seq<Dictionary>)
  {
    && |later| == |earlier|
    && forall i, key :: 0 <= i < |earlier| && key in earlier[i] ==> key in later[i] && later[i][key] == earlier[i][key]
  }

  /** Every readable instruction of a program has its codes. */
  ghost predicate Covers(f: Format, dictionaries: seq<Dictionary>, program: seq<Bits>)
  {
    forall k :: 0 <= k < |program| && f.Readable(program[k]) ==> Encodable(f, dictionaries, program[k])
  }

  ghost predicate AllReadable(f: Format, program: seq<Bits>)
  {
    forall k :: 0 <= k < |program| ==> f.Readable(program[k])
  }

  /** The bits are slot i of an instruction of the program. */
  ghost predicate OccursIn(f: Format, program: seq<Bits>, i: nat, key: Bits)
    requires i < |f.widths|
  {
    exists k :: 0 <= k < |program| && f.Readable(program[k]) && f.Slot(program[k], i) == key
  }

  ghost predicate OccursInSome(f: Format, programs: seq<seq<Bits>>, i: nat, key: Bits)
    requires i < |f.widths|
  {
    exists p :: 0 <= p < |programs| && OccursIn(f, programs[p], i, key)
  }

  /** The new entries are among the first n slots of the instruction. */
  ghost predicate SlotsAdded(f: Format, later: seq<Dictionary>, earlier: seq<Dictionary>, instruction: Bits, n: nat)
    requires |later| == |earlier| == |f.widths|
  {
    forall i, key :: 0 <= i < |later| && key in later[i] ==>
      key in earlier[i] || (i < n && (f.Readable(instruction) ==> f.Slot(instruction, i) == key))
  }

  /** The first n slots have their codes, and nothing else has been added. */
  ghost predicate FirstSlotsIn(f: Format, later: seq<Dictionary>, earlier: seq<Dictionary>, instruction: Bits, n: nat)
    requires |later| == |earlier| == |f.widths| && n <= |f.widths|
  {
    Extends(later, earlier) && Known(f, later, instruction, n) && SlotsAdded(f, later, earlier, instruction, n)
  }

  lemma NextSlotIn(f: Format, later: seq<Dictionary>, before: seq<Dictionary>, earlier: seq<Dictionary>, instruction: Bits, n: nat, begin: nat)
    requires |later| == |before| == |earlier| == |f.widths| && n < |f.widths|
    requires begin == f.Begin(n) && begin + f.widths[n] <= |instruction|
    requires FirstSlotsIn(f, before, earlier, instruction, n) && Extends(later, before)
    requires later == before[n := Add(before[n], instruction[begin..begin + f.widths[n]])]
    ensures FirstSlotsIn(f, later, earlier, instruction, n + 1)
  {
    if f.Readable(instruction) {
      SlotIs(f, instruction, n);
      KnownGrows(f, later, before, instruction, n);
    }
    SlotAdded(f, later, before, earlier, instruction, n);
    ExtendsFurther(later, before, earlier);
  }

  lemma ExtendsFurther(later: seq<Dictionary>, before: seq<Dictionary>, earlier: seq<Dictionary>)
    requires Extends(later, before) && Extends(before, earlier)
    ensures Extends(later, earlier)
  {
  }

  lemma SlotAdded(f: Format, later: seq<Dictionary>, before: seq<Dictionary>, earlier: seq<Dictionary>, instruction: Bits, n: nat)
    requires |later| == |before| == |earlier| == |f.widths| && n < |f.widths|
    requires SlotsAdded(f, before, earlier, instruction, n)
    requires forall i :: 0 <= i < |later| && i != n ==> later[i] == before[i]
    requires f.Readable(instruction) ==> later[n].Keys == before[n].Keys + {f.Slot(instruction, n)}
    ensures SlotsAdded(f, later, earlier, instruction, n + 1)
  {
  }

  /** The new entries are slots of the program. */
  ghost predicate AddedOnly(f: Format, later: seq<Dictionary>, earlier: seq<Dictionary>, program: seq<Bits>)
    requires |later| == |earlier| == |f.widths|
  {
    forall i, key :: 0 <= i < |later| && key in later[i] ==> key in earlier[i] || OccursIn(f, program, i, key)
  }

  lemma AllSlotsAdded(f: Format, later: seq<Dictionary>, earlier: seq<Dictionary>, instruction: Bits)
    requires |later| == |earlier| == |f.widths| && (f.Readable(instruction) || f.widths == [])
    requires SlotsAdded(f, later, earlier, instruction, |f.widths|)
    ensures AddedOnly(f, later, earlier, [instruction])
  {
    forall i, key | 0 <= i < |later| && key in later[i] ensures key in earlier[i] || OccursIn(f, [instruction], i, key) {
      assert key !in earlier[i] ==> [instruction][0] == instruction;
    }
  }

  lemma AddedBySlots(f: Format, later: seq<Dictionary>, before: seq<Dictionary>, earlier: seq<Dictionary>, program: seq<Bits>, k: nat)
    requires |later| == |before| == |earlier| == |f.widths| && k < |program|
    requires AddedOnly(f, before, earlier, program[..k]) && AddedOnly(f, later, before, [program[k]])
    ensures AddedOnly(f, later, earlier, program[..k + 1])
  {
    forall i, key | 0 <= i < |later| && key in later[i] ensures key in earlier[i] || OccursIn(f, program[..k + 1], i, key) {
      if OccursIn(f, [program[k]], i, key) {
        assert program[..k + 1][k] == program[k];
      } else if OccursIn(f, program[..k], i, key) {
        var j :| 0 <= j < k && f.Readable(program[..k][j]) && f.Slot(program[..k][j], i) == key;
        assert program[..k + 1][j] == program[..k][j];
      }
    }
  }

  /** Every entry is a slot of some program. */
  ghost predicate OnlySlots(f: Format, dictionaries: seq<Dictionary>, programs: seq<seq<Bits>>)
    requires |dictionaries| == |f.widths|
  {
    forall i, key :: 0 <= i < |dictionaries| && key in dictionaries[i] ==> OccursInSome(f, programs, i, key)
  }

  lemma OnlySlotsAdded(f: Format, later: seq<Dictionary>, earlier: seq<Dictionary>, programs: seq<seq<Bits>>, p: nat)
    requires |later| == |earlier| == |f.widths| && p < |programs|
    requires OnlySlots(f, earlier, programs) && AddedOnly(f, later, earlier, programs[p])
    ensures OnlySlots(f, later, programs)
  {
    forall i, key | 0 <= i < |later| && key in later[i] ensures OccursInSome(f, programs, i, key) {
      if OccursIn(f, programs[p], i, key) {
        assert OccursInSome(f, programs, i, key);
      }
    }
  }

  lemma ExtendsCovers(f: Format, later: seq<Dictionary>, earlier: seq<Dictionary>, program: seq<Bits>)
    requires Extends(later, earlier) && Covers(f, earlier, program)
    ensures Covers(f, later, program)
  {
    forall k | 0 <= k < |program| && f.Readable(program[k]) ensures Encodable(f, later, program[k]) {
      assert Encodable(f, earlier, program[k]);
    }
  }

  ghost predicate AllCovered(f: Format, dictionaries: seq<Dictionary>, programs: seq<seq<Bits>>, n: nat)
    requires n <= |programs|
  {
    forall p :: 0 <= p < n ==> Covers(f, dictionaries, programs[p])
  }

  lemma ProgramCovered(f: Format, later: seq<Dictionary>, earlier: seq<Dictionary>, programs: seq<seq<Bits>>, p: nat)
    requires p < |programs| && Extends(later, earlier) && AllCovered(f, earlier, programs, p) && Covers(f, later, programs[p])
    ensures AllCovered(f, later, programs, p + 1)
  {
    forall q | 0 <= q < p ensures Covers(f, later, programs[q]) {
      ExtendsCovers(f, later, earlier, programs[q]);
    }
  }

  class MoveSlotDictionary {
    const format: Format
    const programs: seq<seq<Bits>>
    var dictionary: seq<Dictionary>
    var dictionaryCreated: bool
    var compressedWidth: nat
    /** The entries in the order of their codes. */
    ghost var tables: seq<seq<Bits>>

    ghost predicate Numbered()
      reads this
    {
      |dictionary| == |format.widths| && AllNumbered(dictionary, tables)
    }

    ghost predicate Valid()
      reads this
    {
      dictionaryCreated ==>
        && Numbered() && compressedWidth == Offset(format, dictionary, |dictionary|)
        && OnlySlots(format, dictionary, programs)
        && AllCovered(format, dictionary, programs, |programs|)
    }

    constructor (format: Format, programs: seq<seq<Bits>>)
      ensures Valid() && !dictionaryCreated && this.format == format && this.programs == programs
    {
      this.format, this.programs := format, programs;
      dictionary, dictionaryCreated, compressedWidth, tables := [], false, 0, [];
    }

    method AddToDictionary(moveSlot: Bits, slotIndex: nat)
      requires Numbered() && slotIndex < |dictionary|
      modifies this`dictionary, this`tables
      ensures Numbered() && Extends(dictionary, old(dictionary))
      ensures dictionary == old(dictionary)[slotIndex := Add(old(dictionary)[slotIndex], moveSlot)]
      ensures moveSlot in dictionary[slotIndex]
    {
      AddNumbers(dictionary[slotIndex], tables[slotIndex], moveSlot);
      tables := tables[slotIndex := AddToTable(tables[slotIndex], moveSlot)];
      if moveSlot !in dictionary[slotIndex] {
        var code := |dictionary[slotIndex]|;
        dictionary := dictionary[slotIndex := dictionary[slotIndex][moveSlot := code]];
      }
    }

    /** Adds one slot of an instruction; None when BitVector throws. */
    method AddSlot(instruction: Bits, i: nat, begin: nat, ghost earlier: seq<Dictionary>) returns (end: Option<nat>)
      requires Numbered() && |earlier| == |format.widths| && i < |format.widths|
      requires begin == format.Begin(i) && Reaches(format, instruction, i)
      requires FirstSlotsIn(format, dictionary, earlier, instruction, i)
      modifies this`dictionary, this`tables
      ensures Numbered() && Extends(dictionary, old(dictionary))
      ensures end.None? ==> !format.Readable(instruction)
      ensures end.Some? ==> end.value == format.Begin(i + 1) && Reaches(format, instruction, i + 1)
      ensures end.Some? ==> FirstSlotsIn(format, dictionary, earlier, instruction, i + 1)
    {
      ReachesOrNot(format, instruction, i);
      var next := begin + format.widths[i];
      if format.widths[i] == 0 || next > |instruction| {
        return None;
      }
      ghost var before := dictionary;
      AddToDictionary(instruction[begin..next], i);
      NextSlotIn(format, dictionary, before, earlier, instruction, i, begin);
      return Some(next);
    }

    /** Adds the slots of one instruction; `ok` is false when BitVector throws. */
    method AddSlots(instruction: Bits) returns (ok: bool)
      requires Numbered()
      modifies this`dictionary, this`tables
      ensures Numbered() && Extends(dictionary, old(dictionary))
      ensures ok == (format.Readable(instruction) || format.widths == [])
      ensures format.Readable(instruction) ==> Encodable(format, dictionary, instruction)
      ensures ok ==> AddedOnly(format, dictionary, old(dictionary), [instruction])
    {
      var begin := format.first;
      for i := 0 to |format.widths|
        invariant begin == format.Begin(i) && Reaches(format, instruction, i)
        invariant Numbered() && FirstSlotsIn(format, dictionary, old(dictionary), instruction, i)
      {
        ghost var before := dictionary;
        var end := AddSlot(instruction, i, begin, old(dictionary));
        if end.None? {
          ExtendsFurther(dictionary, before, old(dictionary));
          return false;
        }
        begin := end.value;
      }
      AllSlotsAdded(format, dictionary, old(dictionary), instruction);
      return true;
    }

    /** Adds the instructions of one program. */
    method UpdateDictionary(program: seq<Bits>) returns (ok: bool)
      requires Numbered()
      modifies this`dictionary, this`tables
      ensures Numbered() && Extends(dictionary, old(dictionary))
      ensures ok == (AllReadable(format, program) || format.widths == [])
      ensures ok ==> Covers(format, dictionary, program) && AddedOnly(format, dictionary, old(dictionary), program)
    {
      for k := 0 to |program|
        invariant Numbered() && Extends(dictionary, old(dictionary))
        invariant AllReadable(format, program[..k]) || format.widths == []
        invariant Covers(format, dictionary, program[..k]) && AddedOnly(format, dictionary, old(dictionary), program[..k])
      {
        ghost var before := dictionary;
        ok := AddSlots(program[k]);
        if !ok {
          return;
        }
        ExtendsCovers(format, dictionary, before, program[..k]);
        AddedBySlots(format, dictionary, before, old(dictionary), program, k);
        assert program[..k + 1] == program[..k] + [program[k]];
      }
      assert program[..|program|] == program;
      return true;
    }

    method CreateDictionary() returns (ok: bool)
      requires !dictionaryCreated
      modifies this`dictionary, this`tables
      ensures ok == (format.widths == [] || forall p :: 0 <= p < |programs| ==> AllReadable(format, programs[p]))
      ensures ok ==> Numbered() && AllCovered(format, dictionary, programs, |programs|)
      ensures ok ==> OnlySlots(format, dictionary, programs)
    {
      dictionary := seq(|format.widths|, _ => map[]);
      tables := seq(|format.widths|, _ => []);
      for p := 0 to |programs|
        invariant Numbered() && OnlySlots(format, dictionary, programs)
        invariant format.widths == [] || forall q :: 0 <= q < p ==> AllReadable(format, programs[q])
        invariant AllCovered(format, dictionary, programs, p)
      {
        ghost var before := dictionary;
        ok := UpdateDictionary(programs[p]);
        if !ok {
          return;
        }
        OnlySlotsAdded(format, dictionary, before, programs, p);
        ProgramCovered(format, dictionary, before, programs, p);
      }
      return true;
    }

    method PackInstruction(instruction: Bits) returns (compressed: Bits)
      requires Encodable(format, dictionary, instruction)
      ensures compressed == Packed(format, dictionary, instruction, |format.widths|)
    {
      UptoGrows(format.widths, Itself, 0, |format.widths|);
      compressed := [];
      for i := 0 to format.first
        invariant compressed == instruction[..i]
      {
        compressed := compressed + [instruction[i]];
      }
      var begin := format.first;
      for i := 0 to |format.widths|
        invariant begin == format.Begin(i) && compressed == Packed(format, dictionary, instruction, i)
      {
        UptoGrows(format.widths, Itself, i + 1, |format.widths|);
        var end := begin + format.widths[i];
        var moveSlot := instruction[begin..end];
        assert moveSlot == format.Slot(instruction, i);
        compressed := compressed + ToBits(dictionary[i][moveSlot], RequiredBits(|dictionary[i]|));
        begin := end;
      }
    }

    /** The compressed words of a program, one for each instruction. */
    method AddInstructions(program: seq<Bits>) returns (words: Option<seq<Bits>>)
      requires Covers(format, dictionary, program)
      ensures words.Some? <==> AllReadable(format, program)
      ensures words.Some? ==> ArePacked(words.value, program)
    {
      var packed: seq<Bits> := [];
      for k := 0 to |program|
        invariant AllReadable(format, program[..k]) && ArePacked(packed, program[..k])
      {
        if !format.Readable(program[k]) {
          return None;
        }
        assert Encodable(format, dictionary, program[k]);
        var word := PackInstruction(program[k]);
        packed := packed + [word];
      }
      assert program[..|program|] == program;
      return Some(packed);
    }

    ghost predicate ArePacked(words: seq<Bits>, program: seq<Bits>)
      reads this
    {
      && |words| == |program|
      && forall k :: 0 <= k < |program| ==>
           && Encodable(format, dictionary, program[k])
           && words[k] == Packed(format, dictionary, program[k], |format.widths|)
    }

    /** The summed key widths and the leading fields. */
    method ImemWidth() returns (imemWidth: nat)
      ensures imemWidth == Offset(format, dictionary, |dictionary|)
    {
      imemWidth := 0;
      for i := 0 to |dictionary|
        invariant imemWidth + format.first == Offset(format, dictionary, i)
      {
        imemWidth := imemWidth + RequiredBits(|dictionary[i]|);
      }
      imemWidth := imemWidth + format.first;
    }

    /**
     Compresses a program. The dictionaries are built from all programs at the
     first call and never change after it.
     */
    method Compress(program: nat) returns (words: Option<seq<Bits>>)
      requires Valid()
      modifies this
      ensures old(dictionaryCreated) ==> dictionary == old(dictionary) && tables == old(tables)
      ensures Valid() && (words.Some? ==> dictionaryCreated && program < |programs|)
      ensures dictionaryCreated <==>
              || old(dictionaryCreated) || format.widths == []
              || forall p :: 0 <= p < |programs| ==> AllReadable(format, programs[p])
      ensures words.Some? <==>
              && program < |programs| && AllReadable(format, programs[program])
              && (old(dictionaryCreated) || format.widths == [] ||
                  forall p :: 0 <= p < |programs| ==> AllReadable(format, programs[p]))
      ensures words.Some? ==> ArePacked(words.value, programs[program])
      ensures dictionaryCreated ==> |dictionary| == |format.widths| && OnlySlots(format, dictionary, programs)
      ensures words.Some? ==> forall k :: 0 <= k < |words.value| ==> |words.value[k]| == compressedWidth
    {
      if !dictionaryCreated {
        var ok := CreateDictionary();
        if !ok {
          return None;
        }
        dictionaryCreated := true;
        compressedWidth := ImemWidth();
      }
      if program >= |programs| {
        return None;
      }
      words := AddInstructions(programs[program]);
      if words.Some? {
        forall k | 0 <= k < |words.value| ensures |words.value[k]| == compressedWidth {
          PackedWidth(format, dictionary, programs[program][k], |format.widths|);
        }
      }
    }

    /** Every word the compressor has ever returned for one of its programs
        decompresses to the instruction, up to the end of its last slot. */
    lemma ProgramComesBack(program: seq<Bits>, words: seq<Bits>, boundaries: seq<(nat, nat)>, padding: Bits, k: nat)
      requires Valid() && dictionaryCreated && ArePacked(words, program) && k < |program|
      requires AtOffsets(format, dictionary, boundaries)
      ensures format.Width() <= |program[k]|
      ensures Decompress(format, dictionary, boundaries, words[k] + padding, |format.widths|)
           == Some(program[k][..format.Width()])
    {
      DecompressesPacked(format, dictionary, tables, boundaries, program[k], padding, |format.widths|);
    }
  }
}
