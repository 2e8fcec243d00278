/**
 The whole-instruction compressor: one dictionary of instructions over all
 programs, a code of fixed width for each, and the generated decompressor.
 */
module InstructionCompression {
  import opened BitVectors
  import opened Sequences

  /** The memory word: the code in its top bits, zeros behind it. */
  function Word(d: Dictionary, instruction: Bits, imemWidth: nat): Bits
    requires instruction in d && RequiredBits(|d| - 1) <= imemWidth
  {
    ToBits(d[instruction], RequiredBits(|d| - 1)) + seq(imemWidth - RequiredBits(|d| - 1), _ => false)
  }

  /** The generated decompressor indexes the emitted table with the top bits. */
  ghost function Decompress(d: Dictionary, word: Bits): Option<Bits>
    requires |d| > 0
  {
    if |word| < RequiredBits(|d| - 1) then None
    else KeyForValue(d, ToNat(word[..RequiredBits(|d| - 1)]))
  }

  /** Reading a word back gives the instruction, for every dictionary size. */
  lemma WordComesBack(d: Dictionary, table: seq<Bits>, instruction: Bits, imemWidth: nat)
    requires Numbers(d, table) && instruction in d && imemWidth == RequiredBits(|d|)
    ensures RequiredBits(|d| - 1) <= imemWidth && |Word(d, instruction, imemWidth)| == imemWidth
    ensures Decompress(d, Word(d, instruction, imemWidth)) == Some(instruction)
  {
    assert table[d[instruction]] == instruction;
    RequiredBitsMonotone(|d| - 1, |d|);
    var code := ToBits(d[instruction], RequiredBits(|d| - 1));
    assert Word(d, instruction, imemWidth)[..RequiredBits(|d| - 1)] == code;
    CodeFits(d, table, instruction, RequiredBits(|d| - 1));
    KeyForCode(d, table, instruction);
  }

  /** The words in bits: a memory word is as wide as the number of entries needs,
      its first bits are the code in as many bits as the largest code needs, and
      the others are zero. */
  lemma WordMeans(d: Dictionary, table: seq<Bits>, instruction: Bits, imemWidth: nat, codeWidth: nat, k: nat)
    requires Numbers(d, table) && instruction in d && imemWidth == RequiredBits(|d|)
    requires LeastWidth(codeWidth, |d| - 1) && k < imemWidth
    ensures RequiredBits(|d| - 1) <= imemWidth
    ensures LeastWidth(imemWidth, |d|) && codeWidth <= imemWidth == |Word(d, instruction, imemWidth)|
    ensures Word(d, instruction, imemWidth)[k] <==>
              k < codeWidth && (d[instruction] / Pow2(codeWidth - 1 - k)) % 2 == 1
  {
    assert table[d[instruction]] == instruction;
    RequiredBitsMonotone(|d| - 1, |d|);
    RequiredBitsLeast(|d|);
    RequiredBitsLeast(|d| - 1);
    LeastWidthIsOne(codeWidth, RequiredBits(|d| - 1), |d| - 1);
    if k < codeWidth {
      BitOfNumber(d[instruction], codeWidth, k);
    }
  }

  ghost predicate Covers(d: Dictionary, program: seq<Bits>)
  {
    forall k :: 0 <= k < |program| ==> program[k] in d
  }

  /** The new entries are the instructions of the program. */
  ghost predicate AddedOnly(later: Dictionary, earlier: Dictionary, program: seq<Bits>)
  {
    forall key :: key in later ==> key in earlier || key in program
  }

  ghost predicate OccursIn(programs: seq<seq<Bits>>, key: Bits)
  {
    exists p :: 0 <= p < |programs| && key in programs[p]
  }

  ghost predicate AddedFrom(later: Dictionary, earlier: Dictionary, programs: seq<seq<Bits>>)
  {
    forall key :: key in later ==> key in earlier || OccursIn(programs, key)
  }

  lemma ProgramAdded(later: Dictionary, before: Dictionary, earlier: Dictionary, programs: seq<seq<Bits>>, p: nat)
    requires p < |programs| && AddedFrom(before, earlier, programs) && AddedOnly(later, before, programs[p])
    ensures AddedFrom(later, earlier, programs)
  {
  }

  lemma ProgramsCovered(later: Dictionary, before: Dictionary, earlier: Dictionary, programs: seq<seq<Bits>>, p: nat)
    requires p < |programs| && Extends(later, before) && Extends(before, earlier) && Covers(later, programs[p])
    requires AllCovered(before, programs, p)
    ensures Extends(later, earlier) && AllCovered(later, programs, p + 1)
  {
  }

  ghost predicate AllCovered(d: Dictionary, programs: seq<seq<Bits>>, n: nat)
    requires n <= |programs|
  {
    forall p :: 0 <= p < n ==> Covers(d, programs[p])
  }

  ghost predicate Extends(later: Dictionary, earlier: Dictionary)
  {
    forall key :: key in earlier ==> key in later && later[key] == earlier[key]
  }

  class InstructionDictionary {
    const programs: seq<seq<Bits>>
    /** The instructions that keep the processor programmable, when asked for. */
    const compatibility: Option<seq<Bits>>
    var dictionary: Dictionary
    var compatibilityProgDone: bool
    var dictionaryCreated: bool
    var imemWidth: nat
    /** The entries in the order of their codes. */
    ghost var table: seq<Bits>

    ghost predicate Valid()
      reads this
    {
      && Numbers(dictionary, table)
      && (dictionaryCreated ==> imemWidth == RequiredBits(|dictionary|))
      && (dictionaryCreated ==> AllCovered(dictionary, programs, |programs|))
      && (dictionaryCreated && compatibility.Some? ==> Covers(dictionary, compatibility.value))
      && (dictionaryCreated && compatibility.Some? ==> compatibilityProgDone)
      && (dictionaryCreated ==> forall key :: key in dictionary ==> Needed(key))
      && (!dictionaryCreated ==> dictionary == map[] && !compatibilityProgDone)
    }

    /** An instruction of a program, or one that keeps the processor programmable. */
    ghost predicate Needed(key: Bits)
    {
      OccursIn(programs, key) || (compatibility.Some? && key in compatibility.value)
    }

    constructor (programs: seq<seq<Bits>>, compatibility: Option<seq<Bits>>)
      ensures Valid() && !dictionaryCreated && this.programs == programs && this.compatibility == compatibility
    {
      this.programs, this.compatibility := programs, compatibility;
      dictionary, table, imemWidth := map[], [], 0;
      compatibilityProgDone, dictionaryCreated := false, false;
    }

    method AddToDictionary(instruction: Bits)
      requires Numbers(dictionary, table)
      modifies this`dictionary, this`table
      ensures Numbers(dictionary, table) && Extends(dictionary, old(dictionary))
      ensures dictionary == Add(old(dictionary), instruction) && instruction in dictionary
      ensures AddedOnly(dictionary, old(dictionary), [instruction])
    {
      AddNumbers(dictionary, table, instruction);
      table := AddToTable(table, instruction);
      if instruction !in dictionary {
        dictionary := dictionary[instruction := |dictionary|];
      }
    }

    method UpdateDictionary(program: seq<Bits>)
      requires Numbers(dictionary, table)
      modifies this`dictionary, this`table
      ensures Numbers(dictionary, table) && Extends(dictionary, old(dictionary)) && Covers(dictionary, program)
      ensures AddedOnly(dictionary, old(dictionary), program)
    {
      for k := 0 to |program|
        invariant Numbers(dictionary, table) && Extends(dictionary, old(dictionary))
        invariant Covers(dictionary, program[..k]) && AddedOnly(dictionary, old(dictionary), program[..k])
      {
        AddToDictionary(program[k]);
        assert program[..k + 1] == program[..k] + [program[k]];
      }
      assert program[..|program|] == program;
    }

    method CreateDictionary()
      requires Numbers(dictionary, table)
      modifies this`dictionary, this`table
      ensures Numbers(dictionary, table) && Extends(dictionary, old(dictionary))
      ensures AllCovered(dictionary, programs, |programs|) && AddedFrom(dictionary, old(dictionary), programs)
    {
      for p := 0 to |programs|
        invariant Numbers(dictionary, table) && Extends(dictionary, old(dictionary))
        invariant AllCovered(dictionary, programs, p) && AddedFrom(dictionary, old(dictionary), programs)
      {
        ghost var before := dictionary;
        UpdateDictionary(programs[p]);
        ProgramAdded(dictionary, before, old(dictionary), programs, p);
        ProgramsCovered(dictionary, before, old(dictionary), programs, p);
      }
    }

    /**
     Compresses a program; an unknown one is refused. The dictionary is complete
     after the first call and its codes never change.
     */
    method Compress(program: nat) returns (words: Option<seq<Bits>>)
      requires Valid()
      modifies this
      ensures Valid() && dictionaryCreated && Extends(dictionary, old(dictionary))
      ensures old(dictionaryCreated) ==> dictionary == old(dictionary)
      ensures words.Some? <==> program < |programs|
      ensures words.Some? ==> AreWords(words.value, programs[program])
      ensures forall key :: key in dictionary <==> Needed(key)
    {
      if compatibility.Some? && !compatibilityProgDone {
        UpdateDictionary(compatibility.value);
        compatibilityProgDone := true;
      }
      if !dictionaryCreated {
        CreateDictionary();
        dictionaryCreated := true;
        imemWidth := RequiredBits(|dictionary|);
      }
      if program >= |programs| {
        return None;
      }
      var added := AddInstructions(programs[program]);
      return Some(added);
    }

    method AddInstructions(program: seq<Bits>) returns (words: seq<Bits>)
      requires Valid() && dictionaryCreated && Covers(dictionary, program)
      ensures AreWords(words, program)
    {
      words := [];
      for k := 0 to |program|
        invariant AreWords(words, program[..k])
      {
        assert table[dictionary[program[k]]] == program[k];
        RequiredBitsMonotone(|dictionary| - 1, |dictionary|);
        var code := ToBits(dictionary[program[k]], RequiredBits(|dictionary| - 1));
        words := words + [code + seq(imemWidth - |code|, _ => false)];
      }
      assert program[..|program|] == program;
    }

    ghost predicate AreWords(words: seq<Bits>, program: seq<Bits>)
      reads this
    {
      && |words| == |program|
      && forall k :: 0 <= k < |program| ==>
           && program[k] in dictionary && RequiredBits(|dictionary| - 1) <= imemWidth
           && words[k] == Word(dictionary, program[k], imemWidth)
    }

    /** Every word the compressor has returned for one of its programs
        decompresses to its instruction. */
    lemma ProgramComesBack(program: seq<Bits>, words: seq<Bits>, k: nat)
      requires Valid() && dictionaryCreated && AreWords(words, program) && k < |program|
      ensures Decompress(dictionary, words[k]) == Some(program[k])
    {
      WordComesBack(dictionary, table, program[k], imemWidth);
    }
  }
}
