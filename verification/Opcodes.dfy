/**
 Opcodes of function unit operations in the generated decoder
 (DefaultDecoderGenerator): alphabetical numbering, the opcode width, and the
 shortcut that forwards the raw instruction field.
 */
module Opcodes {
  import opened Sequences

  /** std::string's order. */
  predicate Less(a: string, b: string)
  {
    b != [] && (a == [] || a[0] < b[0] || (a[0] == b[0] && Less(a[1..], b[1..])))
  }

  /** The strings agree up to position k, and there the first has the smaller character. */
  ghost predicate SmallerAt(a: string, b: string, k: nat)
  {
    k < |a| && k < |b| && a[..k] == b[..k] && a[k] < b[k]
  }

  ghost predicate ProperPrefix(a: string, b: string)
  {
    |a| < |b| && b[..|a|] == a
  }

  /** The order of dictionaries: a proper prefix comes first, and otherwise the
      string with the smaller character at the first difference. */
  lemma {:induction false} LessMeans(a: string, b: string)
    ensures Less(a, b) <==> ProperPrefix(a, b) || exists k: nat :: SmallerAt(a, b, k)
  {
    if a != [] && b != [] {
      if a[0] == b[0] {
        LessMeans(a[1..], b[1..]);
        SameBehind(a, b);
      } else {
        assert a[0] < b[0] ==> SmallerAt(a, b, 0);
        assert |a| < |b| ==> b[..|a|][0] == b[0];
        forall k: nat | SmallerAt(a, b, k) ensures a[0] < b[0] {
          assert k > 0 ==> a[..k][0] == b[..k][0];
        }
      }
    }
  }

  lemma SameBehind(a: string, b: string)
    requires a != [] && b != [] && a[0] == b[0]
    ensures ProperPrefix(a, b) <==> ProperPrefix(a[1..], b[1..])
    ensures (exists k: nat :: SmallerAt(a, b, k)) <==> exists k: nat :: SmallerAt(a[1..], b[1..], k)
  {
    assert a == [a[0]] + a[1..] && b == [b[0]] + b[1..];
    if |a| < |b| {
      assert b[..|a|] == [b[0]] + b[1..][..|a[1..]|];
    }
    forall k: nat | SmallerAt(a, b, k) ensures k > 0 && SmallerAt(a[1..], b[1..], k - 1) {
      assert a[1..][..k - 1] == a[..k][1..] && b[1..][..k - 1] == b[..k][1..];
    }
    forall k: nat | SmallerAt(a[1..], b[1..], k) ensures SmallerAt(a, b, k + 1) {
      assert a[..k + 1] == [a[0]] + a[1..][..k] && b[..k + 1] == [b[0]] + b[1..][..k];
    }
  }

  lemma {:induction false} LessIsStrict(a: string)
    ensures !Less(a, a)
  {
    if a != [] {
      LessIsStrict(a[1..]);
    }
  }

  lemma {:induction false} LessIsTotal(a: string, b: string)
    ensures a == b || Less(a, b) || Less(b, a)
  {
    if a != [] && b != [] && a[0] == b[0] {
      LessIsTotal(a[1..], b[1..]);
      assert a == [a[0]] + a[1..] && b == [b[0]] + b[1..];
    }
  }

  lemma {:induction false} LessIsTransitive(a: string, b: string, c: string)
    requires Less(a, b) && Less(b, c)
    ensures Less(a, c)
  {
    if a != [] && a[0] == b[0] == c[0] {
      LessIsTransitive(a[1..], b[1..], c[1..]);
    }
  }

  predicate Ascending(names: seq<string>)
  {
    forall i, j :: 0 <= i < j < |names| ==> Less(names[i], names[j])
  }

  predicate Distinct(names: seq<string>)
  {
    forall i, j :: 0 <= i < j < |names| ==> names[i] != names[j]
  }

  function Members(names: seq<string>): set<string> { set n | n in names }

  function Insert(names: seq<string>, name: string): seq<string>
  {
    if names == [] || Less(name, names[0]) then [name] + names else [names[0]] + Insert(names[1..], name)
  }

  /** std::sort of the operation names. */
  function Sort(names: seq<string>): seq<string>
  {
    if names == [] then [] else Insert(Sort(names[1..]), names[0])
  }

  lemma {:induction false} InsertSorts(names: seq<string>, name: string)
    requires Ascending(names) && name !in names
    ensures Ascending(Insert(names, name)) && |Insert(names, name)| == |names| + 1
    ensures forall x :: x in Insert(names, name) <==> x == name || x in names
  {
    if names != [] {
      assert names == [names[0]] + names[1..];
      if Less(name, names[0]) {
        forall j | 0 <= j < |names| ensures Less(name, names[j]) {
          if j > 0 {
            LessIsTransitive(name, names[0], names[j]);
          }
        }
      } else {
        LessIsTotal(name, names[0]);
        InsertSorts(names[1..], name);
        var r := Insert(names[1..], name);
        forall j | 0 <= j < |r| ensures Less(names[0], r[j]) {
          assert r[j] in r;
          if r[j] != name {
            var k :| 0 <= k < |names[1..]| && names[1..][k] == r[j];
            assert names[k + 1] == r[j];
          }
        }
      }
    }
  }

  lemma {:induction false} SortSorts(names: seq<string>)
    requires Distinct(names)
    ensures Ascending(Sort(names)) && |Sort(names)| == |names| && Members(Sort(names)) == Members(names)
  {
    if names != [] {
      SortSorts(names[1..]);
      assert forall x :: x in Sort(names[1..]) <==> x in Members(Sort(names[1..]));
      assert forall x :: x in names[1..] <==> x in Members(names[1..]);
      assert names[0] !in names[1..];
      InsertSorts(Sort(names[1..]), names[0]);
      assert names == [names[0]] + names[1..];
    }
  }

  /** The number of names that come before this one: it does not depend on the
      order of declaration. */
  ghost function Rank(names: set<string>, name: string): nat
  {
    |set n | n in names && Less(n, name)|
  }

  lemma {:induction false} PrefixSize(names: seq<string>, n: nat)
    requires Ascending(names) && n <= |names|
    ensures |Members(names[..n])| == n
  {
    if n > 0 {
      PrefixSize(names, n - 1);
      assert names[..n] == names[..n - 1] + [names[n - 1]];
      LessIsStrict(names[n - 1]);
      assert names[n - 1] !in names[..n - 1];
      assert Members(names[..n]) == Members(names[..n - 1]) + {names[n - 1]};
    }
  }

  lemma RankIsPosition(names: seq<string>, i: nat)
    requires Ascending(names) && i < |names|
    ensures Rank(Members(names), names[i]) == i
  {
    var before := set n | n in Members(names) && Less(n, names[i]);
    forall n | n in before ensures n in names[..i] {
      var k :| 0 <= k < |names| && names[k] == n;
      LessIsStrict(n);
      if k > i {
        LessIsTransitive(names[i], n, names[i]);
        LessIsStrict(names[i]);
      }
      assert n == names[..i][k];
    }
    assert before == Members(names[..i]);
    PrefixSize(names, i);
  }

  /** The opcode of an operation of the unit. */
  method Opcode(operations: seq<string>, name: string) returns (opcode: nat)
    requires Distinct(operations) && name in operations
    ensures opcode == Rank(Members(operations), name)
  {
    var sorted := Sort(operations);
    SortSorts(operations);
    assert name in Members(sorted);
    opcode := 0;
    while sorted[opcode] != name
      invariant opcode < |sorted| && name in sorted && forall k :: 0 <= k < opcode ==> sorted[k] != name
      decreases |sorted| - opcode
    {
      opcode := opcode + 1;
    }
    RankIsPosition(sorted, opcode);
  }

  /** Some operation has this opcode. */
  ghost predicate IsOpcode(operations: seq<string>, code: nat)
  {
    exists name :: name in operations && Rank(Members(operations), name) == code
  }

  /** Opcodes are a bijection between the operation names and 0..n-1. */
  lemma OpcodesAreABijection(operations: seq<string>)
    requires Distinct(operations)
    ensures forall name :: name in operations ==> Rank(Members(operations), name) < |operations|
    ensures forall a, b :: a in operations && b in operations && a != b ==>
              Rank(Members(operations), a) != Rank(Members(operations), b)
    ensures forall code: nat :: code < |operations| ==> IsOpcode(operations, code)
  {
    var sorted := Sort(operations);
    SortSorts(operations);
    assert forall x :: x in operations <==> x in Members(operations);
    forall name | name in operations
      ensures exists i :: 0 <= i < |sorted| && sorted[i] == name && Rank(Members(operations), name) == i
    {
      assert name in Members(sorted);
      var i :| 0 <= i < |sorted| && sorted[i] == name;
      RankIsPosition(sorted, i);
    }
    forall code: nat | code < |operations| ensures IsOpcode(operations, code) {
      RankIsPosition(sorted, code);
      assert sorted[code] in Members(sorted);
    }
  }

  /** ceil(log2(n)) */
  function CeilLog2(n: nat): (w: nat)
    requires n > 0
    ensures n <= Pow2(w) && (w > 0 ==> Pow2(w - 1) < n)
  {
    if n == 1 then 0 else 1 + CeilLog2((n + 1) / 2)
  }

  function OpcodeWidth(operations: seq<string>): nat
  {
    if |operations| > 1 then CeilLog2(|operations|) else 0
  }

  /** Every opcode fits the opcode port, and no narrower port would do. */
  lemma OpcodeFits(operations: seq<string>, name: string)
    requires Distinct(operations) && name in operations
    ensures Rank(Members(operations), name) < Pow2(OpcodeWidth(operations))
    ensures forall w: nat :: (forall n :: n in operations ==> Rank(Members(operations), n) < Pow2(w)) ==> w >= OpcodeWidth(operations)
  {
    OpcodesAreABijection(operations);
    forall w: nat | forall n :: n in operations ==> Rank(Members(operations), n) < Pow2(w)
      ensures w >= OpcodeWidth(operations)
    {
      if |operations| > 1 && w < OpcodeWidth(operations) {
        var last: nat := |operations| - 1;
        assert IsOpcode(operations, last);
        Pow2Monotone(w, OpcodeWidth(operations) - 1);
        assert false;
      }
    }
  }

  // ------------------------------------------------------ forwarding the field

  /** What the decoder drives: the load signal and, when loading, the opcode. */
  datatype Drive = Hold | Load(opcode: nat)

  /** The emitted chain: the first operation whose code is in the field. */
  function Chain(encodings: seq<nat>, opcodes: seq<nat>, field: nat): Drive
    requires |encodings| == |opcodes|
  {
    if encodings == [] then Hold
    else if field == encodings[0] then Load(opcodes[0])
    else Chain(encodings[1..], opcodes[1..], field)
  }

  /** The `ordered` check: every code is its operation's opcode. */
  method IsOrdered(encodings: seq<nat>, opcodes: seq<nat>) returns (ordered: bool)
    requires |encodings| == |opcodes|
    ensures ordered <==> encodings == opcodes
  {
    ordered := true;
    for i := 0 to |encodings|
      invariant ordered && encodings[..i] == opcodes[..i]
    {
      if encodings[i] != opcodes[i] {
        return false;
      }
    }
    assert encodings == encodings[..|encodings|] && opcodes == opcodes[..|opcodes|];
  }

  /** Forwarding the field does what the chain does exactly for the codes of the
      unit's operations; any other field loads instead of holding. */
  lemma {:induction false} ForwardingIsTheChain(encodings: seq<nat>, opcodes: seq<nat>, field: nat)
    requires encodings == opcodes
    ensures Chain(encodings, opcodes, field) == Load(field) <==> field in encodings
    ensures Chain(encodings, opcodes, field) == Hold <==> field !in encodings
  {
    if encodings != [] {
      ForwardingIsTheChain(encodings[1..], opcodes[1..], field);
      assert encodings == [encodings[0]] + encodings[1..];
    }
  }

  /** Without the check the forwarded field can be a wrong opcode. */
  lemma UnorderedNeedsTheChain(encodings: seq<nat>, opcodes: seq<nat>)
    requires |encodings| == |opcodes| && encodings != opcodes
    requires forall i, j :: 0 <= i < j < |encodings| ==> encodings[i] != encodings[j]
    ensures exists field :: field in encodings && Chain(encodings, opcodes, field) != Load(field)
  {
    var i :| 0 <= i < |encodings| && encodings[i] != opcodes[i];
    ChainFinds(encodings, opcodes, i);
  }

  lemma {:induction false} ChainFinds(encodings: seq<nat>, opcodes: seq<nat>, i: nat)
    requires |encodings| == |opcodes| && i < |encodings|
    requires forall i, j :: 0 <= i < j < |encodings| ==> encodings[i] != encodings[j]
    ensures Chain(encodings, opcodes, encodings[i]) == Load(opcodes[i])
  {
    if i > 0 {
      ChainFinds(encodings[1..], opcodes[1..], i - 1);
    }
  }
}
