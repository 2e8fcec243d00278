/** Bit vectors as the program image holds them, most significant bit first, and
    the number of bits of a number (BitVector.cc, MathTools.icc). */
module BitVectors {

  import opened Sequences

  type Bits = seq<bool>

  datatype Option<+T> = None | Some(value: T)

  function BitLength(n: nat): nat { if n == 0 then 0 else 1 + BitLength(n / 2) }

  /** One bit for 0. */
  function RequiredBits(n: nat): nat { if n == 0 then 1 else BitLength(n) }

  /** BitVector::pushBack(n, width): the low `width` bits of the number. */
  function ToBits(n: nat, width: nat): (b: Bits)
    ensures |b| == width
  {
    if width == 0 then [] else ToBits(n / 2, width - 1) + [n % 2 == 1]
  }

  /** conv_integer(unsigned(b)). */
  function ToNat(b: Bits): nat
  {
    if b == [] then 0 else 2 * ToNat(b[..|b| - 1]) + if b[|b| - 1] then 1 else 0
  }

  /** A number that fits its field is read back. */
  lemma {:induction false} ToBitsRoundTrip(n: nat, width: nat)
    requires BitLength(n) <= width
    ensures ToNat(ToBits(n, width)) == n
  {
    if width > 0 {
      ToBitsRoundTrip(n / 2, width - 1);
      assert ToBits(n, width)[..width - 1] == ToBits(n / 2, width - 1);
    }
  }

  lemma {:induction false} BitLengthMonotone(m: nat, n: nat)
    requires m <= n
    ensures BitLength(m) <= BitLength(n)
  {
    if m > 0 {
      BitLengthMonotone(m / 2, n / 2);
    }
  }

  lemma RequiredBitsMonotone(m: nat, n: nat)
    requires m <= n
    ensures BitLength(m) <= RequiredBits(m) <= RequiredBits(n)
  {
    BitLengthMonotone(m, n);
  }

  /** The fewest bits, and at least one, that the number fits. */
  ghost predicate LeastWidth(width: nat, n: nat)
  {
    width >= 1 && n < Pow2(width) && (width > 1 ==> Pow2(width - 1) <= n)
  }

  lemma {:induction false} BitLengthBounds(n: nat)
    ensures n < Pow2(BitLength(n)) && (n > 0 ==> Pow2(BitLength(n) - 1) <= n)
  {
    if n > 0 {
      BitLengthBounds(n / 2);
    }
  }

  lemma RequiredBitsLeast(n: nat)
    ensures LeastWidth(RequiredBits(n), n)
  {
    BitLengthBounds(n);
  }

  lemma LeastWidthIsOne(v: nat, w: nat, n: nat)
    requires LeastWidth(v, n) && LeastWidth(w, n)
    ensures v == w
  {
    Pow2Monotone(v, if w > v then w - 1 else v);
    Pow2Monotone(w, if v > w then v - 1 else w);
  }

  /** Bit k, counted from the left, has the weight of the bits behind it. */
  lemma {:induction false} BitOfNumber(n: nat, width: nat, k: nat)
    requires k < width
    ensures ToBits(n, width)[k] <==> (n / Pow2(width - 1 - k)) % 2 == 1
  {
    if k < width - 1 {
      BitOfNumber(n / 2, width - 1, k);
      DivideTwice(n, Pow2(width - 2 - k));
    }
  }

  lemma DivideTwice(n: nat, p: nat)
    requires p > 0
    ensures n / 2 / p == n / (2 * p)
  {
    var q, r := n / 2 / p, n / 2 % p;
    assert n / 2 == p * q + r;
    assert n == 2 * (p * q + r) + n % 2;
    assert n == (2 * p) * q + (2 * r + n % 2);
    DivisionIsUnique(n, 2 * p, q, 2 * r + n % 2);
  }

  // --------------------------------------------------------- dictionaries

  /** std::map<BitVector, unsigned int>: the code of every entry. */
  type Dictionary = map<Bits, nat>

  /** The codes number the entries of a table, in order and without repetition:
      a bijection between the entries and 0..size-1. */
  ghost predicate Numbers(d: Dictionary, table: seq<Bits>)
  {
    && |d| == |table|
    && (forall j :: 0 <= j < |table| ==> table[j] in d && d[table[j]] == j)
    && (forall key :: key in d ==> d[key] < |table| && table[d[key]] == key)
  }

  /** addToDictionary: a new entry gets the next code. */
  function Add(d: Dictionary, key: Bits): Dictionary
  {
    if key in d then d else d[key := |d|]
  }

  function AddToTable(table: seq<Bits>, key: Bits): seq<Bits>
  {
    if key in table then table else table + [key]
  }

  lemma AddNumbers(d: Dictionary, table: seq<Bits>, key: Bits)
    requires Numbers(d, table)
    ensures Numbers(Add(d, key), AddToTable(table, key))
    ensures key in Add(d, key) && forall k :: k in d ==> k in Add(d, key) && Add(d, key)[k] == d[k]
  {
    if key in d {
      assert table[d[key]] == key;
    } else {
      assert key !in table;
      assert Add(d, key).Keys == d.Keys + {key};
    }
  }

  /** MapTools::keyForValue, which the decompressor's table is written with. */
  ghost function KeyForValue(d: Dictionary, code: nat): Option<Bits>
  {
    if key :| key in d && d[key] == code then Some(key) else None
  }

  lemma KeyForCode(d: Dictionary, table: seq<Bits>, key: Bits)
    requires Numbers(d, table) && key in d
    ensures KeyForValue(d, d[key]) == Some(key)
  {
  }

  /** A code fits the field that the largest code needs. */
  lemma CodeFits(d: Dictionary, table: seq<Bits>, key: Bits, width: nat)
    requires Numbers(d, table) && key in d && width >= RequiredBits(|d| - 1)
    ensures ToNat(ToBits(d[key], width)) == d[key]
  {
    RequiredBitsMonotone(d[key], |d| - 1);
    ToBitsRoundTrip(d[key], width);
  }
}
