/** The register values of tce_util_pkg.vhdl: extending and cutting bit sequences,
    and what that means for the numbers they stand for. */
module Words {

  import opened Sequences

  /** Bits of an instruction word or a register, lowest first. */
  type Word = seq<bool>

  /** tce_sxt and tce_ext: extends, or keeps the low bits. */
  function Resize(v: Word, length: nat, signed: bool): (r: Word)
    ensures |r| == length
  {
    if length <= |v| then v[..length]
    else v + seq(length - |v|, _ => signed && v != [] && v[|v| - 1])
  }

  // ------------------------------------------------------- bits as numbers

  function UnsignedValue(v: Word): nat
  {
    if v == [] then 0 else (if v[0] then 1 else 0) + 2 * UnsignedValue(v[1..])
  }

  /** The number in two's complement of `width` bits. */
  function TwosComplement(number: nat, width: nat): int
  {
    if width > 0 && number >= Pow2(width - 1) then number - Pow2(width) else number
  }

  function SignedValue(v: Word): int
  {
    TwosComplement(UnsignedValue(v), |v|)
  }

  /** The numbers that a field of `width` bits stands for. */
  predicate InRange(value: Word, width: nat, signed: bool)
    requires width > 0
  {
    if signed then -(Pow2(width - 1) as int) <= SignedValue(value) < Pow2(width - 1)
    else UnsignedValue(value) < Pow2(width)
  }

  lemma Distribute(a: int, p: int, b: int)
    ensures 2 * (a + p * b) == 2 * a + (2 * p) * b
  {
  }

  lemma {:induction false} Pow2OfSum(a: nat, b: nat)
    ensures Pow2(a + b) == Pow2(a) * Pow2(b)
  {
    if a > 0 {
      Pow2OfSum(a - 1, b);
      Distribute(0, Pow2(a - 1), Pow2(b));
    }
  }

  lemma {:induction false} UnsignedOfConcat(low: Word, high: Word)
    ensures UnsignedValue(low + high) == UnsignedValue(low) + Pow2(|low|) * UnsignedValue(high)
  {
    if low == [] {
      assert low + high == high;
    } else {
      UnsignedOfConcat(low[1..], high);
      assert (low + high)[1..] == low[1..] + high;
      Distribute(UnsignedValue(low[1..]), Pow2(|low| - 1), UnsignedValue(high));
    }
  }

  /** All bits are below two to the length, and the highest bit is the sign. */
  lemma {:induction false} UnsignedRange(v: Word)
    ensures UnsignedValue(v) < Pow2(|v|)
    ensures v != [] ==> (v[|v| - 1] <==> UnsignedValue(v) >= Pow2(|v| - 1))
  {
    if v != [] {
      UnsignedRange(v[1..]);
    }
  }

  lemma SignedByTop(v: Word)
    requires v != []
    ensures SignedValue(v) == UnsignedValue(v) - if v[|v| - 1] then Pow2(|v|) else 0
  {
    UnsignedRange(v);
  }

  lemma SignedOfConcat(low: Word, high: Word)
    requires high != []
    ensures SignedValue(low + high) == UnsignedValue(low) + Pow2(|low|) * SignedValue(high)
  {
    var top := if high[|high| - 1] then Pow2(|high|) else 0;
    UnsignedOfConcat(low, high);
    SignedByTop(high);
    TopOfConcat(low, high);
    Regroup(UnsignedValue(low), Pow2(|low|), UnsignedValue(high), top, SignedValue(high));
  }

  lemma Regroup(low: int, p: int, high: int, top: int, signed: int)
    requires signed == high - top
    ensures low + p * high - p * top == low + p * signed
  {
    DistributeLess(p, high, top);
  }

  lemma TopOfConcat(low: Word, high: Word)
    requires high != []
    ensures SignedValue(low + high) == UnsignedValue(low + high) - Pow2(|low|) * if high[|high| - 1] then Pow2(|high|) else 0
  {
    SignedByTop(low + high);
    Pow2OfSum(|low|, |high|);
    assert (low + high)[|low + high| - 1] == high[|high| - 1];
  }

  lemma {:induction false} AllFalse(v: Word)
    ensures UnsignedValue(v) == 0 <==> forall b :: 0 <= b < |v| ==> !v[b]
  {
    if v != [] {
      AllFalse(v[1..]);
      assert v == [v[0]] + v[1..];
    }
  }

  lemma {:induction false} AllTrue(v: Word)
    ensures UnsignedValue(v) == Pow2(|v|) - 1 <==> forall b :: 0 <= b < |v| ==> v[b]
  {
    if v != [] {
      AllTrue(v[1..]);
      UnsignedRange(v[1..]);
      assert v == [v[0]] + v[1..];
    }
  }

  /** Sign bits above a non-empty word are worth 0 or -1. */
  lemma SignBits(high: Word, sign: bool)
    requires high != []
    ensures SignedValue(high) == (if sign then -1 else 0) <==> forall b :: 0 <= b < |high| ==> high[b] == sign
  {
    SignedByTop(high);
    UnsignedRange(high);
    AllFalse(high);
    AllTrue(high);
  }

  // ------------------------------------------------- what resizing keeps

  /** Zero extension keeps the unsigned value. */
  lemma ZeroExtends(v: Word, length: nat)
    requires |v| <= length
    ensures UnsignedValue(Resize(v, length, false)) == UnsignedValue(v)
  {
    var high: Word := seq(length - |v|, _ => false);
    assert Resize(v, length, false) == v + high;
    UnsignedOfConcat(v, high);
    AllFalse(high);
    AtLeastOnce(Pow2(|v|), UnsignedValue(high));
  }

  /** Sign extension keeps the two's complement value. */
  lemma SignExtends(v: Word, length: nat)
    requires v != [] && |v| <= length
    ensures SignedValue(Resize(v, length, true)) == SignedValue(v)
  {
    var sign := v[|v| - 1];
    var high: Word := seq(length - |v|, _ => sign);
    assert Resize(v, length, true) == v + high;
    if high == [] {
      assert v + high == v;
    } else {
      SignBits(high, sign);
      SignedOfConcat(v, high);
      SignedByTop(v);
    }
  }

  /** Cutting keeps the value modulo two to the length. */
  lemma CutsValue(v: Word, length: nat, signed: bool)
    requires length <= |v|
    ensures UnsignedValue(Resize(v, length, signed)) == UnsignedValue(v) % Pow2(length)
  {
    var low, high := v[..length], v[length..];
    assert v == low + high;
    UnsignedOfConcat(low, high);
    UnsignedRange(low);
    DivisionIsUnique(UnsignedValue(v), Pow2(length), UnsignedValue(high), UnsignedValue(low));
  }

  // ---------------------------------------------------- representable values

  /** The register value can be had from a field of `width` bits. */
  predicate Representable(value: Word, width: nat, signed: bool)
  {
    0 < width <= |value| && value == Resize(value[..width], |value|, signed)
  }

  /** Extending the low bits gives the value iff all high bits are the extension. */
  lemma ExtendsWith(low: Word, high: Word, signed: bool)
    requires low != []
    ensures low + high == Resize(low, |low + high|, signed) <==>
            forall b :: 0 <= b < |high| ==> high[b] == (signed && low[|low| - 1])
  {
    var extension: Word := seq(|high|, _ => signed && low[|low| - 1]);
    assert Resize(low, |low + high|, signed) == low + extension;
    assert (low + high)[|low|..] == high && (low + extension)[|low|..] == extension;
    assert high == extension <==> forall b :: 0 <= b < |high| ==> high[b] == (signed && low[|low| - 1]);
  }

  /** Representable values are those in the signed or unsigned range of the width. */
  lemma RepresentableMeans(value: Word, width: nat, signed: bool)
    requires 0 < width <= |value|
    ensures Representable(value, width, signed) <==> InRange(value, width, signed)
  {
    var low, high := value[..width], value[width..];
    assert value == low + high;
    ExtendsWith(low, high, signed);
    if signed {
      SignedInRange(low, high);
    } else {
      UnsignedInRange(low, high);
    }
  }

  lemma UnsignedInRange(low: Word, high: Word)
    ensures (forall b :: 0 <= b < |high| ==> !high[b]) <==> UnsignedValue(low + high) < Pow2(|low|)
  {
    UnsignedOfConcat(low, high);
    UnsignedRange(low);
    AllFalse(high);
    AtLeastOnce(Pow2(|low|), UnsignedValue(high));
  }

  lemma SignedInRange(low: Word, high: Word)
    requires low != []
    ensures (forall b :: 0 <= b < |high| ==> high[b] == low[|low| - 1]) <==>
            -(Pow2(|low| - 1) as int) <= SignedValue(low + high) < Pow2(|low| - 1)
  {
    UnsignedRange(low);
    if high == [] {
      assert low + high == low;
    } else {
      SignedOfConcat(low, high);
      SignBits(high, low[|low| - 1]);
      SignedPlaces(UnsignedValue(low), Pow2(|low| - 1), SignedValue(high));
    }
  }

  /** With the low part below 2p, only 0 or -1 above it keeps the sum within -p..p. */
  lemma SignedPlaces(low: nat, p: nat, high: int)
    requires low < 2 * p
    ensures -(p as int) <= low + (2 * p) * high < p <==> high == if low >= p then -1 else 0
  {
    AtLeastOnce(2 * p, high);
    AtLeastOnce(2 * p, high + 1);
    DistributeLess(2 * p, high + 1, 1);
  }
}
