/** Sums of sequences, elements taken out, powers of two and division. */
module Sequences {

  function Sum(xs: seq<nat>): nat
  {
    if xs == [] then 0 else Sum(xs[..|xs| - 1]) + xs[|xs| - 1]
  }

  /** The sizes of the first `n` elements together. */
  function Upto<T>(xs: seq<T>, size: T -> nat, n: nat): nat
    requires n <= |xs|
  {
    if n == 0 then 0 else Upto(xs, size, n - 1) + size(xs[n - 1])
  }

  lemma {:induction false} UptoGrows<T>(xs: seq<T>, size: T -> nat, m: nat, n: nat)
    requires m <= n <= |xs|
    ensures Upto(xs, size, m) <= Upto(xs, size, n)
  {
    if m < n {
      UptoGrows(xs, size, m, n - 1);
    }
  }

  function Itself(width: nat): nat { width }

  /** The sequence without its element `i`. */
  function Without<T>(s: seq<T>, i: nat): seq<T>
    requires i < |s|
  {
    s[..i] + s[i + 1..]
  }

  function Pow2(n: nat): (p: nat)
    ensures p > 0
  {
    if n == 0 then 1 else 2 * Pow2(n - 1)
  }

  lemma {:induction false} Pow2Monotone(m: nat, n: nat)
    requires m <= n
    ensures Pow2(m) <= Pow2(n)
  {
    if m < n {
      Pow2Monotone(m, n - 1);
    }
  }

  lemma DistributeLess(p: int, a: int, b: int)
    ensures p * (a - b) == p * a - p * b
  {
  }

  /** Quotient and remainder are the only ones. */
  lemma DivisionIsUnique(n: nat, p: nat, q: nat, r: nat)
    requires r < p && n == r + p * q
    ensures n / p == q && n % p == r
  {
    var quotient, remainder := n / p, n % p;
    assert n == p * quotient + remainder;
    DistributeLess(p, q, quotient);
    if q > quotient {
      AtLeastOnce(p, q - quotient);
    } else if q < quotient {
      AtLeastOnce(p, quotient - q);
      DistributeLess(p, quotient, q);
    }
  }

  lemma AtLeastOnce(p: nat, q: int)
    ensures q >= 1 ==> p * q >= p
    ensures q <= -1 ==> p * q <= -(p as int)
    ensures q == 0 ==> p * q == 0
  {
    if q >= 1 {
      assert p * (q - 1) >= 0;
    } else if q <= -1 {
      assert p * (q + 1) <= 0;
    }
  }

  /** Some elements of t, in their order. */
  ghost predicate Subsequence<T>(s: seq<T>, t: seq<T>)
    decreases |t|
  {
    if t == [] then s == []
    else Subsequence(s, t[..|t| - 1]) || (s != [] && s[|s| - 1] == t[|t| - 1] && Subsequence(s[..|s| - 1], t[..|t| - 1]))
  }

  lemma {:induction false} SubsequenceReflexive<T>(t: seq<T>)
    ensures Subsequence(t, t)
    decreases |t|
  {
    if t != [] {
      SubsequenceReflexive(t[..|t| - 1]);
    }
  }

  lemma {:induction false} SubsequenceWithout<T>(s: seq<T>, t: seq<T>, i: nat)
    requires Subsequence(s, t) && i < |s|
    ensures Subsequence(Without(s, i), t)
    decreases |t|
  {
    var front := t[..|t| - 1];
    if Subsequence(s, front) {
      SubsequenceWithout(s, front, i);
    } else if i == |s| - 1 {
      assert Without(s, i) == s[..|s| - 1];
    } else {
      SubsequenceWithout(s[..|s| - 1], front, i);
      assert Without(s, i)[..|s| - 2] == Without(s[..|s| - 1], i);
    }
  }
}
