/** The search of the merging plugins for the pair with the smallest correlation. */
module PairSelection {
  import opened BitVectors

  /** The largest correlation that is looked at, 0x7fffffff. */
  const LIMIT: real := 2147483647.0

  /** No correlation reaches the limit that the selection starts from. */
  ghost predicate Measurable(corr: nat -> (nat, nat) -> real)
  {
    forall round: nat, j: nat, k: nat :: corr(round)(j, k) < LIMIT
  }

  predicate Before(j: nat, k: nat, row: nat, column: nat) { j < row || (j == row && k < column) }

  /** The pair has the smallest correlation of those before (row, column), and is the
      first with it in scanning order. */
  ghost predicate SmallestBefore(viable: (nat, nat) -> bool, corr: (nat, nat) -> real, pair: Option<(nat, nat)>,
                                 minCorr: real, row: nat, column: nat)
  {
    && (if pair.None? then minCorr == LIMIT
        else viable(pair.value.0, pair.value.1) && minCorr == corr(pair.value.0, pair.value.1) < LIMIT)
    && (pair.Some? ==> Before(pair.value.0, pair.value.1, row, column))
    && forall j: nat, k: nat :: viable(j, k) && Before(j, k, row, column) ==>
         && minCorr <= corr(j, k)
         && (pair.Some? && Before(j, k, pair.value.0, pair.value.1) ==> minCorr < corr(j, k))
  }

  /** A pair that is not looked at, or not smaller, changes nothing. */
  lemma PairSkipped(viable: (nat, nat) -> bool, corr: (nat, nat) -> real, pair: Option<(nat, nat)>, minCorr: real, row: nat, column: nat)
    requires SmallestBefore(viable, corr, pair, minCorr, row, column) && (viable(row, column) ==> minCorr <= corr(row, column))
    ensures SmallestBefore(viable, corr, pair, minCorr, row, column + 1)
  {
  }

  lemma PairTaken(viable: (nat, nat) -> bool, corr: (nat, nat) -> real, pair: Option<(nat, nat)>, minCorr: real, row: nat, column: nat)
    requires SmallestBefore(viable, corr, pair, minCorr, row, column) && viable(row, column) && corr(row, column) < minCorr
    ensures SmallestBefore(viable, corr, Some((row, column)), corr(row, column), row, column + 1)
  {
  }

  lemma RowDone(viable: (nat, nat) -> bool, corr: (nat, nat) -> real, pair: Option<(nat, nat)>, minCorr: real, row: nat, column: nat)
    requires SmallestBefore(viable, corr, pair, minCorr, row, column) && forall k: nat :: viable(row, k) ==> k < column
    ensures SmallestBefore(viable, corr, pair, minCorr, row + 1, 0)
  {
  }

  /** Pairs (j, k) with k up to j are not looked at. */
  lemma RowBegins(viable: (nat, nat) -> bool, corr: (nat, nat) -> real, pair: Option<(nat, nat)>, minCorr: real, row: nat)
    requires SmallestBefore(viable, corr, pair, minCorr, row, 0) && forall k: nat :: viable(row, k) ==> k > row
    ensures SmallestBefore(viable, corr, pair, minCorr, row, row + 1)
  {
  }
}
