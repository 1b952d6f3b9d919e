/**
 * Global alignments of two symbol sequences under a linear gap penalty,
 * defined independently of any score grid: an alignment is the sequence of
 * moves that walks both sequences from the front to the end, and its score
 * is the sum of what each move contributes. This is the notion of "optimal
 * global alignment score" the grid of `generate_grid` is measured against.
 */
module Alignment {
  import opened Scoring

  /**
   * One column of an alignment: two symbols paired (scored by `get_score`),
   * a symbol of the first sequence against a gap (`deletion`), or a symbol
   * of the second sequence against a gap (`insertion`).
   */
  datatype Move = Diagonal | Deletion | Insertion

  /** How many symbols of the first sequence the moves consume. */
  function ConsumedA(ms: seq<Move>): nat {
    if |ms| == 0 then 0
    else ConsumedA(ms[..|ms| - 1]) + (if ms[|ms| - 1] == Insertion then 0 else 1)
  }

  /** How many symbols of the second sequence the moves consume. */
  function ConsumedB(ms: seq<Move>): nat {
    if |ms| == 0 then 0
    else ConsumedB(ms[..|ms| - 1]) + (if ms[|ms| - 1] == Deletion then 0 else 1)
  }

  /** The moves align a sequence of length m with one of length n. */
  predicate IsAlignment(ms: seq<Move>, m: nat, n: nat) {
    ConsumedA(ms) == m && ConsumedB(ms) == n
  }

  /** Every pair of symbols drawn from `a` and `b` can be scored. */
  predicate AllPairsScorable(a: string, b: string) {
    forall p, q :: 0 <= p < |a| && 0 <= q < |b| ==> Scorable(a[p], b[q])
  }

  /** The total score of the alignment `ms` of `a` with `b`. */
  function AlignScore(ms: seq<Move>, a: string, b: string,
                      matchScore: int, mismatchScore: int, gap: int): int
    requires IsAlignment(ms, |a|, |b|)
    requires AllPairsScorable(a, b)
    decreases |ms|
  {
    if |ms| == 0 then 0
    else
      var rest := ms[..|ms| - 1];
      match ms[|ms| - 1]
      case Diagonal =>
        AlignScore(rest, a[..|a| - 1], b[..|b| - 1], matchScore, mismatchScore, gap)
        + PairScore(a[|a| - 1], b[|b| - 1], matchScore, mismatchScore)
      case Deletion =>
        AlignScore(rest, a[..|a| - 1], b, matchScore, mismatchScore, gap) + gap
      case Insertion =>
        AlignScore(rest, a, b[..|b| - 1], matchScore, mismatchScore, gap) + gap
  }

  /** Pairing the last symbols of `a` and `b` extends an alignment of the shorter sequences by their score. */
  lemma ExtendByDiagonal(prev: seq<Move>, a: string, b: string,
                         matchScore: int, mismatchScore: int, gap: int)
    requires |a| > 0 && |b| > 0 && AllPairsScorable(a, b)
    requires IsAlignment(prev, |a| - 1, |b| - 1)
    ensures IsAlignment(prev + [Diagonal], |a|, |b|)
    ensures AlignScore(prev + [Diagonal], a, b, matchScore, mismatchScore, gap)
         == AlignScore(prev, a[..|a| - 1], b[..|b| - 1], matchScore, mismatchScore, gap)
            + PairScore(a[|a| - 1], b[|b| - 1], matchScore, mismatchScore)
  {
  }

  /** Setting the last symbol of `a` against a gap costs one gap. */
  lemma ExtendByDeletion(prev: seq<Move>, a: string, b: string,
                         matchScore: int, mismatchScore: int, gap: int)
    requires |a| > 0 && AllPairsScorable(a, b)
    requires IsAlignment(prev, |a| - 1, |b|)
    ensures IsAlignment(prev + [Deletion], |a|, |b|)
    ensures AlignScore(prev + [Deletion], a, b, matchScore, mismatchScore, gap)
         == AlignScore(prev, a[..|a| - 1], b, matchScore, mismatchScore, gap) + gap
  {
  }

  /** Setting the last symbol of `b` against a gap costs one gap. */
  lemma ExtendByInsertion(prev: seq<Move>, a: string, b: string,
                          matchScore: int, mismatchScore: int, gap: int)
    requires |b| > 0 && AllPairsScorable(a, b)
    requires IsAlignment(prev, |a|, |b| - 1)
    ensures IsAlignment(prev + [Insertion], |a|, |b|)
    ensures AlignScore(prev + [Insertion], a, b, matchScore, mismatchScore, gap)
         == AlignScore(prev, a, b[..|b| - 1], matchScore, mismatchScore, gap) + gap
  {
  }

  /** Some alignment of `a` with `b` scores exactly `v`. */
  ghost predicate Attainable(a: string, b: string, matchScore: int, mismatchScore: int, gap: int, v: int) {
    AllPairsScorable(a, b) &&
    exists ms :: IsAlignment(ms, |a|, |b|) && AlignScore(ms, a, b, matchScore, mismatchScore, gap) == v
  }

  /** A score attained without the last symbols of both sequences extends by their pair score. */
  lemma AttainedByDiagonal(a: string, b: string, matchScore: int, mismatchScore: int, gap: int, v: int)
    requires |a| > 0 && |b| > 0 && AllPairsScorable(a, b)
    requires Attainable(a[..|a| - 1], b[..|b| - 1], matchScore, mismatchScore, gap, v)
    ensures Attainable(a, b, matchScore, mismatchScore, gap,
                       v + PairScore(a[|a| - 1], b[|b| - 1], matchScore, mismatchScore))
  {
    var prev :| IsAlignment(prev, |a| - 1, |b| - 1) &&
                AlignScore(prev, a[..|a| - 1], b[..|b| - 1], matchScore, mismatchScore, gap) == v;
    ExtendByDiagonal(prev, a, b, matchScore, mismatchScore, gap);
  }

  /** A score attained without the last symbol of `a` extends by one gap. */
  lemma AttainedByDeletion(a: string, b: string, matchScore: int, mismatchScore: int, gap: int, v: int)
    requires |a| > 0 && AllPairsScorable(a, b)
    requires Attainable(a[..|a| - 1], b, matchScore, mismatchScore, gap, v)
    ensures Attainable(a, b, matchScore, mismatchScore, gap, v + gap)
  {
    var prev :| IsAlignment(prev, |a| - 1, |b|) &&
                AlignScore(prev, a[..|a| - 1], b, matchScore, mismatchScore, gap) == v;
    ExtendByDeletion(prev, a, b, matchScore, mismatchScore, gap);
  }

  /** A score attained without the last symbol of `b` extends by one gap. */
  lemma AttainedByInsertion(a: string, b: string, matchScore: int, mismatchScore: int, gap: int, v: int)
    requires |b| > 0 && AllPairsScorable(a, b)
    requires Attainable(a, b[..|b| - 1], matchScore, mismatchScore, gap, v)
    ensures Attainable(a, b, matchScore, mismatchScore, gap, v + gap)
  {
    var prev :| IsAlignment(prev, |a|, |b| - 1) &&
                AlignScore(prev, a, b[..|b| - 1], matchScore, mismatchScore, gap) == v;
    ExtendByInsertion(prev, a, b, matchScore, mismatchScore, gap);
  }
}
