/**
 * `get_score`: the score of one pair of sequence symbols. A gap marker on
 * either side is a mismatch; two table symbols match when the base lists
 * they stand for share a base.
 */
module Scoring {
  import opened Wrappers
  import opened Bases

  /** The two gap markers. */
  predicate IsGap(c: char) {
    c == '-' || c == '.'
  }

  /**
   * The pairs `get_score` returns a value for: a gap marker on either side
   * short-circuits before any lookup, otherwise both lookups must succeed.
   */
  predicate Scorable(x: char, y: char) {
    IsGap(x) || IsGap(y) || (x in Keys && y in Keys)
  }

  /** Two table symbols stand for at least one common concrete base. */
  predicate SharesBase(x: char, y: char)
    requires x in Keys && y in Keys
  {
    exists b :: b in MapBases(x).value && b in MapBases(y).value
  }

  /**
   * `std::set_intersection` on two ranges: walk both in step, drop the
   * smaller head, copy a common head once from the first range.
   */
  function SetIntersection(a: string, b: string): string
    decreases |a| + |b|
  {
    if |a| == 0 || |b| == 0 then []
    else if a[0] < b[0] then SetIntersection(a[1..], b)
    else if b[0] < a[0] then SetIntersection(a, b[1..])
    else [a[0]] + SetIntersection(a[1..], b[1..])
  }

  /**
   * On two strictly ascending lists, the merge yields a strictly ascending
   * list of exactly the elements common to both.
   */
  lemma {:induction false} SetIntersectionIsIntersection(a: string, b: string)
    requires StrictlyAscending(a) && StrictlyAscending(b)
    ensures StrictlyAscending(SetIntersection(a, b))
    ensures forall c :: c in SetIntersection(a, b) <==> c in a && c in b
    decreases |a| + |b|
  {
    if |a| == 0 || |b| == 0 {
    } else if a[0] < b[0] {
      SetIntersectionIsIntersection(a[1..], b);
      assert a[0] !in b;
      assert a == [a[0]] + a[1..];
    } else if b[0] < a[0] {
      SetIntersectionIsIntersection(a, b[1..]);
      assert b[0] !in a;
      assert b == [b[0]] + b[1..];
    } else {
      SetIntersectionIsIntersection(a[1..], b[1..]);
      var rest := SetIntersection(a[1..], b[1..]);
      forall k | 0 <= k < |rest| ensures a[0] < rest[k] {
        assert rest[k] in a[1..];
      }
      assert a == [a[0]] + a[1..] && b == [b[0]] + b[1..];
    }
  }

  /**
   * `get_score`: `Some(score)`, or `None` where a lookup of `map_bases`
   * throws. A gap on either side is a mismatch whatever the other symbol;
   * the result is always one of the two weights. When the two symbols match
   * is stated by ScoreMeansSharedBase.
   */
  function GetScore(lho: char, rho: char, matchScore: int, mismatchScore: int): (r: Option<int>)
    ensures r.Some? <==> Scorable(lho, rho)
    ensures IsGap(lho) || IsGap(rho) ==> r == Some(mismatchScore)
    ensures r.Some? ==> r.value == matchScore || r.value == mismatchScore
  {
    if IsGap(lho) || IsGap(rho) then Some(mismatchScore)
    else
      TableShape(lho);
      TableShape(rho);
      match (MapBases(lho), MapBases(rho))
      case (Some(l), Some(r)) =>
        Some(if |SetIntersection(l, r)| > 0 then matchScore else mismatchScore)
      case _ => None
  }

  /** Two table symbols match exactly when their base lists share a base. */
  lemma ScoreMeansSharedBase(x: char, y: char, matchScore: int, mismatchScore: int)
    requires x in Keys && y in Keys
    ensures GetScore(x, y, matchScore, mismatchScore)
         == Some(if SharesBase(x, y) then matchScore else mismatchScore)
  {
    TableShape(x);
    TableShape(y);
    var l, r := MapBases(x).value, MapBases(y).value;
    var common := SetIntersection(l, r);
    assert GetScore(x, y, matchScore, mismatchScore)
        == Some(if |common| > 0 then matchScore else mismatchScore);
    SetIntersectionIsIntersection(l, r);
    if |common| > 0 {
      assert common[0] in common;
    }
    assert |common| > 0 <==> SharesBase(x, y);
  }

  /** The score of a pair that `get_score` accepts. */
  function PairScore(x: char, y: char, matchScore: int, mismatchScore: int): int
    requires Scorable(x, y)
  {
    GetScore(x, y, matchScore, mismatchScore).value
  }

  /** Scoring does not depend on the order of its two symbols, including the failures. */
  lemma ScoreSymmetric(x: char, y: char, matchScore: int, mismatchScore: int)
    ensures GetScore(x, y, matchScore, mismatchScore) == GetScore(y, x, matchScore, mismatchScore)
  {
    if x in Keys && y in Keys {
      ScoreMeansSharedBase(x, y, matchScore, mismatchScore);
      ScoreMeansSharedBase(y, x, matchScore, mismatchScore);
    }
  }

  /** Every table symbol matches itself, and 'N' matches every table symbol. */
  lemma ScoreMatchesSelfAndN(x: char, matchScore: int, mismatchScore: int)
    requires x in Keys
    ensures GetScore(x, x, matchScore, mismatchScore) == Some(matchScore)
    ensures GetScore('N', x, matchScore, mismatchScore) == Some(matchScore)
  {
    TableShape(x);
    AmbiguityEntries();
    var bases := MapBases(x).value;
    assert bases[0] in bases && bases[0] in MapBases('N').value;
    ScoreMeansSharedBase(x, x, matchScore, mismatchScore);
    ScoreMeansSharedBase('N', x, matchScore, mismatchScore);
  }

  /** Concrete pairs with match = 1 and mismatch = 0. */
  lemma ScoreExamples()
    ensures GetScore('A', 'C', 1, 0) == Some(0)
    ensures GetScore('A', 'N', 1, 0) == Some(1)
    ensures GetScore('A', 'D', 1, 0) == Some(1)
    ensures GetScore('A', 'Y', 1, 0) == Some(0)
    ensures GetScore('R', 'Y', 1, 0) == Some(0)
    ensures GetScore('-', '-', 1, 0) == Some(0)
    ensures GetScore('.', 'x', 1, 0) == Some(0)
    ensures GetScore('A', 'V', 1, 0) == None
  {
    AmbiguityEntries();
    DuplicateKeyKeepsFirst();
  }
}
