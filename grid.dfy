/**
 * `generate_grid`: the dynamic-programming score grid of a Needleman–Wunsch
 * global alignment with a linear gap penalty, in the shape the routine
 * actually builds.
 *
 * Row 0 holds one entry per symbol of `left`; rows 1 .. |right| - 1 start
 * with their gap cost; the fill loop appends, to row i, one cell per
 * j in 1 .. |right| - 1, scoring `left[i]` against `right[j]`. So the grid is
 * not the textbook (m+1)×(n+1) one: index 0 of either sequence is never
 * scored. For i < |left| and j < |right|, cell (i, j) is the best score of
 * aligning `left[1..i+1]` with `right[1..j+1]` (CellBoundsEveryAlignment,
 * CellIsAttained). Row 0 is sized by |left| and the row count by |right|, so
 * when one sequence has at most one symbol the grid also holds cells beyond
 * the other one; those align nothing and are bare multiples of the gap
 * penalty (CellsBeyondSequences).
 */
module Grid {
  import opened Wrappers
  import opened Scoring
  import opened Alignment

  /** `std::max` of three candidates. */
  function Max3(a: int, b: int, c: int): (r: int)
    ensures r >= a && r >= b && r >= c
    ensures r == a || r == b || r == c
  {
    if a >= b && a >= c then a else if b >= c then b else c
  }

  /** How many rows the boundary set-up creates: row 0, then one per j in 1 .. R - 1. */
  function NumRows(R: nat): nat {
    if R <= 1 then 1 else R
  }

  /**
   * The length of row k just before the fill loop reads cell (i, j), for
   * sequences of lengths L and R: row 0 keeps its L entries, earlier rows are
   * complete, row i has received j - 1 cells after its first, later rows
   * hold only their first entry.
   */
  function RowLen(L: nat, R: nat, k: nat, i: nat, j: nat): nat {
    if k == 0 then L else if k < i then R else if k == i then j else 1
  }

  /**
   * Every index the fill loop uses at every step (i, j) is in range:
   * `grid[i]`, `grid[i - 1][j - 1]`, `grid[i - 1][j]` and `grid[i][j - 1]`.
   */
  predicate AccessesInBounds(L: nat, R: nat) {
    forall i, j :: 1 <= i < L && 1 <= j < R ==> AccessOk(L, R, i, j)
  }

  /** The indices used at step (i, j) of the fill loop are in range. */
  predicate AccessOk(L: nat, R: nat, i: nat, j: nat)
    requires 1 <= i && 1 <= j
  {
    && i < NumRows(R)                       // grid[i]
    && j - 1 < RowLen(L, R, i - 1, i, j)    // grid[i - 1][j - 1]
    && j < RowLen(L, R, i - 1, i, j)        // grid[i - 1][j]
    && j - 1 < RowLen(L, R, i, i, j)        // grid[i][j - 1]
  }

  /** The lengths for which the fill loop stays inside the grid. */
  predicate ShapeCompatible(L: nat, R: nat) {
    L == R || L <= 1 || R <= 1
  }

  /** The fill loop stays in range exactly for equal lengths or when either length is at most 1. */
  lemma AccessesInBoundsIff(L: nat, R: nat)
    ensures AccessesInBounds(L, R) <==> ShapeCompatible(L, R)
  {
    if !ShapeCompatible(L, R) {
      if L > R {
        // step (R, 1) indexes row R, which does not exist
        assert !AccessOk(L, R, R, 1);
      } else {
        // step (1, L) reads grid[0][L], past the end of row 0
        assert !AccessOk(L, R, 1, L);
      }
    }
  }

  /** Every pair the fill loop scores can be scored, so no lookup throws. */
  predicate FillScorable(left: string, right: string) {
    forall i, j :: 1 <= i < |left| && 1 <= j < |right| ==> Scorable(left[i], right[j])
  }

  /**
   * Cell (i, j) of `g` exists together with its three neighbours and holds
   * the largest of the diagonal, deletion and insertion candidates.
   */
  predicate FollowsRecurrence(g: seq<seq<int>>, left: string, right: string,
                              matchScore: int, mismatchScore: int, gap: int, i: nat, j: nat)
  {
    && 1 <= i < |g| && 1 <= j < |g[i]| && j < |g[i - 1]|
    && i < |left| && j < |right| && Scorable(left[i], right[j])
    && g[i][j] == Max3(g[i - 1][j - 1] + PairScore(left[i], right[j], matchScore, mismatchScore),
                       g[i - 1][j] + gap,
                       g[i][j - 1] + gap)
  }

  /** Appending a cell to a row changes no cell already there, so no recurrence already met breaks. */
  lemma AppendKeepsRecurrence(g: seq<seq<int>>, left: string, right: string,
                              matchScore: int, mismatchScore: int, gap: int,
                              i: nat, v: int, p: nat, q: nat)
    requires i < |g|
    requires FollowsRecurrence(g, left, right, matchScore, mismatchScore, gap, p, q)
    ensures FollowsRecurrence(g[i := g[i] + [v]], left, right, matchScore, mismatchScore, gap, p, q)
  {
    var g' := g[i := g[i] + [v]];
    assert g'[p][q] == g[p][q] && g'[p][q - 1] == g[p][q - 1];
    assert g'[p - 1][q] == g[p - 1][q] && g'[p - 1][q - 1] == g[p - 1][q - 1];
  }

  /**
   * The grid `generate_grid` returns: its shape, its boundary row and column
   * (one gap per step) and the max recurrence in every interior cell.
   */
  predicate IsScoreGrid(g: seq<seq<int>>, left: string, right: string,
                        matchScore: int, mismatchScore: int, gap: int)
  {
    && |g| == NumRows(|right|)
    && |g[0]| == |left|
    && (forall k :: 1 <= k < |g| ==> |g[k]| == if |left| <= 1 then 1 else |right|)
    && (forall c :: 0 <= c < |g[0]| ==> g[0][c] == c * gap)
    && (forall k :: 1 <= k < |g| ==> g[k][0] == k * gap)
    && (forall i, j :: 1 <= i < |g| && 1 <= j < |g[i]| ==>
          FollowsRecurrence(g, left, right, matchScore, mismatchScore, gap, i, j))
  }

  /**
   * The grid as it stands when the fill loop is about to compute cell (i, j):
   * the rows have the lengths RowLen gives, the boundary row and column hold
   * their gap costs, and every cell filled so far follows the recurrence.
   */
  predicate Filled(g: seq<seq<int>>, left: string, right: string,
                   matchScore: int, mismatchScore: int, gap: int, i: nat, j: nat)
  {
    && |g| == NumRows(|right|)
    && (forall k :: 0 <= k < |g| ==> |g[k]| == RowLen(|left|, |right|, k, i, j))
    && (forall c :: 0 <= c < |g[0]| ==> g[0][c] == c * gap)
    && (forall k :: 1 <= k < |g| ==> 0 < |g[k]| && g[k][0] == k * gap)
    && (forall p, q :: 1 <= p < i && 1 <= q < |right| ==>
          FollowsRecurrence(g, left, right, matchScore, mismatchScore, gap, p, q))
    && (forall q :: 1 <= q < j ==>
          FollowsRecurrence(g, left, right, matchScore, mismatchScore, gap, i, q))
  }

  /**
   * One step of the fill loop: the indices it reads are in range, and
   * appending the largest candidate to row i fills cell (i, j).
   */
  lemma FillStep(g: seq<seq<int>>, left: string, right: string,
                 matchScore: int, mismatchScore: int, gap: int, i: nat, j: nat)
    requires ShapeCompatible(|left|, |right|)
    requires 1 <= i < |left| && 1 <= j < |right| && Scorable(left[i], right[j])
    requires Filled(g, left, right, matchScore, mismatchScore, gap, i, j)
    ensures i < |g| && j < |g[i - 1]| && |g[i]| == j
    ensures Filled(g[i := g[i] + [Max3(g[i - 1][j - 1] + PairScore(left[i], right[j], matchScore, mismatchScore),
                                       g[i - 1][j] + gap,
                                       g[i][j - 1] + gap)]],
                   left, right, matchScore, mismatchScore, gap, i, j + 1)
  {
    assert AccessOk(|left|, |right|, i, j) by { AccessesInBoundsIff(|left|, |right|); }
    var v := Max3(g[i - 1][j - 1] + PairScore(left[i], right[j], matchScore, mismatchScore),
                  g[i - 1][j] + gap,
                  g[i][j - 1] + gap);
    var next := g[i := g[i] + [v]];
    forall p, q | 1 <= p < i && 1 <= q < |right|
      ensures FollowsRecurrence(next, left, right, matchScore, mismatchScore, gap, p, q)
    {
      AppendKeepsRecurrence(g, left, right, matchScore, mismatchScore, gap, i, v, p, q);
    }
    forall q | 1 <= q < j
      ensures FollowsRecurrence(next, left, right, matchScore, mismatchScore, gap, i, q)
    {
      AppendKeepsRecurrence(g, left, right, matchScore, mismatchScore, gap, i, v, i, q);
    }
    assert FollowsRecurrence(next, left, right, matchScore, mismatchScore, gap, i, j);
  }

  /** Once row i is complete, the grid is ready for row i + 1. */
  lemma NextRow(g: seq<seq<int>>, left: string, right: string,
                matchScore: int, mismatchScore: int, gap: int, i: nat, j: nat)
    requires 1 <= i && j == NumRows(|right|)
    requires Filled(g, left, right, matchScore, mismatchScore, gap, i, j)
    ensures Filled(g, left, right, matchScore, mismatchScore, gap, i + 1, 1)
  {
  }

  /** When the fill loop ends, the grid is the one IsScoreGrid describes. */
  lemma FilledIsScoreGrid(g: seq<seq<int>>, left: string, right: string,
                          matchScore: int, mismatchScore: int, gap: int, i: nat)
    requires ShapeCompatible(|left|, |right|)
    requires i == NumRows(|left|)
    requires Filled(g, left, right, matchScore, mismatchScore, gap, i, 1)
    ensures FillScorable(left, right)
    ensures IsScoreGrid(g, left, right, matchScore, mismatchScore, gap)
  {
    forall p, q | 1 <= p < |left| && 1 <= q < |right| ensures Scorable(left[p], right[q]) {
      assert FollowsRecurrence(g, left, right, matchScore, mismatchScore, gap, p, q);
    }
  }

  /**
   * `generate_grid`, with `None` where a score lookup throws. Indexing a
   * vector out of range has no defined outcome, so the lengths the fill
   * loop cannot handle are excluded (AccessesInBoundsIff).
   */
  method GenerateGrid(left: string, right: string, matchScore: int, mismatchScore: int, gap: int)
    returns (r: Option<seq<seq<int>>>)
    requires ShapeCompatible(|left|, |right|)
    ensures r.Some? <==> FillScorable(left, right)
    ensures r.Some? ==> IsScoreGrid(r.value, left, right, matchScore, mismatchScore, gap)
    ensures r.Some? && |left| == |right| >= 1 ==>
              |r.value| == |left| && forall k :: 0 <= k < |left| ==> |r.value[k]| == |left|
    ensures r.Some? && (|left| <= 1 || |right| <= 1) ==>
              forall k :: 1 <= k < |r.value| ==> |r.value[k]| == 1
  {
    var L, R := |left|, |right|;
    var firstRow: seq<int> := [];
    var i := 0;
    while i < L
      invariant 0 <= i <= L
      invariant |firstRow| == i
      invariant forall c :: 0 <= c < i ==> firstRow[c] == c * gap
    {
      firstRow := firstRow + [i * gap];
      i := i + 1;
    }
    var grid := [firstRow];

    var j := 1;
    while j < R
      invariant 1 <= j <= NumRows(R)
      invariant |grid| == j && grid[0] == firstRow
      invariant forall k :: 1 <= k < j ==> grid[k] == [k * gap]
    {
      grid := grid + [[j * gap]];
      j := j + 1;
    }

    i := 1;
    while i < L
      invariant 1 <= i <= NumRows(L)
      invariant Filled(grid, left, right, matchScore, mismatchScore, gap, i, 1)
    {
      j := 1;
      while j < R
        invariant 1 <= j <= NumRows(R)
        invariant Filled(grid, left, right, matchScore, mismatchScore, gap, i, j)
      {
        var score := GetScore(left[i], right[j], matchScore, mismatchScore);
        if score.None? {
          return None;
        }
        FillStep(grid, left, right, matchScore, mismatchScore, gap, i, j);
        var cellMatch := grid[i - 1][j - 1] + score.value;
        var deletion := grid[i - 1][j] + gap;
        var insertion := grid[i][j - 1] + gap;
        grid := grid[i := grid[i] + [Max3(cellMatch, deletion, insertion)]];
        j := j + 1;
      }
      NextRow(grid, left, right, matchScore, mismatchScore, gap, i, j);
      i := i + 1;
    }
    FilledIsScoreGrid(grid, left, right, matchScore, mismatchScore, gap, i);
    r := Some(grid);
  }

  /** The symbols cell (i, j) aligns are all scorable when every filled pair is. */
  lemma ScoredPrefixesScorable(left: string, right: string, i: nat, j: nat)
    requires FillScorable(left, right) && i < |left| && j < |right|
    ensures AllPairsScorable(left[1..i + 1], right[1..j + 1])
  {
    var a, b := left[1..i + 1], right[1..j + 1];
    forall p, q | 0 <= p < |a| && 0 <= q < |b| ensures Scorable(a[p], b[q]) {
      assert a[p] == left[p + 1] && b[q] == right[q + 1];
    }
  }

  /**
   * What the grid says about one cell: the origin holds 0, and every other
   * cell is at least each candidate that applies to it and equals one of them.
   */
  lemma CellStep(g: seq<seq<int>>, left: string, right: string,
                 matchScore: int, mismatchScore: int, gap: int, i: nat, j: nat)
    requires FillScorable(left, right)
    requires IsScoreGrid(g, left, right, matchScore, mismatchScore, gap)
    requires i < |g| && j < |g[i]| && i < |left| && j < |right|
    ensures i == 0 && j == 0 ==> g[i][j] == 0
    ensures i > 0 ==> j < |g[i - 1]| && g[i][j] >= g[i - 1][j] + gap
    ensures j > 0 ==> g[i][j] >= g[i][j - 1] + gap
    ensures i > 0 && j > 0 ==>
              g[i][j] >= g[i - 1][j - 1] + PairScore(left[i], right[j], matchScore, mismatchScore)
    ensures i > 0 || j > 0 ==>
              || (i > 0 && g[i][j] == g[i - 1][j] + gap)
              || (j > 0 && g[i][j] == g[i][j - 1] + gap)
              || (i > 0 && j > 0 &&
                  g[i][j] == g[i - 1][j - 1] + PairScore(left[i], right[j], matchScore, mismatchScore))
  {
    if i > 0 && j > 0 {
      assert FollowsRecurrence(g, left, right, matchScore, mismatchScore, gap, i, j);
    } else if i > 0 {
      assert g[i][0] == i * gap && g[i - 1][0] == (i - 1) * gap;
      assert (i - 1) * gap + gap == i * gap;
    } else if j > 0 {
      assert g[0][j] == j * gap && g[0][j - 1] == (j - 1) * gap;
      assert (j - 1) * gap + gap == j * gap;
    }
  }

  /**
   * No alignment of `left[1..i+1]` with `right[1..j+1]` scores more than
   * cell (i, j) of the grid.
   */
  lemma {:induction false} CellBoundsEveryAlignment(g: seq<seq<int>>, left: string, right: string,
                                                    matchScore: int, mismatchScore: int, gap: int,
                                                    i: nat, j: nat, ms: seq<Move>)
    requires FillScorable(left, right)
    requires IsScoreGrid(g, left, right, matchScore, mismatchScore, gap)
    requires i < |g| && j < |g[i]| && i < |left| && j < |right|
    requires IsAlignment(ms, i, j)
    ensures AllPairsScorable(left[1..i + 1], right[1..j + 1])
    ensures AlignScore(ms, left[1..i + 1], right[1..j + 1], matchScore, mismatchScore, gap) <= g[i][j]
    decreases |ms|
  {
    ScoredPrefixesScorable(left, right, i, j);
    CellStep(g, left, right, matchScore, mismatchScore, gap, i, j);
    if |ms| > 0 {
      var rest := ms[..|ms| - 1];
      var a, b := left[1..i + 1], right[1..j + 1];
      match ms[|ms| - 1]
      case Diagonal =>
        assert a[..|a| - 1] == left[1..i] && b[..|b| - 1] == right[1..j];
        CellBoundsEveryAlignment(g, left, right, matchScore, mismatchScore, gap, i - 1, j - 1, rest);
        assert AlignScore(ms, a, b, matchScore, mismatchScore, gap)
            == AlignScore(rest, left[1..i], right[1..j], matchScore, mismatchScore, gap)
               + PairScore(left[i], right[j], matchScore, mismatchScore);
      case Deletion =>
        assert a[..|a| - 1] == left[1..i];
        CellBoundsEveryAlignment(g, left, right, matchScore, mismatchScore, gap, i - 1, j, rest);
        assert AlignScore(ms, a, b, matchScore, mismatchScore, gap)
            == AlignScore(rest, left[1..i], b, matchScore, mismatchScore, gap) + gap;
      case Insertion =>
        assert b[..|b| - 1] == right[1..j];
        CellBoundsEveryAlignment(g, left, right, matchScore, mismatchScore, gap, i, j - 1, rest);
        assert AlignScore(ms, a, b, matchScore, mismatchScore, gap)
            == AlignScore(rest, a, right[1..j], matchScore, mismatchScore, gap) + gap;
    }
  }

  /** Some alignment of `left[1..i+1]` with `right[1..j+1]` scores exactly cell (i, j). */
  lemma {:induction false} CellIsAttained(g: seq<seq<int>>, left: string, right: string,
                                          matchScore: int, mismatchScore: int, gap: int,
                                          i: nat, j: nat)
    requires FillScorable(left, right)
    requires IsScoreGrid(g, left, right, matchScore, mismatchScore, gap)
    requires i < |g| && j < |g[i]| && i < |left| && j < |right|
    ensures Attainable(left[1..i + 1], right[1..j + 1], matchScore, mismatchScore, gap, g[i][j])
    decreases i + j
  {
    ScoredPrefixesScorable(left, right, i, j);
    CellStep(g, left, right, matchScore, mismatchScore, gap, i, j);
    var a, b := left[1..i + 1], right[1..j + 1];
    if i == 0 && j == 0 {
      assert IsAlignment([], i, j) && AlignScore([], a, b, matchScore, mismatchScore, gap) == g[i][j];
    } else if i > 0 && g[i][j] == g[i - 1][j] + gap {
      // last column: left[i] against a gap
      CellIsAttained(g, left, right, matchScore, mismatchScore, gap, i - 1, j);
      assert a[..|a| - 1] == left[1..i];
      AttainedByDeletion(a, b, matchScore, mismatchScore, gap, g[i - 1][j]);
    } else if j > 0 && g[i][j] == g[i][j - 1] + gap {
      // last column: right[j] against a gap
      CellIsAttained(g, left, right, matchScore, mismatchScore, gap, i, j - 1);
      assert b[..|b| - 1] == right[1..j];
      AttainedByInsertion(a, b, matchScore, mismatchScore, gap, g[i][j - 1]);
    } else {
      // last column: left[i] paired with right[j]
      CellIsAttained(g, left, right, matchScore, mismatchScore, gap, i - 1, j - 1);
      assert a[..|a| - 1] == left[1..i] && b[..|b| - 1] == right[1..j];
      AttainedByDiagonal(a, b, matchScore, mismatchScore, gap, g[i - 1][j - 1]);
    }
  }

  /**
   * When `left` has two symbols or more, every row past row 0 is filled up to
   * |right| cells, so its index must be a position of `left`.
   */
  lemma RowsWithinLeft(g: seq<seq<int>>, left: string, right: string,
                       matchScore: int, mismatchScore: int, gap: int, i: nat)
    requires IsScoreGrid(g, left, right, matchScore, mismatchScore, gap)
    requires i < |g|
    ensures 1 <= i && |left| > 1 ==> i < |left| && |g[i]| == |right|
  {
    if 1 <= i && |left| > 1 {
      // row i exists, so |right| >= 2 and cell (i, 1) was written from left[i]
      assert FollowsRecurrence(g, left, right, matchScore, mismatchScore, gap, i, 1);
    }
  }

  /**
   * A cell that lies beyond either sequence is on row 0 or column 0 and holds
   * its distance from the origin times the gap penalty.
   */
  lemma CellsBeyondSequences(g: seq<seq<int>>, left: string, right: string,
                             matchScore: int, mismatchScore: int, gap: int, i: nat, j: nat)
    requires IsScoreGrid(g, left, right, matchScore, mismatchScore, gap)
    requires i < |g| && j < |g[i]|
    requires i >= |left| || j >= |right|
    ensures i == 0 || j == 0
    ensures g[i][j] == (i + j) * gap
  {
    RowsWithinLeft(g, left, right, matchScore, mismatchScore, gap, i);
  }

  /** Two grids that both meet IsScoreGrid agree on cell (i, j). */
  lemma CellsAgree(g1: seq<seq<int>>, g2: seq<seq<int>>, left: string, right: string,
                   matchScore: int, mismatchScore: int, gap: int, i: nat, j: nat)
    requires FillScorable(left, right)
    requires IsScoreGrid(g1, left, right, matchScore, mismatchScore, gap)
    requires IsScoreGrid(g2, left, right, matchScore, mismatchScore, gap)
    requires i < |g1| && j < |g1[i]|
    ensures g1[i][j] == g2[i][j]
  {
    if i > 0 && j > 0 {
      // an interior cell lies within both sequences
      assert FollowsRecurrence(g1, left, right, matchScore, mismatchScore, gap, i, j);
    }
    if i < |left| && j < |right| {
      CellIsAttained(g1, left, right, matchScore, mismatchScore, gap, i, j);
      var ms1 :| IsAlignment(ms1, i, j) &&
                 AlignScore(ms1, left[1..i + 1], right[1..j + 1], matchScore, mismatchScore, gap) == g1[i][j];
      CellBoundsEveryAlignment(g2, left, right, matchScore, mismatchScore, gap, i, j, ms1);
      CellIsAttained(g2, left, right, matchScore, mismatchScore, gap, i, j);
      var ms2 :| IsAlignment(ms2, i, j) &&
                 AlignScore(ms2, left[1..i + 1], right[1..j + 1], matchScore, mismatchScore, gap) == g2[i][j];
      CellBoundsEveryAlignment(g1, left, right, matchScore, mismatchScore, gap, i, j, ms2);
    }
  }

  /**
   * The shape, boundary and recurrence that GenerateGrid promises leave no
   * freedom: two grids that both meet them are the same grid.
   */
  lemma ScoreGridUnique(g1: seq<seq<int>>, g2: seq<seq<int>>, left: string, right: string,
                        matchScore: int, mismatchScore: int, gap: int)
    requires FillScorable(left, right)
    requires IsScoreGrid(g1, left, right, matchScore, mismatchScore, gap)
    requires IsScoreGrid(g2, left, right, matchScore, mismatchScore, gap)
    ensures g1 == g2
  {
    forall i | 0 <= i < |g1| ensures g1[i] == g2[i] {
      forall j | 0 <= j < |g1[i]| ensures g1[i][j] == g2[i][j] {
        CellsAgree(g1, g2, left, right, matchScore, mismatchScore, gap, i, j);
      }
    }
  }
}
