/**
 * The IUPAC lookup table of `map_bases`: every nucleotide code the table knows
 * is unwrapped into the ascending list of concrete bases it stands for.
 */
module Bases {
  import opened Wrappers

  /** The concrete bases, in ascending character order. */
  const Concrete: set<char> := {'A', 'C', 'G', 'T'}

  /** The keys the table ends up holding. 'V' is not among them (see MapBases). */
  const Keys: set<char> := {'A', 'C', 'G', 'T', 'N', 'R', 'Y', 'S', 'W', 'K', 'M', 'B', 'D', 'H'}

  /** Every element is strictly smaller than every later one. */
  predicate StrictlyAscending(s: string) {
    forall i, j :: 0 <= i < j < |s| ==> s[i] < s[j]
  }

  /** What every value of the table is: a non-empty ascending list of concrete bases. */
  predicate IsBaseList(s: string) {
    |s| > 0 && StrictlyAscending(s) && forall b :: b in s ==> b in Concrete
  }

  /**
   * `map_bases`: the table lookup, `None` where `std::map::at` throws
   * (what it returns is stated by TableShape).
   *
   * The branches follow the initializer list entry by entry. The list holds
   * the key 'W' twice, first with {A,T} and last with {A,C,G} (evidently
   * meant to be 'V'). In practice the map's initializer-list constructor
   * keeps the first of two equal keys (the C++ standard leaves open which one
   * it keeps, and the common standard libraries keep the first), so the
   * first 'W' branch wins, the last branch is never
   * taken, and 'V' has no entry. 'U', lower-case letters and the gap markers
   * have none either.
   */
  function MapBases(base: char): Option<string>
  {
    if base == 'A' then Some("A")
    else if base == 'C' then Some("C")
    else if base == 'G' then Some("G")
    else if base == 'T' then Some("T")
    else if base == 'N' then Some("ACGT")
    else if base == 'R' then Some("AG")
    else if base == 'Y' then Some("CT")
    else if base == 'S' then Some("CG")
    else if base == 'W' then Some("AT")
    else if base == 'K' then Some("GT")
    else if base == 'M' then Some("AC")
    else if base == 'B' then Some("CGT")
    else if base == 'D' then Some("AGT")
    else if base == 'H' then Some("ACT")
    else if base == 'W' then Some("ACG")
    else None
  }

  /**
   * The lookup succeeds exactly for the keys, every value is a list of
   * concrete bases that `std::set_intersection` may take, and a concrete
   * base stands for itself.
   */
  lemma TableShape(base: char)
    ensures MapBases(base).Some? <==> base in Keys
    ensures MapBases(base).Some? ==> IsBaseList(MapBases(base).value)
    ensures base in Concrete ==> MapBases(base) == Some([base])
  {
  }

  /** The duplicated key: the first 'W' entry is kept and 'V' never enters the table. */
  lemma DuplicateKeyKeepsFirst()
    ensures MapBases('W') == Some("AT")
    ensures MapBases('V') == None
  {
  }

  /** Entries of the ambiguity codes the scoring relies on. */
  lemma AmbiguityEntries()
    ensures MapBases('N') == Some("ACGT")
    ensures MapBases('R') == Some("AG") && MapBases('Y') == Some("CT")
    ensures MapBases('D') == Some("AGT")
  {
  }

  /** The RNA base, the gap markers and lower-case letters are not keys. */
  lemma AbsentSymbols(c: char)
    requires c == 'U' || c == '-' || c == '.' || 'a' <= c <= 'z'
    ensures MapBases(c) == None
  {
  }
}
