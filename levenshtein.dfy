/**
 * `levenshteinDistance` of script.js: both strings are folded to lower
 * case, a (|s1|+1) x (|s2|+1) table is allocated, its first column and
 * first row are initialised, and the inner cells are filled column by
 * column.  The method is proved to leave in every cell the distance of the
 * corresponding prefixes, so that it returns the distance of the folded
 * strings; `Distance` is the same value as a function, for use by the
 * search filter.
 */
module Levenshtein {
  import opened Text
  import opened EditDistance

  /**
   * The case-insensitive distance that `levenshteinDistance` computes.  It
   * lies between the difference of the two lengths and the larger length.
   */
  function Distance(s1: string, s2: string): (d: nat)
    ensures |s1| - |s2| <= d && |s2| - |s1| <= d
    ensures d <= if |s1| >= |s2| then |s1| else |s2|
  {
    LevLowerBound(Lower(s1), Lower(s2));
    LevUpperBound(Lower(s1), Lower(s2));
    Lev(Lower(s1), Lower(s2))
  }

  /** Unfolds the distance of two non-empty prefixes into its three candidates. */
  lemma LevCell(a: string, b: string, i: nat, j: nat)
    requires 1 <= i <= |a| && 1 <= j <= |b|
    ensures Lev(a[..i], b[..j])
         == Min3(Lev(a[..i - 1], b[..j]) + 1,
                 Lev(a[..i], b[..j - 1]) + 1,
                 Lev(a[..i - 1], b[..j - 1]) + Cost(a[i - 1], b[j - 1]))
  {
    assert a[..i][..i - 1] == a[..i - 1];
    assert b[..j][..j - 1] == b[..j - 1];
  }

  /** The (|a|+1) x (|b|+1) shape of the table for `a` and `b`. */
  predicate Fits(d: array2<int>, a: string, b: string) {
    d.Length0 == |a| + 1 && d.Length1 == |b| + 1
  }

  /** Writes the first column (cell (i, 0) is i) and then the first row (cell (0, j) is j). */
  method InitBorders(d: array2<int>)
    requires d.Length0 >= 1 && d.Length1 >= 1
    modifies d
    ensures forall x :: 0 <= x < d.Length0 ==> d[x, 0] == x
    ensures forall y :: 0 <= y < d.Length1 ==> d[0, y] == y
    ensures forall x, y :: 1 <= x < d.Length0 && 1 <= y < d.Length1 ==> d[x, y] == old(d[x, y])
  {
    var i := 0;
    while i < d.Length0
      invariant 0 <= i <= d.Length0
      invariant forall x :: 0 <= x < i ==> d[x, 0] == x
      invariant forall x, y :: 0 <= x < d.Length0 && 1 <= y < d.Length1 ==> d[x, y] == old(d[x, y])
    {
      d[i, 0] := i;
      i := i + 1;
    }
    var j := 0;
    while j < d.Length1
      invariant 0 <= j <= d.Length1
      invariant forall x :: 0 <= x < d.Length0 ==> d[x, 0] == x
      invariant forall y :: 0 <= y < j ==> d[0, y] == y
      invariant forall x, y :: 1 <= x < d.Length0 && 1 <= y < d.Length1 ==> d[x, y] == old(d[x, y])
    {
      d[0, j] := j;
      j := j + 1;
    }
  }

  /**
   * Fills the inner cells column by column (outer loop over j, inner loop
   * over i), each from its upper, left and upper-left neighbours, once the
   * first row and column are in place.  Afterwards every cell holds the
   * value of the recurrence.
   */
  method FillInner(d: array2<int>, a: string, b: string)
    requires Fits(d, a, b)
    requires forall x :: 0 <= x <= |a| ==> d[x, 0] == x
    requires forall y :: 0 <= y <= |b| ==> d[0, y] == y
    modifies d
    ensures forall x, y {:trigger d[x, y]} :: 0 <= x <= |a| && 0 <= y <= |b| ==> d[x, y] == Lev(a[..x], b[..y])
  {
    var j := 1;
    while j <= |b|
      invariant 1 <= j <= |b| + 1
      invariant forall x, y {:trigger d[x, y]} :: 0 <= x <= |a| && 0 <= y < j ==> d[x, y] == Lev(a[..x], b[..y])
      invariant forall y :: j <= y <= |b| ==> d[0, y] == y
    {
      var i := 1;
      while i <= |a|
        invariant 1 <= i <= |a| + 1
        invariant forall x, y {:trigger d[x, y]} :: 0 <= x <= |a| && 0 <= y < j ==> d[x, y] == Lev(a[..x], b[..y])
        invariant forall y :: j <= y <= |b| ==> d[0, y] == y
        invariant forall x {:trigger d[x, j]} :: 0 <= x < i ==> d[x, j] == Lev(a[..x], b[..j])
      {
        var cost := Cost(a[i - 1], b[j - 1]);
        d[i, j] := Min3(d[i - 1, j] + 1, d[i, j - 1] + 1, d[i - 1, j - 1] + cost);
        LevCell(a, b, i, j);
        assert d[i, j] == Lev(a[..i], b[..j]);
        i := i + 1;
      }
      j := j + 1;
    }
  }

  /**
   * `levenshteinDistance`: folds both strings to lower case, allocates the
   * table, initialises its borders, fills it, and returns its bottom-right
   * cell, which is the distance of the folded strings.
   */
  method LevenshteinDistance(s1: string, s2: string) returns (r: int)
    ensures r == Lev(Lower(s1), Lower(s2))
  {
    var a := Lower(s1);
    var b := Lower(s2);
    var d := new int[|a| + 1, |b| + 1];
    InitBorders(d);
    FillInner(d, a, b);
    r := d[|a|, |b|];
    assert a[..|a|] == a && b[..|b|] == b;
  }

  /** Case is ignored: folding the arguments first does not change the distance. */
  lemma DistanceIgnoresCase(s1: string, s2: string)
    ensures Distance(s1, s2) == Distance(Lower(s1), Lower(s2))
  {
    LowerIdempotent(s1);
    LowerIdempotent(s2);
  }

  /** The distance to or from the empty string is the other string's length. */
  lemma DistanceToEmpty(s: string)
    ensures Distance("", s) == |s| && Distance(s, "") == |s|
  {
  }

  /** The distance is zero exactly when the strings agree up to case. */
  lemma DistanceZeroIff(s1: string, s2: string)
    ensures Distance(s1, s2) == 0 <==> Lower(s1) == Lower(s2)
  {
    LevZeroIff(Lower(s1), Lower(s2));
  }

  /** The distance does not depend on the order of the arguments. */
  lemma DistanceSymmetric(s1: string, s2: string)
    ensures Distance(s1, s2) == Distance(s2, s1)
  {
    LevSymmetric(Lower(s1), Lower(s2));
  }

  /** The case-insensitive distance obeys the triangle inequality. */
  lemma DistanceTriangle(s1: string, s2: string, s3: string)
    ensures Distance(s1, s3) <= Distance(s1, s2) + Distance(s2, s3)
  {
    LevTriangle(Lower(s1), Lower(s2), Lower(s3));
  }
}
