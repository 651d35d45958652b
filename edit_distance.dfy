/**
 * The Levenshtein distance as a recursive definition: the least number of
 * single-character deletions, insertions and substitutions that turn one
 * string into the other.  It is stated over the last characters of the two
 * strings, so that `Lev(a[..i], b[..j])` is exactly the cell (i, j) of the
 * Wagner-Fischer table, and the properties of the distance (bounds,
 * identity, symmetry, triangle inequality) are proved from it.
 */
module EditDistance {

  /** `Math.min` of three numbers: the smallest of them. */
  function Min3(x: int, y: int, z: int): (m: int)
    ensures m <= x && m <= y && m <= z
    ensures m == x || m == y || m == z
  {
    if x <= y && x <= z then x else if y <= z then y else z
  }

  /** The price of putting character `x` where `y` stands: nothing when they agree. */
  function Cost(x: char, y: char): (c: nat)
    ensures c <= 1
    ensures c == 0 <==> x == y
  {
    if x == y then 0 else 1
  }

  /**
   * Levenshtein distance.  With `a` and `b` non-empty, the last step of an
   * optimal edit either deletes the last character of `a`, inserts the last
   * character of `b`, or substitutes (or keeps) the last character of `a`.
   */
  function Lev(a: string, b: string): (d: nat)
    decreases |a| + |b|
  {
    if |a| == 0 then |b|
    else if |b| == 0 then |a|
    else
      var i, j := |a| - 1, |b| - 1;
      Min3(Lev(a[..i], b) + 1, Lev(a, b[..j]) + 1, Lev(a[..i], b[..j]) + Cost(a[i], b[j]))
  }

  /** The three ways to reach a non-empty pair each bound its distance from above. */
  lemma LevStepBounds(a: string, b: string)
    requires |a| > 0 && |b| > 0
    ensures Lev(a, b) <= Lev(a[..|a| - 1], b) + 1
    ensures Lev(a, b) <= Lev(a, b[..|b| - 1]) + 1
    ensures Lev(a, b) <= Lev(a[..|a| - 1], b[..|b| - 1]) + Cost(a[|a| - 1], b[|b| - 1])
  {
  }

  /** The distance of two non-empty strings is reached by one of the three possible last steps. */
  lemma LevLast(a: string, b: string)
    requires |a| > 0 && |b| > 0
    ensures || Lev(a, b) == Lev(a[..|a| - 1], b) + 1
            || Lev(a, b) == Lev(a, b[..|b| - 1]) + 1
            || Lev(a, b) == Lev(a[..|a| - 1], b[..|b| - 1]) + Cost(a[|a| - 1], b[|b| - 1])
  {
  }

  /** The distance is at least the difference of the lengths. */
  lemma {:induction false} LevLowerBound(a: string, b: string)
    ensures Lev(a, b) >= |a| - |b| && Lev(a, b) >= |b| - |a|
    decreases |a| + |b|
  {
    if |a| > 0 && |b| > 0 {
      var i, j := |a| - 1, |b| - 1;
      LevLowerBound(a[..i], b);
      LevLowerBound(a, b[..j]);
      LevLowerBound(a[..i], b[..j]);
    }
  }

  /** The distance is at most the length of the longer string. */
  lemma {:induction false} LevUpperBound(a: string, b: string)
    ensures Lev(a, b) <= if |a| >= |b| then |a| else |b|
    decreases |a| + |b|
  {
    if |a| > 0 && |b| > 0 {
      LevUpperBound(a[..|a| - 1], b[..|b| - 1]);
    }
  }

  /** A string is at distance zero from itself. */
  lemma {:induction false} LevSelf(a: string)
    ensures Lev(a, a) == 0
    decreases |a|
  {
    if |a| > 0 {
      LevSelf(a[..|a| - 1]);
    }
  }

  /** Distance zero means the strings are equal. */
  lemma {:induction false} LevZeroOnlyIfEqual(a: string, b: string)
    requires Lev(a, b) == 0
    ensures a == b
    decreases |a| + |b|
  {
    if |a| > 0 && |b| > 0 {
      var i, j := |a| - 1, |b| - 1;
      LevZeroOnlyIfEqual(a[..i], b[..j]);
      assert a == a[..i] + [a[i]];
      assert b == b[..j] + [b[j]];
    }
  }

  /** The distance is zero exactly for equal strings. */
  lemma LevZeroIff(a: string, b: string)
    ensures Lev(a, b) == 0 <==> a == b
  {
    if a == b { LevSelf(a); }
    if Lev(a, b) == 0 { LevZeroOnlyIfEqual(a, b); }
  }

  /** Turning `a` into `b` costs as much as turning `b` into `a`. */
  lemma {:induction false} LevSymmetric(a: string, b: string)
    ensures Lev(a, b) == Lev(b, a)
    decreases |a| + |b|
  {
    if |a| > 0 && |b| > 0 {
      var i, j := |a| - 1, |b| - 1;
      LevSymmetric(a[..i], b);
      LevSymmetric(a, b[..j]);
      LevSymmetric(a[..i], b[..j]);

    }
  }

  /** Going from `a` to `c` through `b` is never cheaper than going directly. */
  lemma {:induction false} LevTriangle(a: string, b: string, c: string)
    ensures Lev(a, c) <= Lev(a, b) + Lev(b, c)
    decreases |a| + |b| + |c|
  {
    if |a| == 0 {
      LevLowerBound(b, c);
    } else if |c| == 0 {
      LevLowerBound(a, b);
    } else if |b| == 0 {
      LevUpperBound(a, c);
    } else {
      var a', b', c' := a[..|a| - 1], b[..|b| - 1], c[..|c| - 1];
      var x, y, z := a[|a| - 1], b[|b| - 1], c[|c| - 1];
      LevStepBounds(a, c);
      if Lev(a, b) == Lev(a', b) + 1 {
        LevTriangle(a', b, c);
      } else if Lev(b, c) == Lev(b, c') + 1 {
        LevTriangle(a, b, c');
      } else if Lev(a, b) == Lev(a, b') + 1 {
        if Lev(b, c) == Lev(b', c) + 1 {
          LevTriangle(a, b', c);
        } else {
          assert Lev(b, c) == Lev(b', c') + Cost(y, z);
          LevTriangle(a, b', c');
        }
      } else {
        assert Lev(a, b) == Lev(a', b') + Cost(x, y);
        if Lev(b, c) == Lev(b', c) + 1 {
          LevTriangle(a', b', c);
        } else {
          assert Lev(b, c) == Lev(b', c') + Cost(y, z);
          LevTriangle(a', b', c');
        }
      }
    }
  }

  /** Appending the same characters to both strings never makes them further apart. */
  lemma {:induction false} LevCommonSuffix(s: string, t: string, u: string)
    ensures Lev(s + u, t + u) <= Lev(s, t)
    decreases |u|
  {
    if u == [] {
      assert s + u == s && t + u == t;
    } else {
      var u' := u[..|u| - 1];
      var a, b := s + u, t + u;
      assert a[..|a| - 1] == s + u' && b[..|b| - 1] == t + u';
      assert a[|a| - 1] == b[|b| - 1];
      LevDropLast(a, b);
      LevCommonSuffix(s, t, u');
    }
  }

  lemma LevDropLast(a: string, b: string)
    requires |a| > 0 && |b| > 0 && a[|a| - 1] == b[|b| - 1]
    ensures Lev(a, b) <= Lev(a[..|a| - 1], b[..|b| - 1])
  {
    LevStepBounds(a, b);
  }

  /** Swapping the last two characters, when they differ, costs two edits, never one. */
  lemma LevTransposition(p: string, x: char, y: char)
    requires x != y
    ensures Lev(p + [x, y], p + [y, x]) == 2
  {
    var a, b := p + [x, y], p + [y, x];
    assert a[..|a| - 1] == p + [x] && b[..|b| - 1] == p + [y];
    assert (p + [x])[..|p|] == p && (p + [y])[..|p|] == p;
    // At most two: two substitutions after the common `p`.
    LevStepBounds(a, b);
    LevStepBounds(p + [x], p + [y]);
    LevSelf(p);
    // At least two: each possible last step adds one to a distance of at least one.
    LevLast(a, b);
    LevLowerBound(p + [x], b);
    LevLowerBound(a, p + [y]);
    LevZeroIff(p + [x], p + [y]);
    assert (p + [x])[|p|] != (p + [y])[|p|];
  }

  /**
   * Swapping two adjacent characters anywhere in a string costs at most two
   * edits: the swap at the end of `p + [x, y]`, then the common suffix `q`.
   */
  lemma LevAdjacentSwap(p: string, x: char, y: char, q: string)
    ensures Lev(p + [x, y] + q, p + [y, x] + q) <= 2
  {
    if x == y {
      LevSelf(p + [x, y] + q);
    } else {
      LevTransposition(p, x, y);
      LevCommonSuffix(p + [x, y], p + [y, x], q);
    }
  }

  /** How many characters of `s` belong to `C`. */
  function CountIn(s: string, C: set<char>): (n: nat)
    ensures n <= |s|
  {
    if s == [] then 0
    else CountIn(s[..|s| - 1], C) + (if s[|s| - 1] in C then 1 else 0)
  }

  /**
   * One edit adds or removes at most one character of `C`, so the distance
   * is at least the number of characters from `C` that `a` has beyond `b`.
   */
  lemma {:induction false} LevCountBound(a: string, b: string, C: set<char>)
    ensures Lev(a, b) >= CountIn(a, C) - CountIn(b, C)
    decreases |a| + |b|
  {
    if |a| > 0 && |b| > 0 {
      var i, j := |a| - 1, |b| - 1;
      LevCountBound(a[..i], b, C);
      LevCountBound(a, b[..j], C);
      LevCountBound(a[..i], b[..j], C);
    }
  }
}
