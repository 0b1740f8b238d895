/**
 * Levenshtein distance as computed by `levenshteinDistance` in js/search-utils.js:
 * a dynamic program over a (|b|+1) x (|a|+1) matrix whose cell [i, j] holds the
 * distance between the first i characters of b and the first j characters of a.
 */
module EditDistance {

  function Min3(x: nat, y: nat, z: nat): (m: nat)
    ensures m <= x && m <= y && m <= z
    ensures m == x || m == y || m == z
  {
    if x <= y && x <= z then x else if y <= z then y else z
  }

  /**
   * The recurrence the matrix satisfies, cell by cell: an empty side costs the length
   * of the other; equal last characters cost what the two shorter prefixes cost;
   * otherwise one substitution, insertion or deletion is paid on top of the cheapest
   * of the three neighbouring cells.
   */
  function Lev(a: string, b: string): nat
    decreases |a| + |b|
  {
    if |a| == 0 then |b|
    else if |b| == 0 then |a|
    else if a[|a| - 1] == b[|b| - 1] then Lev(a[..|a| - 1], b[..|b| - 1])
    else 1 + Min3(Lev(a[..|a| - 1], b[..|b| - 1]), Lev(a[..|a| - 1], b), Lev(a, b[..|b| - 1]))
  }

  /** The matrix algorithm of the source, on a two-dimensional array filled in place. */
  method LevenshteinDistance(a: string, b: string) returns (d: nat)
    ensures d == Lev(a, b)
  {
    var matrix := new nat[|b| + 1, |a| + 1];
    FillBorders(matrix, a, b);
    // The rest of the matrix, row by row.
    for i := 1 to |b| + 1
      invariant forall k, l :: 0 <= k < i && 0 <= l <= |a| ==> matrix[k, l] == Lev(a[..l], b[..k])
      invariant forall k :: i <= k <= |b| ==> matrix[k, 0] == k
    {
      FillRow(matrix, a, b, i);
    }
    assert a[..|a|] == a && b[..|b|] == b;
    d := matrix[|b|, |a|];
  }

  /** The first column and the first row: the distances from and to an empty prefix. */
  method FillBorders(matrix: array2<nat>, a: string, b: string)
    requires matrix.Length0 == |b| + 1 && matrix.Length1 == |a| + 1
    modifies matrix
    ensures forall k :: 0 <= k <= |b| ==> matrix[k, 0] == k
    ensures forall l :: 0 <= l <= |a| ==> matrix[0, l] == Lev(a[..l], b[..0])
  {
    for i := 0 to |b| + 1
      invariant forall k :: 0 <= k < i ==> matrix[k, 0] == k
    {
      matrix[i, 0] := i;
    }
    for j := 0 to |a| + 1
      invariant forall k :: 0 <= k <= |b| ==> matrix[k, 0] == k
      invariant forall l :: 0 <= l < j ==> matrix[0, l] == l
    {
      matrix[0, j] := j;
    }
  }

  /** Row i, left to right, from row i - 1 and the cell to the left. */
  method FillRow(matrix: array2<nat>, a: string, b: string, i: nat)
    requires matrix.Length0 == |b| + 1 && matrix.Length1 == |a| + 1 && 1 <= i <= |b|
    requires forall k, l :: 0 <= k < i && 0 <= l <= |a| ==> matrix[k, l] == Lev(a[..l], b[..k])
    requires matrix[i, 0] == i
    modifies matrix
    ensures forall l :: 0 <= l <= |a| ==> matrix[i, l] == Lev(a[..l], b[..i])
    ensures forall k, l :: 0 <= k <= |b| && k != i && 0 <= l <= |a| ==> matrix[k, l] == old(matrix[k, l])
  {
    assert matrix[i, 0] == Lev(a[..0], b[..i]);
    for j := 1 to |a| + 1
      invariant forall l :: 0 <= l < j ==> matrix[i, l] == Lev(a[..l], b[..i])
      invariant forall k, l :: 0 <= k <= |b| && k != i && 0 <= l <= |a| ==> matrix[k, l] == old(matrix[k, l])
    {
      LevCell(a, b, i, j);
      if b[i - 1] == a[j - 1] {
        matrix[i, j] := matrix[i - 1, j - 1];
      } else {
        matrix[i, j] := Min3(
          matrix[i - 1, j - 1] + 1,  // substitution
          matrix[i, j - 1] + 1,      // insertion
          matrix[i - 1, j] + 1       // deletion
        );
      }
    }
  }

  /** The recurrence at one inner cell of the matrix, in terms of its three neighbours. */
  lemma {:induction false} LevCell(a: string, b: string, i: nat, j: nat)
    requires 1 <= i <= |b| && 1 <= j <= |a|
    ensures b[i - 1] == a[j - 1] ==> Lev(a[..j], b[..i]) == Lev(a[..j - 1], b[..i - 1])
    ensures b[i - 1] != a[j - 1] ==>
              Lev(a[..j], b[..i])
                == Min3(Lev(a[..j - 1], b[..i - 1]) + 1, Lev(a[..j - 1], b[..i]) + 1, Lev(a[..j], b[..i - 1]) + 1)
  {
    var x, y := a[..j], b[..i];
    assert x[..j - 1] == a[..j - 1] && y[..i - 1] == b[..i - 1];
    assert x[j - 1] == a[j - 1] && y[i - 1] == b[i - 1];
    LevLast(x, y);
  }

  /** The recurrence for two non-empty strings, with the +1 inside the minimum. */
  lemma {:induction false} LevLast(x: string, y: string)
    requires |x| > 0 && |y| > 0
    ensures x[|x| - 1] == y[|y| - 1] ==> Lev(x, y) == Lev(x[..|x| - 1], y[..|y| - 1])
    ensures x[|x| - 1] != y[|y| - 1] ==>
              Lev(x, y) == Min3(Lev(x[..|x| - 1], y[..|y| - 1]) + 1, Lev(x[..|x| - 1], y) + 1, Lev(x, y[..|y| - 1]) + 1)
  {
  }

  /** A string is at distance 0 from itself. */
  lemma {:induction false} LevSelf(a: string)
    ensures Lev(a, a) == 0
    decreases |a|
  {
    if |a| > 0 {
      LevSelf(a[..|a| - 1]);
    }
  }

  /** Distance 0 means the strings are equal, and only then. */
  lemma {:induction false} LevZeroIffEqual(a: string, b: string)
    ensures Lev(a, b) == 0 <==> a == b
    decreases |a| + |b|
  {
    if a == b {
      LevSelf(a);
    } else if |a| > 0 && |b| > 0 && a[|a| - 1] == b[|b| - 1] {
      LevZeroIffEqual(a[..|a| - 1], b[..|b| - 1]);
      assert a == a[..|a| - 1] + [a[|a| - 1]] && b == b[..|b| - 1] + [b[|b| - 1]];
    }
  }

  /** The distance does not depend on the order of its arguments. */
  lemma {:induction false} LevSymmetric(a: string, b: string)
    ensures Lev(a, b) == Lev(b, a)
    decreases |a| + |b|
  {
    if |a| > 0 && |b| > 0 {
      var a', b' := a[..|a| - 1], b[..|b| - 1];
      LevSymmetric(a', b');
      if a[|a| - 1] != b[|b| - 1] {
        LevSymmetric(a', b);
        LevSymmetric(a, b');
      }
    }
  }

  /**
   * The distance lies between the difference of the lengths and the larger length; in
   * particular the distance to or from the empty string is the other string's length.
   */
  lemma {:induction false} LevBounds(a: string, b: string)
    ensures Lev(a, b) >= |a| - |b| && Lev(a, b) >= |b| - |a|
    ensures Lev(a, b) <= if |a| >= |b| then |a| else |b|
    decreases |a| + |b|
  {
    if |a| > 0 && |b| > 0 {
      var a', b' := a[..|a| - 1], b[..|b| - 1];
      LevBounds(a', b');
      if a[|a| - 1] != b[|b| - 1] {
        LevBounds(a', b);
        LevBounds(a, b');
      }
    }
  }

  /** Adding or dropping the last character of one side changes the distance by at most
      one. */
  lemma {:induction false} LevNeighbours(x: string, y: string)
    requires |x| > 0
    ensures Lev(x, y) <= Lev(x[..|x| - 1], y) + 1
    ensures Lev(x[..|x| - 1], y) <= Lev(x, y) + 1
    decreases |x| + |y|
  {
    var x' := x[..|x| - 1];
    if |y| == 0 {
    } else if |x'| == 0 {
      LevBounds(x, y);
    } else {
      var y' := y[..|y| - 1];
      // Lev(x', y) is within one of Lev(x', y'), through the mirrored pair.
      LevNeighbours(y, x');
      LevSymmetric(y, x');
      LevSymmetric(y', x');
      if x[|x| - 1] != y[|y| - 1] {
        LevNeighbours(x, y');
      }
    }
  }

  /** The same on the second string. */
  lemma {:induction false} LevNeighboursRight(x: string, y: string)
    requires |y| > 0
    ensures Lev(x, y) <= Lev(x, y[..|y| - 1]) + 1
    ensures Lev(x, y[..|y| - 1]) <= Lev(x, y) + 1
  {
    LevNeighbours(y, x);
    LevSymmetric(x, y);
    LevSymmetric(x, y[..|y| - 1]);
  }

  /**
   * The source's recurrence is the textbook one: taking only the diagonal on equal last
   * characters loses nothing, so the distance is the cheapest of a free or paid
   * diagonal step, a deletion and an insertion.
   */
  lemma {:induction false} LevStandard(x: string, y: string)
    requires |x| > 0 && |y| > 0
    ensures var x', y' := x[..|x| - 1], y[..|y| - 1];
      Lev(x, y) == Min3(Lev(x', y') + (if x[|x| - 1] == y[|y| - 1] then 0 else 1), Lev(x', y) + 1, Lev(x, y') + 1)
  {
    var x', y' := x[..|x| - 1], y[..|y| - 1];
    var d, l, u := Lev(x', y'), Lev(x', y), Lev(x, y');
    LevLast(x, y);
    if x[|x| - 1] == y[|y| - 1] {
      // The diagonal is within one of both other neighbours.
      LevNeighboursRight(x', y);
      LevNeighbours(x, y');
      assert d <= l + 1 && d <= u + 1;
    }
  }

  /** The textbook recurrence as bounds: each of its three steps bounds the distance
      from above, and the distance is reached by one of them. */
  lemma {:induction false} LevSteps(x: string, y: string)
    requires |x| > 0 && |y| > 0
    ensures var x', y' := x[..|x| - 1], y[..|y| - 1];
      var diag := Lev(x', y') + (if x[|x| - 1] == y[|y| - 1] then 0 else 1);
      && Lev(x, y) <= diag && Lev(x, y) <= Lev(x', y) + 1 && Lev(x, y) <= Lev(x, y') + 1
      && (Lev(x, y) == diag || Lev(x, y) == Lev(x', y) + 1 || Lev(x, y) == Lev(x, y') + 1)
  {
    LevStandard(x, y);
  }

  /** The distance obeys the triangle inequality. */
  lemma {:induction false} LevTriangle(a: string, b: string, c: string)
    ensures Lev(a, c) <= Lev(a, b) + Lev(b, c)
    decreases |a| + |b| + |c|
  {
    if |a| == 0 || |c| == 0 {
      LevBounds(a, b);
      LevBounds(b, c);
    } else if |b| == 0 {
      LevBounds(a, c);
    } else {
      var a', b', c' := a[..|a| - 1], b[..|b| - 1], c[..|c| - 1];
      LevSteps(a, b);
      LevSteps(b, c);
      LevSteps(a, c);
      var ab, bc, ac := Lev(a, b), Lev(b, c), Lev(a, c);
      if ab == Lev(a', b) + 1 {
        LevTriangle(a', b, c);
        assert ac <= Lev(a', c) + 1;
      } else if bc == Lev(b, c') + 1 {
        LevTriangle(a, b, c');
        assert ac <= Lev(a, c') + 1;
      } else if ab == Lev(a, b') + 1 {
        if bc == Lev(b', c) + 1 {
          LevTriangle(a, b', c);
        } else {
          LevTriangle(a, b', c');
          assert ac <= Lev(a, c') + 1 && Lev(b', c') <= bc;
        }
      } else if bc == Lev(b', c) + 1 {
        LevTriangle(a', b', c);
        assert ac <= Lev(a', c) + 1 && Lev(a', b') <= ab;
      } else {
        LevTriangle(a', b', c');
      }
    }
  }
}
