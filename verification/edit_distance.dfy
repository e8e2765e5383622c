/** The two edit distances the integration scripts compare names with: plain
    Levenshtein (teams against championship entries) and the restricted
    Damerau-Levenshtein distance, also called optimal string alignment, which
    also counts the swap of two adjacent characters as one edit (players and
    teams against the season tables and the salary tables).

    Each distance is given twice: as a recursive definition of the entry
    D[i][j] of the dynamic-programming table, over the first `i` characters of
    one string and the first `j` of the other, and as the method that fills an
    (m+1) x (n+1) table row by row as the scripts do. */
module EditDistance {

  function Min(x: nat, y: nat): nat {
    if x <= y then x else y
  }

  function Min3(x: nat, y: nat, z: nat): nat {
    Min(Min(x, y), z)
  }

  function Max(x: nat, y: nat): nat {
    if x >= y then x else y
  }

  /** How far apart two lengths are. */
  function Gap(x: nat, y: nat): nat {
    if x >= y then x - y else y - x
  }

  /** Substitution cost of the i-th character of `a` for the j-th of `b` (1-based). */
  function Cost(a: string, b: string, i: nat, j: nat): nat
    requires 1 <= i <= |a| && 1 <= j <= |b|
  {
    if a[i - 1] == b[j - 1] then 0 else 1
  }

  // ---------------------------------------------------------------------------
  // Levenshtein

  /** Entry D[i][j] of the Levenshtein table. */
  function Lev(a: string, b: string, i: nat, j: nat): nat
    requires i <= |a| && j <= |b|
    decreases i + j
  {
    if i == 0 then j
    else if j == 0 then i
    else Min3(Lev(a, b, i - 1, j) + 1,                      // deletion
              Lev(a, b, i, j - 1) + 1,                      // insertion
              Lev(a, b, i - 1, j - 1) + Cost(a, b, i, j))   // substitution
  }

  function Levenshtein(a: string, b: string): nat {
    Lev(a, b, |a|, |b|)
  }

  /** The scripts' `levenshtein_distance`: fills the whole table, first column
      and first row with their indices, then every inner cell from its three
      neighbours, and answers with the bottom-right cell. */
  method LevenshteinDistance(s1: string, s2: string) returns (r: nat)
    ensures r == Levenshtein(s1, s2)
  {
    var matrix := new nat[|s1| + 1, |s2| + 1];
    for i := 0 to |s1| + 1
      invariant forall p :: 0 <= p < i ==> matrix[p, 0] == p
    {
      matrix[i, 0] := i;
    }
    for j := 0 to |s2| + 1
      invariant forall p :: 0 <= p <= |s1| ==> matrix[p, 0] == p
      invariant forall q :: 0 <= q < j ==> matrix[0, q] == q
    {
      matrix[0, j] := j;
    }
    for i := 1 to |s1| + 1
      invariant forall p, q {:trigger matrix[p, q]} :: 0 <= p < i && 0 <= q <= |s2| ==> matrix[p, q] == Lev(s1, s2, p, q)
      invariant forall p :: i <= p <= |s1| ==> matrix[p, 0] == p
    {
      for j := 1 to |s2| + 1
        invariant forall p, q {:trigger matrix[p, q]} :: 0 <= p < i && 0 <= q <= |s2| ==> matrix[p, q] == Lev(s1, s2, p, q)
        invariant forall q {:trigger matrix[i, q]} :: 0 <= q < j ==> matrix[i, q] == Lev(s1, s2, i, q)
        invariant forall p :: i < p <= |s1| ==> matrix[p, 0] == p
      {
        FillLevenshteinCell(s1, s2, matrix, i, j);
      }
    }
    r := matrix[|s1|, |s2|];
  }

  /** The body of the inner loop of `levenshtein_distance`: cell (i, j) from
      its three neighbours, which already hold their final values. */
  method FillLevenshteinCell(s1: string, s2: string, matrix: array2<nat>, i: nat, j: nat)
    requires 1 <= i <= |s1| && 1 <= j <= |s2|
    requires matrix.Length0 == |s1| + 1 && matrix.Length1 == |s2| + 1
    requires matrix[i - 1, j] == Lev(s1, s2, i - 1, j) && matrix[i, j - 1] == Lev(s1, s2, i, j - 1)
    requires matrix[i - 1, j - 1] == Lev(s1, s2, i - 1, j - 1)
    modifies matrix
    ensures matrix[i, j] == Lev(s1, s2, i, j)
    ensures forall p, q {:trigger matrix[p, q]} ::
              0 <= p < matrix.Length0 && 0 <= q < matrix.Length1 && (p != i || q != j) ==> matrix[p, q] == old(matrix[p, q])
  {
    var cost := if s1[i - 1] == s2[j - 1] then 0 else 1;
    matrix[i, j] := Min3(matrix[i - 1, j] + 1, matrix[i, j - 1] + 1, matrix[i - 1, j - 1] + cost);
  }

  /** An inner cell stays within the bounds when its three neighbours do. */
  lemma CellWithinBounds(i: nat, j: nat, up: nat, left: nat, diag: nat, cost: nat)
    requires i >= 1 && j >= 1 && cost <= 1
    requires Gap(i - 1, j) <= up && Gap(i, j - 1) <= left
    requires Gap(i - 1, j - 1) <= diag <= Max(i - 1, j - 1)
    ensures Gap(i, j) <= Min3(up + 1, left + 1, diag + cost) <= Max(i, j)
  {
  }

  lemma {:induction false} LevBounds(a: string, b: string, i: nat, j: nat)
    requires i <= |a| && j <= |b|
    ensures Gap(i, j) <= Lev(a, b, i, j) <= Max(i, j)
    decreases i + j
  {
    if i > 0 && j > 0 {
      LevBounds(a, b, i - 1, j);
      LevBounds(a, b, i, j - 1);
      LevBounds(a, b, i - 1, j - 1);
      CellWithinBounds(i, j, Lev(a, b, i - 1, j), Lev(a, b, i, j - 1), Lev(a, b, i - 1, j - 1), Cost(a, b, i, j));
    }
  }

  /** The distance is at least the difference of the lengths and at most the
      longer length; from or to the empty string it is the other length. */
  lemma LevenshteinBounds(a: string, b: string)
    ensures Gap(|a|, |b|) <= Levenshtein(a, b) <= Max(|a|, |b|)
    ensures a == [] ==> Levenshtein(a, b) == |b|
    ensures b == [] ==> Levenshtein(a, b) == |a|
  {
    LevBounds(a, b, |a|, |b|);
  }

  lemma {:induction false} LevZeroIffEqual(a: string, b: string, i: nat, j: nat)
    requires i <= |a| && j <= |b|
    ensures Lev(a, b, i, j) == 0 <==> a[..i] == b[..j]
    decreases i + j
  {
    if i > 0 && j > 0 {
      LevZeroIffEqual(a, b, i - 1, j - 1);
      assert a[..i] == a[..i - 1] + [a[i - 1]];
      assert b[..j] == b[..j - 1] + [b[j - 1]];
      if a[..i] == b[..j] {
        assert a[..i][..i - 1] == a[..i - 1] && b[..j][..j - 1] == b[..j - 1];
      }
    }
  }

  /** Distance zero means equal strings and nothing else; `distance(s, s) == 0`. */
  lemma LevenshteinZeroIffEqual(a: string, b: string)
    ensures Levenshtein(a, b) == 0 <==> a == b
  {
    LevZeroIffEqual(a, b, |a|, |b|);
    assert a[..|a|] == a && b[..|b|] == b;
  }

  lemma {:induction false} LevSymmetric(a: string, b: string, i: nat, j: nat)
    requires i <= |a| && j <= |b|
    ensures Lev(a, b, i, j) == Lev(b, a, j, i)
    decreases i + j
  {
    if i > 0 && j > 0 {
      LevSymmetric(a, b, i - 1, j);
      LevSymmetric(a, b, i, j - 1);
      LevSymmetric(a, b, i - 1, j - 1);
      var x, y, z := Lev(a, b, i - 1, j), Lev(a, b, i, j - 1), Lev(a, b, i - 1, j - 1);
      assert Lev(a, b, i, j) == Min3(x + 1, y + 1, z + Cost(a, b, i, j));
      assert Lev(b, a, j, i) == Min3(y + 1, x + 1, z + Cost(a, b, i, j));
    }
  }

  lemma LevenshteinSymmetric(a: string, b: string)
    ensures Levenshtein(a, b) == Levenshtein(b, a)
  {
    LevSymmetric(a, b, |a|, |b|);
  }

  /** Without transpositions, swapping two different characters costs two
      edits: `distance("ab", "ba") == 2`. */
  lemma LevenshteinSwappedPair(x: char, y: char)
    requires x != y
    ensures Levenshtein([x, y], [y, x]) == 2
  {
    var a, b := [x, y], [y, x];
    assert Lev(a, b, 1, 1) == Min3(Lev(a, b, 0, 1) + 1, Lev(a, b, 1, 0) + 1, Lev(a, b, 0, 0) + 1) == 1;
    assert Lev(a, b, 1, 2) == Min3(Lev(a, b, 0, 2) + 1, Lev(a, b, 1, 1) + 1, Lev(a, b, 0, 1) + 0) == 1;
    assert Lev(a, b, 2, 1) == Min3(Lev(a, b, 1, 1) + 1, Lev(a, b, 2, 0) + 1, Lev(a, b, 1, 0) + 0) == 1;
    assert Lev(a, b, 2, 2) == Min3(Lev(a, b, 1, 2) + 1, Lev(a, b, 2, 1) + 1, Lev(a, b, 1, 1) + 1) == 2;
  }

  // ---------------------------------------------------------------------------
  // Restricted Damerau-Levenshtein (optimal string alignment)

  /** The last two characters of the two prefixes are each other's swap. */
  predicate Transposed(a: string, b: string, i: nat, j: nat)
    requires i <= |a| && j <= |b|
  {
    i > 1 && j > 1 && a[i - 1] == b[j - 2] && a[i - 2] == b[j - 1]
  }

  /** Entry D[i][j] of the optimal-string-alignment table. */
  function Osa(a: string, b: string, i: nat, j: nat): nat
    requires i <= |a| && j <= |b|
    decreases i + j
  {
    if i == 0 then j
    else if j == 0 then i
    else OsaCell(a, b, i, j, Osa(a, b, i - 1, j), Osa(a, b, i, j - 1), Osa(a, b, i - 1, j - 1),
                 if i > 1 && j > 1 then Osa(a, b, i - 2, j - 2) else 0)
  }

  /** An inner cell from the cells above, to the left, diagonally before, and
      two rows and two columns back (the last one used only for a transposition). */
  function OsaCell(a: string, b: string, i: nat, j: nat, up: nat, left: nat, diag: nat, back2: nat): nat
    requires 1 <= i <= |a| && 1 <= j <= |b|
  {
    var edit := Min3(up + 1, left + 1, diag + Cost(a, b, i, j));
    if Transposed(a, b, i, j) then Min(edit, back2 + Cost(a, b, i, j)) else edit
  }

  lemma OsaUnfold(a: string, b: string, i: nat, j: nat)
    requires 1 <= i <= |a| && 1 <= j <= |b|
    ensures Osa(a, b, i, j) == OsaCell(a, b, i, j, Osa(a, b, i - 1, j), Osa(a, b, i, j - 1), Osa(a, b, i - 1, j - 1),
                                       if i > 1 && j > 1 then Osa(a, b, i - 2, j - 2) else 0)
  {
  }

  function Damerau(a: string, b: string): nat {
    Osa(a, b, |a|, |b|)
  }

  /** The scripts' `damerau_levenshtein_distance`: the Levenshtein table, where
      a cell whose prefixes end in swapped pairs may also take the cell two rows
      and two columns back plus the substitution cost. */
  method DamerauDistance(s1: string, s2: string) returns (r: nat)
    ensures r == Damerau(s1, s2)
  {
    var d := new nat[|s1| + 1, |s2| + 1];
    for i := 0 to |s1| + 1
      invariant forall p :: 0 <= p < i ==> d[p, 0] == p
    {
      d[i, 0] := i;
    }
    for j := 0 to |s2| + 1
      invariant forall p :: 0 <= p <= |s1| ==> d[p, 0] == p
      invariant forall q :: 0 <= q < j ==> d[0, q] == q
    {
      d[0, j] := j;
    }
    for i := 1 to |s1| + 1
      invariant forall p, q {:trigger d[p, q]} :: 0 <= p < i && 0 <= q <= |s2| ==> d[p, q] == Osa(s1, s2, p, q)
      invariant forall p :: i <= p <= |s1| ==> d[p, 0] == p
    {
      FillDamerauRow(s1, s2, d, i);
    }
    r := d[|s1|, |s2|];
  }

  /** One pass of the inner loop of `damerau_levenshtein_distance`: row `i`,
      left to right, once the rows above it are final. */
  method FillDamerauRow(s1: string, s2: string, d: array2<nat>, i: nat)
    requires 1 <= i <= |s1| && d.Length0 == |s1| + 1 && d.Length1 == |s2| + 1
    requires forall p, q {:trigger d[p, q]} :: 0 <= p < i && 0 <= q <= |s2| ==> d[p, q] == Osa(s1, s2, p, q)
    requires forall p :: i <= p <= |s1| ==> d[p, 0] == p
    modifies d
    ensures forall p, q {:trigger d[p, q]} :: 0 <= p <= i && 0 <= q <= |s2| ==> d[p, q] == Osa(s1, s2, p, q)
    ensures forall p :: i < p <= |s1| ==> d[p, 0] == p
  {
    for j := 1 to |s2| + 1
      invariant forall p, q {:trigger d[p, q]} :: 0 <= p < i && 0 <= q <= |s2| ==> d[p, q] == Osa(s1, s2, p, q)
      invariant forall q {:trigger d[i, q]} :: 0 <= q < j ==> d[i, q] == Osa(s1, s2, i, q)
      invariant forall p :: i < p <= |s1| ==> d[p, 0] == p
    {
      FillDamerauCell(s1, s2, d, i, j);
    }
  }

  /** The body of the inner loop of `damerau_levenshtein_distance`: cell (i, j)
      from its neighbours, which already hold their final values. */
  method FillDamerauCell(s1: string, s2: string, d: array2<nat>, i: nat, j: nat)
    requires 1 <= i <= |s1| && 1 <= j <= |s2|
    requires d.Length0 == |s1| + 1 && d.Length1 == |s2| + 1
    requires d[i - 1, j] == Osa(s1, s2, i - 1, j) && d[i, j - 1] == Osa(s1, s2, i, j - 1)
    requires d[i - 1, j - 1] == Osa(s1, s2, i - 1, j - 1)
    requires i > 1 && j > 1 ==> d[i - 2, j - 2] == Osa(s1, s2, i - 2, j - 2)
    modifies d
    ensures d[i, j] == Osa(s1, s2, i, j)
    ensures forall p, q {:trigger d[p, q]} ::
              0 <= p < d.Length0 && 0 <= q < d.Length1 && (p != i || q != j) ==> d[p, q] == old(d[p, q])
  {
    ghost var back2 := if i > 1 && j > 1 then d[i - 2, j - 2] else 0;
    assert Osa(s1, s2, i, j) == OsaCell(s1, s2, i, j, d[i - 1, j], d[i, j - 1], d[i - 1, j - 1], back2);
    var cost := if s1[i - 1] == s2[j - 1] then 0 else 1;
    d[i, j] := Min3(d[i - 1, j] + 1, d[i, j - 1] + 1, d[i - 1, j - 1] + cost);
    if i > 1 && j > 1 && s1[i - 1] == s2[j - 2] && s1[i - 2] == s2[j - 1] {
      d[i, j] := Min(d[i, j], d[i - 2, j - 2] + cost);
    }
  }

  lemma OsaCellWithinBounds(a: string, b: string, i: nat, j: nat, up: nat, left: nat, diag: nat, back2: nat)
    requires 1 <= i <= |a| && 1 <= j <= |b|
    requires Gap(i - 1, j) <= up && Gap(i, j - 1) <= left
    requires Gap(i - 1, j - 1) <= diag <= Max(i - 1, j - 1)
    requires Transposed(a, b, i, j) ==> Gap(i - 2, j - 2) <= back2
    ensures Gap(i, j) <= OsaCell(a, b, i, j, up, left, diag, back2) <= Max(i, j)
  {
    CellWithinBounds(i, j, up, left, diag, Cost(a, b, i, j));
  }

  lemma {:induction false} OsaBounds(a: string, b: string, i: nat, j: nat)
    requires i <= |a| && j <= |b|
    ensures Gap(i, j) <= Osa(a, b, i, j) <= Max(i, j)
    decreases i + j
  {
    if i > 0 && j > 0 {
      OsaBounds(a, b, i - 1, j);
      OsaBounds(a, b, i, j - 1);
      OsaBounds(a, b, i - 1, j - 1);
      var back2 := 0;
      if i > 1 && j > 1 {
        OsaBounds(a, b, i - 2, j - 2);
        back2 := Osa(a, b, i - 2, j - 2);
      }
      OsaCellWithinBounds(a, b, i, j, Osa(a, b, i - 1, j), Osa(a, b, i, j - 1), Osa(a, b, i - 1, j - 1), back2);
    }
  }

  /** Same bounds as for Levenshtein: from or to the empty string the distance
      is the other length, and it never exceeds the longer length. */
  lemma DamerauBounds(a: string, b: string)
    ensures Gap(|a|, |b|) <= Damerau(a, b) <= Max(|a|, |b|)
    ensures a == [] ==> Damerau(a, b) == |b|
    ensures b == [] ==> Damerau(a, b) == |a|
  {
    OsaBounds(a, b, |a|, |b|);
  }

  /** An inner cell is zero exactly when the diagonal step, or the
      transposition step, costs nothing. */
  lemma OsaCellZero(a: string, b: string, i: nat, j: nat, up: nat, left: nat, diag: nat, back2: nat)
    requires 1 <= i <= |a| && 1 <= j <= |b|
    ensures OsaCell(a, b, i, j, up, left, diag, back2) == 0 <==>
              diag + Cost(a, b, i, j) == 0 || (Transposed(a, b, i, j) && back2 + Cost(a, b, i, j) == 0)
  {
  }

  /** Two prefixes are equal exactly when they are one character shorter and
      that character agrees. */
  lemma PrefixesGrow(a: string, b: string, i: nat, j: nat)
    requires 1 <= i <= |a| && 1 <= j <= |b|
    ensures a[..i] == b[..j] <==> a[..i - 1] == b[..j - 1] && a[i - 1] == b[j - 1]
  {
    assert a[..i] == a[..i - 1] + [a[i - 1]];
    assert b[..j] == b[..j - 1] + [b[j - 1]];
    if a[..i] == b[..j] {
      assert a[..i][..i - 1] == a[..i - 1] && b[..j][..j - 1] == b[..j - 1];
    }
  }

  lemma {:induction false} OsaZeroIffEqual(a: string, b: string, i: nat, j: nat)
    requires i <= |a| && j <= |b|
    ensures Osa(a, b, i, j) == 0 <==> a[..i] == b[..j]
    decreases i + j
  {
    if i > 0 && j > 0 {
      var up, left, diag := Osa(a, b, i - 1, j), Osa(a, b, i, j - 1), Osa(a, b, i - 1, j - 1);
      var back2 := if i > 1 && j > 1 then Osa(a, b, i - 2, j - 2) else 0;
      assert Osa(a, b, i, j) == OsaCell(a, b, i, j, up, left, diag, back2);
      OsaCellZero(a, b, i, j, up, left, diag, back2);
      OsaZeroIffEqual(a, b, i - 1, j - 1);
      PrefixesGrow(a, b, i, j);
      if Transposed(a, b, i, j) && back2 + Cost(a, b, i, j) == 0 {
        OsaZeroIffEqual(a, b, i - 2, j - 2);
        PrefixesGrow(a, b, i - 1, j - 1);
      }
    } else {
      assert a[..0] == [] && b[..0] == [];
    }
  }

  /** Distance zero means equal strings and nothing else; `distance(s, s) == 0`.
      With the scripts' default threshold 0 this is what makes a match exact. */
  lemma DamerauZeroIffEqual(a: string, b: string)
    ensures Damerau(a, b) == 0 <==> a == b
  {
    OsaZeroIffEqual(a, b, |a|, |b|);
    assert a[..|a|] == a && b[..|b|] == b;
  }

  lemma OsaCellSymmetric(a: string, b: string, i: nat, j: nat, up: nat, left: nat, diag: nat, back2: nat)
    requires 1 <= i <= |a| && 1 <= j <= |b|
    ensures OsaCell(a, b, i, j, up, left, diag, back2) == OsaCell(b, a, j, i, left, up, diag, back2)
  {
    assert Transposed(a, b, i, j) == Transposed(b, a, j, i);
  }

  lemma {:induction false} OsaSymmetric(a: string, b: string, i: nat, j: nat)
    requires i <= |a| && j <= |b|
    ensures Osa(a, b, i, j) == Osa(b, a, j, i)
    decreases i + j
  {
    if i > 0 && j > 0 {
      OsaSymmetric(a, b, i - 1, j);
      OsaSymmetric(a, b, i, j - 1);
      OsaSymmetric(a, b, i - 1, j - 1);
      var back2 := 0;
      if i > 1 && j > 1 {
        OsaSymmetric(a, b, i - 2, j - 2);
        back2 := Osa(a, b, i - 2, j - 2);
      }
      assert Transposed(a, b, i, j) == Transposed(b, a, j, i);
      var up, left, diag := Osa(a, b, i - 1, j), Osa(a, b, i, j - 1), Osa(a, b, i - 1, j - 1);
      OsaUnfold(a, b, i, j);
      OsaUnfold(b, a, j, i);
      OsaCellSymmetric(a, b, i, j, up, left, diag, back2);
    }
  }

  lemma DamerauSymmetric(a: string, b: string)
    ensures Damerau(a, b) == Damerau(b, a)
  {
    OsaSymmetric(a, b, |a|, |b|);
  }

  lemma {:induction false} OsaAtMostLev(a: string, b: string, i: nat, j: nat)
    requires i <= |a| && j <= |b|
    ensures Osa(a, b, i, j) <= Lev(a, b, i, j)
    decreases i + j
  {
    if i > 0 && j > 0 {
      OsaAtMostLev(a, b, i - 1, j);
      OsaAtMostLev(a, b, i, j - 1);
      OsaAtMostLev(a, b, i - 1, j - 1);
      OsaAtMostLevStep(a, b, i, j);
    }
  }

  lemma OsaAtMostLevStep(a: string, b: string, i: nat, j: nat)
    requires 1 <= i <= |a| && 1 <= j <= |b|
    requires Osa(a, b, i - 1, j) <= Lev(a, b, i - 1, j)
    requires Osa(a, b, i, j - 1) <= Lev(a, b, i, j - 1)
    requires Osa(a, b, i - 1, j - 1) <= Lev(a, b, i - 1, j - 1)
    ensures Osa(a, b, i, j) <= Lev(a, b, i, j)
  {
    OsaUnfold(a, b, i, j);
    OsaCellAtMostEdit(a, b, i, j, Osa(a, b, i - 1, j), Osa(a, b, i, j - 1), Osa(a, b, i - 1, j - 1),
                      if i > 1 && j > 1 then Osa(a, b, i - 2, j - 2) else 0,
                      Lev(a, b, i - 1, j), Lev(a, b, i, j - 1), Lev(a, b, i - 1, j - 1));
  }

  /** A cell computed from smaller neighbours is no larger than the
      substitution-only cell computed from larger ones. */
  lemma OsaCellAtMostEdit(a: string, b: string, i: nat, j: nat, up: nat, left: nat, diag: nat, back2: nat,
                          up': nat, left': nat, diag': nat)
    requires 1 <= i <= |a| && 1 <= j <= |b|
    requires up <= up' && left <= left' && diag <= diag'
    ensures OsaCell(a, b, i, j, up, left, diag, back2) <= Min3(up' + 1, left' + 1, diag' + Cost(a, b, i, j))
  {
  }

  /** The transposition case only ever lowers a distance. */
  lemma DamerauAtMostLevenshtein(a: string, b: string)
    ensures Damerau(a, b) <= Levenshtein(a, b)
  {
    OsaAtMostLev(a, b, |a|, |b|);
  }

  /** `s` with its characters at `k` and `k + 1` exchanged. */
  function Swap(s: string, k: nat): (t: string)
    requires k + 1 < |s|
    ensures |t| == |s| && t[k] == s[k + 1] && t[k + 1] == s[k]
    ensures forall n :: 0 <= n < |s| && n != k && n != k + 1 ==> t[n] == s[n]
  {
    s[..k] + [s[k + 1], s[k]] + s[k + 2..]
  }

  lemma {:induction false} OsaAfterSwap(s: string, k: nat, n: nat)
    requires k + 2 <= n <= |s| && s[k] != s[k + 1]
    ensures Osa(s, Swap(s, k), n, n) <= 1
    decreases n
  {
    var t := Swap(s, k);
    if n == k + 2 {
      assert s[..k] == t[..k];
      OsaZeroIffEqual(s, t, k, k);
      assert Transposed(s, t, n, n);
    } else {
      OsaAfterSwap(s, k, n - 1);
      assert Cost(s, t, n, n) == 0;
    }
  }

  /** Swapping two different adjacent characters is exactly one edit. */
  lemma AdjacentSwapCostsOne(s: string, k: nat)
    requires k + 1 < |s| && s[k] != s[k + 1]
    ensures Damerau(s, Swap(s, k)) == 1
  {
    var t := Swap(s, k);
    OsaAfterSwap(s, k, |s|);
    DamerauZeroIffEqual(s, t);
    assert s[k] != t[k];
  }

  lemma DamerauAbBa()
    ensures Damerau("ab", "ba") == 1
  {
    assert Swap("ab", 0) == "ba";
    AdjacentSwapCostsOne("ab", 0);
  }
}
