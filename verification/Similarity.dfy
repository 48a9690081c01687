/** LevenshteinRatio: the two-row table with its two early cutoffs.
    `Ratio` is what the method returns, in closed form; the lemmas after it relate `Ratio` to the
    edit distance and show what the cutoffs do to the matcher's threshold of 0.85.
 */
module Similarity {
  import opened Common
  import opened EditDistance

  function MaxLen(a: Text, b: Text): nat {
    if |b| > |a| then |b| else |a|
  }

  function LengthGap(a: Text, b: Text): nat {
    if |a| > |b| then |a| - |b| else |b| - |a|
  }

  /** The share of `total` that is left when `distance` is taken away. */
  function Score(distance: nat, total: nat): real
    requires total > 0
  {
    1.0 - distance as real / total as real
  }

  lemma ScoreOrder(x: nat, y: nat, total: nat)
    requires total > 0
    ensures x <= y <==> Score(x, total) >= Score(y, total)
  {
    var d, m := (y - x) as real, total as real;
    assert Score(x, total) - Score(y, total) == d / m;
  }

  lemma ScoreEnds(total: nat)
    requires total > 0
    ensures Score(0, total) == 1.0 && Score(total, total) == 0.0
  {
  }

  lemma ScoreBelow(x: nat, total: nat, percent: nat)
    requires total > 0
    ensures Score(x, total) < percent as real / 100.0 <==> 100 * x > (100 - percent) * total
    ensures Score(x, total) <= percent as real / 100.0 <==> 100 * x >= (100 - percent) * total
  {
    var q, m := percent as real / 100.0, total as real;
    ScaledScore(Score(x, total), q, m);
    assert Score(x, total) * m == m - x as real;
  }

  lemma ScaledScore(s: real, q: real, m: real)
    requires m > 0.0
    ensures s < q <==> s * m < q * m
    ensures s == q <==> s * m == q * m
  {
    assert (q - s) * m == q * m - s * m;
  }

  /** The similarity that the table is there to compute. */
  ghost function TrueRatio(a: Text, b: Text): real {
    if MaxLen(a, b) == 0 then 1.0 else Score(Lev(a, b), MaxLen(a, b))
  }

  // ----- Rows of the table

  /** The least entry among the first j + 1 columns of the row for `a`. */
  ghost function RowMinUpTo(a: Text, b: Text, j: nat): nat
    requires j <= |b|
  {
    if j == 0 then |a| else Min(RowMinUpTo(a, b, j - 1), Lev(a, b[..j]))
  }

  ghost function RowMin(a: Text, b: Text): nat {
    RowMinUpTo(a, b, |b|)
  }

  /** The table entry at row i, column j. */
  ghost function Cell(a: Text, b: Text, i: nat, j: nat): nat
    requires i <= |a| && j <= |b|
  {
    Lev(a[..i], b[..j])
  }

  /** The entry at row i, column j, from its three neighbours. */
  lemma TableStep(a: Text, b: Text, i: nat, j: nat)
    requires 1 <= i <= |a| && 1 <= j <= |b|
    ensures Cell(a, b, i, j)
         == if a[i - 1] == b[j - 1] then Cell(a, b, i - 1, j - 1)
            else 1 + Min(Cell(a, b, i - 1, j - 1), Min(Cell(a, b, i - 1, j), Cell(a, b, i, j - 1)))
    ensures RowMinUpTo(a[..i], b, j) == Min(RowMinUpTo(a[..i], b, j - 1), Cell(a, b, i, j))
  {
    assert Init(a[..i]) == a[..i - 1] && Init(b[..j]) == b[..j - 1];
  }

  lemma TableEdges(a: Text, b: Text, i: nat, j: nat)
    requires i <= |a| && j <= |b|
    ensures Cell(a, b, 0, j) == j && Cell(a, b, i, 0) == i == RowMinUpTo(a[..i], b, 0)
  {
    assert a[..0] == [] && b[..0] == [];
  }

  lemma {:induction false} RowMinIsLeast(a: Text, b: Text, k: nat, j: nat)
    requires k <= j <= |b|
    ensures RowMinUpTo(a, b, j) <= Lev(a, b[..k])
  {
    if k < j {
      RowMinIsLeast(a, b, k, j - 1);
    } else if j == 0 {
      assert b[..0] == [];
    }
  }

  /** No entry of the row for `a` is below the least entry of the row above it. */
  lemma {:induction false} RowsGrow(a: Text, b: Text, j: nat)
    requires a != [] && j <= |b|
    ensures RowMin(Init(a), b) <= Lev(a, b[..j])
    ensures RowMin(Init(a), b) <= RowMinUpTo(a, b, j)
  {
    hide Lev, RowMinUpTo;
    RowMinIsLeast(Init(a), b, j, |b|);
    if j == 0 {
      RowStarts(a, b);
    } else {
      RowsGrow(a, b, j - 1);
      RowMinIsLeast(Init(a), b, j - 1, |b|);
      var t, u := b[..j], b[..j - 1];
      assert Init(t) == u;
      LevStep(a, t);
      RowMinMore(a, b, j);
    }
  }

  lemma RowStarts(a: Text, b: Text)
    requires a != []
    ensures Lev(a, b[..0]) == |a| == RowMinUpTo(a, b, 0) && Lev(Init(a), b[..0]) == |a| - 1
  {
    assert b[..0] == [];
  }

  lemma RowMinMore(a: Text, b: Text, j: nat)
    requires 0 < j <= |b|
    ensures RowMinUpTo(a, b, j) == Min(RowMinUpTo(a, b, j - 1), Lev(a, b[..j]))
  {
    hide Lev;
  }

  /** Row minima never decrease from one row to any later one. */
  lemma {:induction false} RowMinMonotone(a: Text, b: Text, i: nat)
    requires i <= |a|
    ensures RowMin(a[..i], b) <= RowMin(a, b)
    decreases |a| - i
  {
    if i == |a| {
      assert a[..i] == a;
    } else {
      RowsGrow(a[..i + 1], b, |b|);
      assert Init(a[..i + 1]) == a[..i];
      RowMinMonotone(a, b, i + 1);
    }
  }

  // ----- The two cutoffs

  function RowLimit(a: Text, b: Text): nat {
    MaxLen(a, b) * 15 / 100
  }

  /** The row cutoff fires in some row exactly when it fires in the last one. */
  ghost predicate RowCut(a: Text, b: Text) {
    RowMin(a, b) > RowLimit(a, b)
  }

  /** The row cutoff fires exactly when the row's minimum is more than 15 in 100 of the longer length. */
  lemma RowCutIff(a: Text, b: Text)
    ensures RowCut(a, b) <==> 100 * RowMin(a, b) > 15 * MaxLen(a, b)
  {
    hide RowMin;
    var m := MaxLen(a, b) * 15;
    assert m == 100 * (m / 100) + m % 100;
  }

  /** The quantity the source takes for a least possible distance, after row i. */
  function AssumedDistance(a: Text, b: Text, i: nat): nat
    requires i <= |a|
  {
    LengthGap(a, b) + |a| - i
  }

  /** The length cutoff fires in some row exactly when it fires in the first one. */
  ghost predicate LengthCut(a: Text, b: Text, threshold: real)
    requires a != []
  {
    Score(AssumedDistance(a, b, 1), MaxLen(a, b)) < threshold
  }

  /** The value that LevenshteinRatio returns. */
  ghost function Ratio(a: Text, b: Text, threshold: real): real {
    if a == b then 1.0
    else if a == [] || b == [] then 0.0
    else if RowCut(a, b) || LengthCut(a, b, threshold) then 0.0
    else TrueRatio(a, b)
  }

  /** `row` holds the table row for the first i bytes of `a`. */
  ghost predicate IsRow(row: seq<nat>, a: Text, b: Text, i: nat)
    requires i <= |a|
  {
    |row| == |b| + 1 && forall k :: 0 <= k <= |b| ==> row[k] == Cell(a, b, i, k)
  }

  /** The inner loop: row i into `curr` from row i - 1 in `prev`, and its least entry. */
  method ComputeRow(a: Text, b: Text, i: nat, prev: array<nat>, curr: array<nat>) returns (rowMin: nat)
    requires 1 <= i <= |a| && prev != curr && curr.Length == |b| + 1
    requires IsRow(prev[..], a, b, i - 1)
    modifies curr
    ensures IsRow(curr[..], a, b, i)
    ensures rowMin == RowMin(a[..i], b)
  {
    hide Cell, RowMinUpTo;
    ghost var above := prev[..];
    TableEdges(a, b, i, 0);
    curr[0] := i;
    rowMin := i;
    for j := 1 to |b| + 1
      invariant prev[..] == above
      invariant forall k :: 0 <= k < j ==> curr[k] == Cell(a, b, i, k)
      invariant rowMin == RowMinUpTo(a[..i], b, j - 1)
    {
      TableStep(a, b, i, j);
      assert prev[j - 1] == above[j - 1] && prev[j] == above[j];
      if a[i - 1] == b[j - 1] {
        curr[j] := prev[j - 1];
      } else {
        var minVal := prev[j - 1];
        if prev[j] < minVal { minVal := prev[j]; }
        if curr[j - 1] < minVal { minVal := curr[j - 1]; }
        curr[j] := 1 + minVal;
      }
      if curr[j] < rowMin { rowMin := curr[j]; }
    }
  }

  method LevenshteinRatio(a: Text, b: Text, threshold: real) returns (r: real)
    ensures r == Ratio(a, b, threshold)
  {
    hide Score, Lev;
    if a == b { return 1.0; }
    var firstLength, secondLength := |a|, |b|;
    if firstLength == 0 && secondLength == 0 { return 1.0; }
    if firstLength == 0 || secondLength == 0 { return 0.0; }

    var maxLen := firstLength;
    if secondLength > maxLen { maxLen := secondLength; }
    var earlyTerminationThreshold := maxLen * 15 / 100;

    var prev := new nat[secondLength + 1];
    var curr := new nat[secondLength + 1];
    for j := 0 to secondLength + 1
      invariant forall k :: 0 <= k < j ==> prev[k] == k
    {
      prev[j] := j;
    }
    forall k | 0 <= k <= |b| ensures Cell(a, b, 0, k) == k { TableEdges(a, b, 0, k); }

    for i := 1 to firstLength + 1
      invariant IsRow(prev[..], a, b, i - 1)
      invariant i > 1 ==> !LengthCut(a, b, threshold)
      invariant i > firstLength ==> !RowCut(a, b)
    {
      var rowMin := ComputeRow(a, b, i, prev, curr);
      if rowMin > earlyTerminationThreshold {
        RowMinMonotone(a, b, i);
        return 0.0;
      }
      assert i == firstLength ==> a[..i] == a;

      var minPossibleDistance: nat;
      if firstLength > secondLength {
        minPossibleDistance := firstLength - secondLength;
      } else {
        minPossibleDistance := secondLength - firstLength;
      }
      if i < firstLength {
        minPossibleDistance := minPossibleDistance + firstLength - i;
      }
      assert minPossibleDistance == AssumedDistance(a, b, i);
      var bestPossibleRatio := Score(minPossibleDistance, maxLen);
      if bestPossibleRatio < threshold {
        ScoreOrder(minPossibleDistance, AssumedDistance(a, b, 1), maxLen);
        return 0.0;
      }

      for j := 0 to secondLength + 1
        invariant forall k :: 0 <= k < j ==> prev[k] == curr[k]
        invariant IsRow(curr[..], a, b, i)
      {
        prev[j] := curr[j];
      }
      assert prev[..] == curr[..];
    }

    assert Cell(a, b, |a|, |b|) == Lev(a, b) by { assert a[..|a|] == a && b[..|b|] == b; }
    var distance := prev[secondLength];
    return Score(distance, maxLen);
  }

  // ----- What the result says about the distance

  /** A result is never above the true ratio: it is the true ratio, or 0. */
  lemma RatioNeverOverstates(a: Text, b: Text, threshold: real)
    ensures 0.0 <= TrueRatio(a, b) <= 1.0
    ensures Ratio(a, b, threshold) == 0.0 || Ratio(a, b, threshold) == TrueRatio(a, b)
    ensures Ratio(a, b, threshold) == 1.0 <==> a == b
  {
    hide Score, Lev;
    LevBounds(a, b);
    LevZero(a, b);
    var m := MaxLen(a, b);
    if m > 0 {
      ScoreEnds(m);
      ScoreOrder(0, Lev(a, b), m);
      ScoreOrder(Lev(a, b), 0, m);
      ScoreOrder(Lev(a, b), m, m);
    }
  }

  /** When the row cutoff fires, in any row, the distance exceeds 15% of the longer length. */
  lemma RowCutoffSound(a: Text, b: Text, i: nat)
    requires a != [] && b != [] && i <= |a|
    requires RowMin(a[..i], b) > RowLimit(a, b)
    ensures 100 * Lev(a, b) > 15 * MaxLen(a, b)
    ensures TrueRatio(a, b) < 0.85
  {
    hide Score;
    RowMinMonotone(a, b, i);
    RowMinIsLeast(a, b, |b|, |b|);
    assert b[..|b|] == b;
    ScoreBelow(Lev(a, b), MaxLen(a, b), 85);
  }

  /** The length cutoff is not sound: the method can return 0 for a pair above the threshold. */
  lemma LengthCutoffRejectsGoodPair()
    ensures var a, b: Text := [7, 7, 7, 7, 7, 7, 7], [7, 7, 7, 7, 7, 7, 8];
            Ratio(a, b, 0.85) == 0.0 && TrueRatio(a, b) > 0.85
  {
    hide Score;
    var a, b: Text := [7, 7, 7, 7, 7, 7, 7], [7, 7, 7, 7, 7, 7, 8];
    var e := Substitute(6, 8);
    assert Apply(e, a) == b;
    assert Transforms([e], a, b) by { assert Transforms([e][1..], b, b); }
    NoShorterScript([e], a, b);
    assert Score(1, 7) > 0.85 && Score(6, 7) < 0.85 by { SevenByteScores(); }
    ScoreOrder(Lev(a, b), 1, 7);
    assert AssumedDistance(a, b, 1) == 6;
    assert a[6] != b[6];
  }

  lemma SevenByteScores()
    ensures Score(1, 7) > 0.85 && Score(6, 7) < 0.85
  {
  }

  /** An entry of the last row, in hundredths, and the 15 in 100 of a length it must not exceed. */
  ghost predicate EntryOver(a: Text, b: Text, k: nat, longer: nat)
    requires k <= |b|
  {
    100 * Lev(a, b[..k]) > 15 * longer
  }

  lemma {:induction false} AllOver(a: Text, b: Text, j: nat, longer: nat)
    requires j <= |b|
    ensures 100 * RowMinUpTo(a, b, j) > 15 * longer <==> forall k: nat :: k <= j ==> EntryOver(a, b, k, longer)
  {
    hide Lev;
    if j == 0 {
      assert b[..0] == [] && Lev(a, []) == |a| by { LevOfNothing(a); }
      assert EntryOver(a, b, 0, longer) <==> 100 * RowMinUpTo(a, b, 0) > 15 * longer;
    } else {
      AllOver(a, b, j - 1, longer);
      assert EntryOver(a, b, j, longer) <==> 100 * Lev(a, b[..j]) > 15 * longer;
    }
  }

  lemma LevOfNothing(a: Text)
    ensures Lev(a, []) == |a|
  {
  }

  /** The result for two different texts that are not empty: 0 when all entries of the last row are more
      than 15 in 100 of the longer length, or when the length gap, with all rows but the first, leaves less
      than the threshold; and else the true ratio. */
  lemma RatioIs(a: Text, b: Text, threshold: real)
    requires a != b && a != [] && b != []
    ensures
      var longer := if |a| >= |b| then |a| else |b|;
      var gap := if |a| >= |b| then |a| - |b| else |b| - |a|;
      Ratio(a, b, threshold)
      == if forall k: nat :: k <= |b| ==> EntryOver(a, b, k, longer) then 0.0
         else if 1.0 - (gap + |a| - 1) as real / longer as real < threshold then 0.0
         else 1.0 - Lev(a, b) as real / longer as real
  {
    hide Lev, EntryOver, RowMinUpTo;
    AllOver(a, b, |b|, MaxLen(a, b));
    hide RowLimit, RowCut;
    RowCutIff(a, b);
  }

  /** A result is the true ratio exactly when no cutoff stood in the way, or the true ratio is 0. */
  lemma RatioExactIff(a: Text, b: Text, threshold: real)
    ensures Ratio(a, b, threshold) == TrueRatio(a, b)
       <==> || a == b
            || a == [] || b == []
            || Lev(a, b) == MaxLen(a, b)
            || !(RowCut(a, b) || LengthCut(a, b, threshold))
  {
    hide Score, Lev;
    LevBounds(a, b);
    LevZero(a, b);
    var m := MaxLen(a, b);
    if m > 0 {
      ScoreEnds(m);
      ScoreOrder(m, Lev(a, b), m);
    }
  }

  /** Above one half the assumed distance exceeds what the threshold allows for any two
      different strings, so the fuzzy score degenerates to equality. */
  lemma RatioCollapses(a: Text, b: Text, threshold: real)
    requires threshold > 0.5
    ensures Ratio(a, b, threshold) == if a == b then 1.0 else 0.0
  {
    hide Score, Lev;
    if a != b && a != [] && b != [] {
      if |a| == 1 && |b| == 1 {
        assert b[..1] == b;
        assert Lev(a, b) > 0 by { LevZero(a, b); }
        assert RowMin(a, b) == Min(RowMinUpTo(a, b, 0), Lev(a, b));
      } else {
        var gap, m := AssumedDistance(a, b, 1), MaxLen(a, b);
        assert 2 * gap >= m;
        ScoreBelow(gap, m, 50);
      }
    }
  }

  /** One half is the exact point: at or below it some different strings still score above 0. */
  lemma CollapseIff(threshold: real)
    ensures threshold > 0.5
       <==> forall a: Text, b: Text :: Ratio(a, b, threshold) == if a == b then 1.0 else 0.0
  {
    hide Score;
    if threshold > 0.5 {
      forall a: Text, b: Text ensures Ratio(a, b, threshold) == if a == b then 1.0 else 0.0 {
        RatioCollapses(a, b, threshold);
      }
    } else {
      HalfScoreIsOneOfTwo(threshold);
    }
  }

  lemma HalfScoreIsOneOfTwo(threshold: real)
    requires threshold <= 0.5
    ensures Ratio([7], [7, 8], threshold) == 0.5
  {
    var a, b: Text := [7], [7, 8];
    assert b[..1] == a && b[..2] == b && Init(b) == a;
    LevSame(a);
    assert Lev(a, b) == 1 by { LevZero(a, b); LevLipschitz(a, b); }
    assert RowMin(a, b) == Min(RowMinUpTo(a, b, 1), Lev(a, b));
    assert RowMinUpTo(a, b, 1) == Min(RowMinUpTo(a, b, 0), Lev(a, b[..1]));
    assert AssumedDistance(a, b, 1) == 1;
  }
}
