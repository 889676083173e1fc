/** Differences between witness texts (`diff-calculator.ts`): the
    Levenshtein table, the similarity score, the pairwise difference matrix
    and the colour band of a difference percentage. */
module DiffCalculator {

  function Min(a: int, b: int): int {
    if a <= b then a else b
  }

  /** `Math.min(a, b, c)`. */
  function Min3(a: int, b: int, c: int): (r: int)
    ensures r <= a && r <= b && r <= c
    ensures r == a || r == b || r == c
  {
    Min(Min(a, b), c)
  }

  function Max(a: int, b: int): int {
    if a >= b then a else b
  }

  /** The table entry `dp[i][j]`: the distance between the first `i`
      characters of `s` and the first `j` characters of `t`.  Equal last
      characters copy the diagonal; otherwise the entry is one more than the
      least of deleting, inserting and substituting. */
  function Lev(s: string, t: string, i: nat, j: nat): nat
    requires i <= |s| && j <= |t|
    decreases i + j
  {
    if i == 0 then j
    else if j == 0 then i
    else if s[i - 1] == t[j - 1] then Lev(s, t, i - 1, j - 1)
    else 1 + Min3(Lev(s, t, i - 1, j), Lev(s, t, i, j - 1), Lev(s, t, i - 1, j - 1))
  }

  /** The distance of two whole strings. */
  function Distance(s: string, t: string): nat {
    Lev(s, t, |s|, |t|)
  }

  /** `levenshteinDistance`: fills the table row by row. */
  method LevenshteinDistance(str1: string, str2: string) returns (d: nat)
    ensures d == Distance(str1, str2)
  {
    var m, n := |str1|, |str2|;
    var dp := new int[m + 1, n + 1]((_, _) => 0);
    for i := 0 to m + 1
      invariant forall a | 0 <= a < i :: dp[a, 0] == a
    {
      dp[i, 0] := i;
    }
    for j := 0 to n + 1
      invariant forall a | 0 <= a <= m :: dp[a, 0] == a
      invariant forall b | 0 <= b < j :: dp[0, b] == b
    {
      dp[0, j] := j;
    }
    for i := 1 to m + 1
      invariant forall a, b {:trigger Lev(str1, str2, a, b)} | 0 <= a < i && 0 <= b <= n :: dp[a, b] == Lev(str1, str2, a, b)
      invariant forall a | i <= a <= m :: dp[a, 0] == a
    {
      FillRow(str1, str2, dp, i);
    }
    assert dp[m, n] == Lev(str1, str2, m, n);
    d := dp[m, n];
  }

  /** One pass of the inner loop: row `i` from the rows above it and
      `dp[i][0]`. */
  method FillRow(str1: string, str2: string, dp: array2<int>, i: nat)
    requires dp.Length0 == |str1| + 1 && dp.Length1 == |str2| + 1 && 1 <= i <= |str1|
    requires forall a, b {:trigger Lev(str1, str2, a, b)} | 0 <= a < i && 0 <= b <= |str2| :: dp[a, b] == Lev(str1, str2, a, b)
    requires forall a | i <= a <= |str1| :: dp[a, 0] == a
    modifies dp
    ensures forall a, b {:trigger Lev(str1, str2, a, b)} | 0 <= a <= i && 0 <= b <= |str2| :: dp[a, b] == Lev(str1, str2, a, b)
    ensures forall a | i < a <= |str1| :: dp[a, 0] == a
  {
    var n := |str2|;
    for j := 1 to n + 1
      invariant forall a, b {:trigger Lev(str1, str2, a, b)} | 0 <= a < i && 0 <= b <= n :: dp[a, b] == Lev(str1, str2, a, b)
      invariant forall b {:trigger dp[i, b]} | 0 <= b < j :: dp[i, b] == Lev(str1, str2, i, b)
      invariant forall a | i < a <= |str1| :: dp[a, 0] == a
    {
      if str1[i - 1] == str2[j - 1] {
        dp[i, j] := dp[i - 1, j - 1];
      } else {
        dp[i, j] := Min3(dp[i - 1, j] + 1, dp[i, j - 1] + 1, dp[i - 1, j - 1] + 1);
      }
    }
  }

  // ---------------------------------------------------------------------
  // Properties of the distance

  /** Against an empty string the distance is the other string's length. */
  lemma DistanceToEmpty(s: string)
    ensures Distance(s, "") == |s| && Distance("", s) == |s|
  {
  }

  /** A string is at distance 0 from itself. */
  lemma {:induction false} LevSelf(s: string, i: nat)
    requires i <= |s|
    ensures Lev(s, s, i, i) == 0
  {
    if i > 0 {
      LevSelf(s, i - 1);
    }
  }

  /** The distance is at most the longer length. */
  lemma {:induction false} LevAtMost(s: string, t: string, i: nat, j: nat)
    requires i <= |s| && j <= |t|
    ensures Lev(s, t, i, j) <= Max(i, j)
    decreases i + j
  {
    if i > 0 && j > 0 {
      LevAtMost(s, t, i - 1, j - 1);
    }
  }

  /** The distance is at least the difference of the lengths. */
  lemma {:induction false} LevAtLeast(s: string, t: string, i: nat, j: nat)
    requires i <= |s| && j <= |t|
    ensures Lev(s, t, i, j) >= i - j && Lev(s, t, i, j) >= j - i
    decreases i + j
  {
    if i > 0 && j > 0 {
      LevAtLeast(s, t, i - 1, j - 1);
      if s[i - 1] != t[j - 1] {
        LevAtLeast(s, t, i - 1, j);
        LevAtLeast(s, t, i, j - 1);
      }
    }
  }

  /** The table is symmetric: swapping the strings swaps the indices. */
  lemma {:induction false} LevSymmetric(s: string, t: string, i: nat, j: nat)
    requires i <= |s| && j <= |t|
    ensures Lev(s, t, i, j) == Lev(t, s, j, i)
    decreases i + j
  {
    if i > 0 && j > 0 {
      LevSymmetric(s, t, i - 1, j - 1);
      if s[i - 1] != t[j - 1] {
        LevSymmetric(s, t, i - 1, j);
        LevSymmetric(s, t, i, j - 1);
      }
    }
  }

  /** Distance 0 means the prefixes are equal. */
  lemma {:induction false} LevZero(s: string, t: string, i: nat, j: nat)
    requires i <= |s| && j <= |t| && Lev(s, t, i, j) == 0
    ensures s[..i] == t[..j]
    decreases i + j
  {
    LevAtLeast(s, t, i, j);
    if i > 0 {
      LevZero(s, t, i - 1, j - 1);
      assert s[..i] == s[..i - 1] + [s[i - 1]];
      assert t[..j] == t[..j - 1] + [t[j - 1]];
    }
  }

  /** The distance is 0 exactly for equal strings, and it is symmetric and
      between the length difference and the longer length. */
  lemma DistanceProperties(s: string, t: string)
    ensures Distance(s, t) == 0 <==> s == t
    ensures Distance(s, t) == Distance(t, s)
    ensures Distance(s, t) <= Max(|s|, |t|)
    ensures Distance(s, t) >= |s| - |t| && Distance(s, t) >= |t| - |s|
  {
    if s == t {
      LevSelf(s, |s|);
    }
    if Distance(s, t) == 0 {
      LevZero(s, t, |s|, |t|);
      assert s == s[..|s|] && t == t[..|t|];
    }
    LevSymmetric(s, t, |s|, |t|);
    LevAtMost(s, t, |s|, |t|);
    LevAtLeast(s, t, |s|, |t|);
  }

  // ---------------------------------------------------------------------
  // Similarity

  /** `calculateSimilarity`: 1 for identical texts, 0 when one of them is
      empty, otherwise one minus the distance over the longer length. */
  function Similarity(text1: string, text2: string): real {
    if text1 == text2 then 1.0
    else if text1 == "" || text2 == "" then 0.0
    else 1.0 - (Distance(text1, text2) as real) / (Max(|text1|, |text2|) as real)
  }

  /** `calculateSimilarity`, running the table. */
  method CalculateSimilarity(text1: string, text2: string) returns (r: real)
    ensures r == Similarity(text1, text2)
  {
    if text1 == text2 {
      return 1.0;
    }
    if text1 == "" || text2 == "" {
      return 0.0;
    }
    var distance := LevenshteinDistance(text1, text2);
    var maxLength := Max(|text1|, |text2|);
    r := 1.0 - (distance as real) / (maxLength as real);
  }

  /** The score lies in [0, 1], is 1 exactly for identical texts, is 0 when
      exactly one text is empty, and does not depend on the order. */
  lemma SimilarityRange(text1: string, text2: string)
    ensures 0.0 <= Similarity(text1, text2) <= 1.0
    ensures Similarity(text1, text2) == 1.0 <==> text1 == text2
    ensures (text1 == "") != (text2 == "") ==> Similarity(text1, text2) == 0.0
    ensures Similarity(text1, text2) == Similarity(text2, text1)
  {
    DistanceProperties(text1, text2);
    if text1 != text2 && text1 != "" && text2 != "" {
      var d, l := Distance(text1, text2) as real, Max(|text1|, |text2|) as real;
      RatioInUnit(d, l);
      assert Similarity(text1, text2) == 1.0 - d / l;
    }
  }

  /** A positive amount over a no smaller one is a ratio in (0, 1]. */
  lemma RatioInUnit(d: real, l: real)
    requires 0.0 < d <= l
    ensures 0.0 < d / l <= 1.0
  {
    var q := d / l;
    assert q * l == d;
  }

  // ---------------------------------------------------------------------
  // Difference matrix

  /** The entry `[i][j]` of the difference matrix: 0 on the diagonal, and
      the percentage of the earlier segment against the later one
      elsewhere. */
  function DifferenceAt(segments: seq<string>, percent: (string, string) -> int, i: nat, j: nat): int
    requires i < |segments| && j < |segments|
  {
    if i == j then 0
    else if i < j then percent(segments[i], segments[j])
    else percent(segments[j], segments[i])
  }

  /** `createDifferenceMatrix`, the percentage function passed in: each pair
      `i < j` is computed once and written to both `[i][j]` and `[j][i]`. */
  method CreateDifferenceMatrix(segments: seq<string>, percent: (string, string) -> int)
    returns (matrix: array2<int>)
    ensures fresh(matrix)
    ensures matrix.Length0 == |segments| && matrix.Length1 == |segments|
    ensures forall i, j | 0 <= i < |segments| && 0 <= j < |segments| ::
      matrix[i, j] == DifferenceAt(segments, percent, i, j)
  {
    var n := |segments|;
    matrix := new int[n, n]((_, _) => 0);
    for i := 0 to n
      invariant forall a, b | 0 <= a < n && 0 <= b < n ::
        matrix[a, b] == if a < i || b < i then DifferenceAt(segments, percent, a, b) else 0
    {
      for j := i + 1 to n
        invariant forall a, b | 0 <= a < n && 0 <= b < n ::
          matrix[a, b] ==
            if a < i || b < i || (a == i && b < j) || (b == i && a < j) then DifferenceAt(segments, percent, a, b)
            else 0
      {
        var diff := percent(segments[i], segments[j]);
        matrix[i, j] := diff;
        matrix[j, i] := diff;
      }
    }
  }

  /** The matrix has a zero diagonal and is symmetric. */
  lemma MatrixSymmetric(segments: seq<string>, percent: (string, string) -> int, i: nat, j: nat)
    requires i < |segments| && j < |segments|
    ensures DifferenceAt(segments, percent, i, i) == 0
    ensures DifferenceAt(segments, percent, i, j) == DifferenceAt(segments, percent, j, i)
  {
  }

  // ---------------------------------------------------------------------
  // Colour bands

  /** `DIFFERENCE_COLORS`, from no change to complete rewrite. */
  const Palette: seq<string> := ["#22c55e", "#3b82f6", "#eab308", "#f97316", "#ef4444"]

  /** `getDifferenceColor`: the checks run in order, 0 first. */
  function GetDifferenceColor(differencePercentage: real): string {
    if differencePercentage == 0.0 then "#22c55e"
    else if differencePercentage <= 25.0 then "#3b82f6"
    else if differencePercentage <= 50.0 then "#eab308"
    else if differencePercentage <= 75.0 then "#f97316"
    else "#ef4444"
  }

  /** The band of a percentage: 0 for no change, otherwise one more than the
      number of the thresholds 25, 50 and 75 that it exceeds. */
  function Band(p: real): (b: nat)
    ensures b < |Palette|
  {
    if p == 0.0 then 0
    else 1 + (if p > 25.0 then 1 else 0) + (if p > 50.0 then 1 else 0) + (if p > 75.0 then 1 else 0)
  }

  /** The colour is the palette entry of the band, so exactly one band is
      chosen, and the five colours are distinct. */
  lemma ColorOfBand(p: real)
    ensures GetDifferenceColor(p) == Palette[Band(p)]
    ensures forall a, b | 0 <= a < b < |Palette| :: Palette[a] != Palette[b]
  {
  }

  /** A larger non-negative percentage never gets a milder band. */
  lemma BandMonotone(p: real, q: real)
    requires 0.0 <= p <= q
    ensures Band(p) <= Band(q)
  {
  }
}
