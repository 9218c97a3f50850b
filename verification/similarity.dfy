/** Title similarity: difflib's `SequenceMatcher(None, a, b).ratio()` (the
    Ratcliff/Obershelp "gestalt" matcher) on normalised titles, with the ratio
    kept as an exact fraction. */
module Similarity {
  import opened Normalize

  /** `a[i..i+k]` and `b[j..j+k]` are the same block of characters. */
  predicate IsMatch(a: string, b: string, i: int, j: int, k: int) {
    0 <= i && 0 <= j && 0 <= k && i + k <= |a| && j + k <= |b| && a[i..i + k] == b[j..j + k]
  }

  /** A matching block: start in `a`, start in `b`, length. */
  datatype Block = Block(i: nat, j: nat, k: nat)

  /** `(i, j)` comes strictly before `(i', j')`: earlier in `a`, or as early
      in `a` and earlier in `b`. */
  predicate Before(i: int, j: int, i': int, j': int) {
    i < i' || (i == i' && j < j')
  }

  /** Length of the longest common prefix of `a` and `b`. */
  function CommonPrefix(a: string, b: string): (k: nat)
    ensures k <= |a| && k <= |b| && a[..k] == b[..k]
    ensures k < |a| && k < |b| ==> a[k] != b[k]
  {
    if |a| > 0 && |b| > 0 && a[0] == b[0] then 1 + CommonPrefix(a[1..], b[1..]) else 0
  }

  /** The longest block that starts at `a[i]` and `b[j]`. */
  function RunAt(a: string, b: string, i: nat, j: nat): (k: nat)
    requires i <= |a| && j <= |b|
    ensures IsMatch(a, b, i, j, k)
  {
    var k := CommonPrefix(a[i..], b[j..]);
    assert a[i..i + k] == a[i..][..k];
    assert b[j..j + k] == b[j..][..k];
    k
  }

  /** No block starting at `(i, j)` is longer than the run there. */
  lemma MatchWithinRun(a: string, b: string, i: nat, j: nat, k: nat)
    requires IsMatch(a, b, i, j, k)
    ensures k <= RunAt(a, b, i, j)
  {
  }

  /** `m` is what the search returns after visiting, in order, every start
      pair before `(i, j)`: the earliest of the longest runs seen, or
      `(0, 0, 0)` when every run seen was empty. */
  ghost predicate BestSoFar(a: string, b: string, m: Block, i: int, j: int) {
    && IsMatch(a, b, m.i, m.j, m.k)
    && (forall i', j' | 0 <= i' < |a| && 0 <= j' < |b| && Before(i', j', i, j) ::
          RunAt(a, b, i', j') <= m.k)
    && (m.k == 0 ==> m.i == 0 && m.j == 0)
    && (m.k > 0 ==>
          && m.i < |a| && m.j < |b| && Before(m.i, m.j, i, j)
          && RunAt(a, b, m.i, m.j) == m.k
          && forall i', j' | 0 <= i' < |a| && 0 <= j' < |b| && Before(i', j', m.i, m.j) ::
               RunAt(a, b, i', j') < m.k)
  }

  /** Visits `(i, j), (i, j + 1), ...` to the end of row `i`, replacing the
      best block only by a strictly longer run. */
  function ScanRow(a: string, b: string, i: nat, j: nat, best: Block): (r: Block)
    requires i < |a| && j <= |b|
    requires BestSoFar(a, b, best, i, j)
    ensures BestSoFar(a, b, r, i, |b|)
    decreases |b| - j
  {
    if j == |b| then best
    else
      var run := RunAt(a, b, i, j);
      var next := if run > best.k then Block(i, j, run) else best;
      assert BestSoFar(a, b, next, i, j + 1);
      ScanRow(a, b, i, j + 1, next)
  }

  /** Visits rows `i, i + 1, ...` of `a` in order. */
  function ScanRows(a: string, b: string, i: nat, best: Block): (r: Block)
    requires i <= |a|
    requires BestSoFar(a, b, best, i, 0)
    ensures BestSoFar(a, b, r, |a|, 0)
    decreases |a| - i
  {
    if i == |a| then best
    else
      var row := ScanRow(a, b, i, 0, best);
      assert BestSoFar(a, b, row, i + 1, 0);
      ScanRows(a, b, i + 1, row)
  }

  /** `find_longest_match` with no junk: a longest common block, and among
      those the one starting earliest in `a`, then earliest in `b`; `(0, 0, 0)`
      when the strings share no character. */
  function LongestMatch(a: string, b: string): (m: Block)
    ensures IsMatch(a, b, m.i, m.j, m.k)
    ensures forall i, j, k | IsMatch(a, b, i, j, k) :: k <= m.k
    ensures forall i, j | IsMatch(a, b, i, j, m.k) :: m.i < i || (m.i == i && m.j <= j)
  {
    var m := ScanRows(a, b, 0, Block(0, 0, 0));
    forall i, j, k | IsMatch(a, b, i, j, k)
      ensures k <= m.k
    {
      if k > 0 {
        MatchWithinRun(a, b, i, j, k);
      }
    }
    forall i, j | IsMatch(a, b, i, j, m.k)
      ensures m.i < i || (m.i == i && m.j <= j)
    {
      if m.k > 0 {
        MatchWithinRun(a, b, i, j, m.k);
      }
    }
    m
  }

  /** The total size of the matching blocks `get_matching_blocks` finds:
      take the longest match, then recurse on the parts to its left and to
      its right. At most the length of either string. */
  function MatchedChars(a: string, b: string): (m: nat)
    ensures m <= |a| && m <= |b|
    decreases |a|
  {
    var lm := LongestMatch(a, b);
    if lm.k == 0 then 0
    else
      lm.k
      + MatchedChars(a[..lm.i], b[..lm.j])
      + MatchedChars(a[lm.i + lm.k..], b[lm.j + lm.k..])
  }

  /** A string matched against itself is one block covering all of it. */
  lemma MatchedCharsSelf(a: string)
    ensures MatchedChars(a, a) == |a|
  {
    var lm := LongestMatch(a, a);
    assert IsMatch(a, a, 0, 0, |a|);
    if |a| > 0 {
      assert lm.i == 0 && lm.j == 0 && lm.k == |a|;
      assert MatchedChars(a[..0], a[..0]) == 0;
      assert MatchedChars(a[|a|..], a[|a|..]) == 0;
    }
  }

  lemma SharedCharMatches(a: string, b: string, i: nat, j: nat)
    requires i < |a| && j < |b|
    ensures a[i] == b[j] ==> LongestMatch(a, b).k >= 1
  {
    if a[i] == b[j] {
      assert IsMatch(a, b, i, j, 1);
    }
  }

  /** Nothing matches exactly when the strings have no character in common. */
  lemma MatchedCharsZeroIff(a: string, b: string)
    ensures MatchedChars(a, b) == 0 <==> forall i, j | 0 <= i < |a| && 0 <= j < |b| :: a[i] != b[j]
  {
    var lm := LongestMatch(a, b);
    if MatchedChars(a, b) == 0 {
      forall i, j | 0 <= i < |a| && 0 <= j < |b|
        ensures a[i] != b[j]
      {
        SharedCharMatches(a, b, i, j);
      }
    } else {
      assert a[lm.i] == a[lm.i..lm.i + lm.k][0] == b[lm.j..lm.j + lm.k][0] == b[lm.j];
    }
  }

  /** A non-negative fraction `num / den`. */
  datatype Ratio = Ratio(num: nat, den: nat)

  /** `r >= t` for fractions with positive denominators. */
  predicate AtLeast(r: Ratio, t: Ratio)
    requires r.den > 0 && t.den > 0
  {
    r.num * t.den >= t.num * r.den
  }

  /** A ratio of 1 reaches every threshold up to 1. */
  lemma OneIsAtLeast(r: Ratio, t: Ratio)
    requires 0 < r.den && r.num == r.den && 0 < t.den && t.num <= t.den
    ensures AtLeast(r, t)
  {
    assert t.num * r.den <= t.den * r.den by {
      MulMono(t.num, t.den, r.den);
    }
  }

  /** A ratio of 0 reaches no positive threshold. */
  lemma ZeroNotAtLeast(r: Ratio, t: Ratio)
    requires 0 < r.den && r.num == 0 && 0 < t.den && 0 < t.num
    ensures !AtLeast(r, t)
  {
    MulMono(1, t.num, r.den);
  }

  lemma MulMono(x: nat, y: nat, z: nat)
    requires x <= y
    ensures x * z <= y * z
  {
  }

  /** The default similarity threshold, 0.9. */
  const DefaultThreshold: Ratio := Ratio(9, 10)

  /** `SequenceMatcher(None, a, b).ratio()`: `2 * M / (|a| + |b|)`, or 1 when
      both strings are empty. Always within [0, 1]. */
  function SequenceRatio(a: string, b: string): (r: Ratio)
    ensures r.den > 0 && r.num <= r.den
    ensures a == b ==> r.num == r.den
  {
    var total := |a| + |b|;
    if total == 0 then Ratio(1, 1)
    else
      MatchedCharsSelfIfEqual(a, b);
      Ratio(2 * MatchedChars(a, b), total)
  }

  lemma MatchedCharsSelfIfEqual(a: string, b: string)
    ensures a == b ==> MatchedChars(a, b) == |a|
  {
    if a == b {
      MatchedCharsSelf(a);
    }
  }

  /** `title_similarity`: 0 when either raw title is empty, otherwise the
      sequence ratio of the normalised titles. */
  function TitleSimilarity(t1: string, t2: string): (r: Ratio)
    ensures r.den > 0 && r.num <= r.den
    ensures t1 == "" || t2 == "" ==> r.num == 0
    ensures t1 != "" && t2 != "" && NormalizeTitle(t1) == NormalizeTitle(t2) ==> r.num == r.den
  {
    if t1 == "" || t2 == "" then Ratio(0, 1)
    else SequenceRatio(NormalizeTitle(t1), NormalizeTitle(t2))
  }

  /** `are_titles_similar`: the similarity reaches the threshold. */
  function AreTitlesSimilar(t1: string, t2: string, threshold: Ratio): (r: bool)
    requires threshold.den > 0
    ensures (t1 != "" && t2 != "" && NormalizeTitle(t1) == NormalizeTitle(t2)
             && threshold.num <= threshold.den) ==> r
    ensures (t1 == "" || t2 == "") && threshold.num > 0 ==> !r
  {
    SimilarityExtremes(t1, t2, threshold);
    AtLeast(TitleSimilarity(t1, t2), threshold)
  }

  lemma SimilarityExtremes(t1: string, t2: string, threshold: Ratio)
    requires threshold.den > 0
    ensures (t1 != "" && t2 != "" && NormalizeTitle(t1) == NormalizeTitle(t2)
             && threshold.num <= threshold.den) ==> AtLeast(TitleSimilarity(t1, t2), threshold)
    ensures ((t1 == "" || t2 == "") && threshold.num > 0) ==> !AtLeast(TitleSimilarity(t1, t2), threshold)
  {
    var s := TitleSimilarity(t1, t2);
    if t1 == "" || t2 == "" {
      if threshold.num > 0 {
        ZeroNotAtLeast(s, threshold);
      }
    } else if NormalizeTitle(t1) == NormalizeTitle(t2) && threshold.num <= threshold.den {
      OneIsAtLeast(s, threshold);
    }
  }

  /** With the default threshold, two non-empty titles are similar exactly
      when `20 * M >= 9 * (|n1| + |n2|)` for their normal forms `n1`, `n2`
      and matched size `M`; two titles that both normalise to the empty text
      count as similar. */
  lemma DefaultSimilarityTest(t1: string, t2: string)
    requires t1 != "" && t2 != ""
    ensures var n1, n2 := NormalizeTitle(t1), NormalizeTitle(t2);
      AreTitlesSimilar(t1, t2, DefaultThreshold) <==>
        (n1 == "" && n2 == "") || 20 * MatchedChars(n1, n2) >= 9 * (|n1| + |n2|)
  {
  }

  /** Identical non-empty titles are similar at any threshold up to 1. */
  lemma IdenticalTitlesSimilar(t: string, threshold: Ratio)
    requires t != "" && 0 < threshold.den && threshold.num <= threshold.den
    ensures TitleSimilarity(t, t).num == TitleSimilarity(t, t).den
    ensures AreTitlesSimilar(t, t, threshold)
  {
  }
}
