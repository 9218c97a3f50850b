/** `are_same_paper`: the three-tier test of whether two records denote the
    same publication. Each tier is also defined on its own, as a predicate over
    index pairs, and the executable test is proved equal to their disjunction. */
module Matcher {
  import opened Text
  import opened Normalize
  import opened Similarity
  import opened Papers

  /** An author name as the matcher compares it: lower-cased and trimmed. */
  function NormalizeAuthor(a: string): (r: string)
    ensures Lowercase(r)
    ensures r == [] || (!IsSpace(r[0]) && !IsSpace(r[|r| - 1]))
  {
    var l := Lower(a);
    var r := Strip(l);
    assert forall c | c in r :: c in l;
    r
  }

  /** Every author of a list, normalised, in order. */
  function NormalizeAuthors(authors: seq<string>): (r: seq<string>)
    ensures |r| == |authors|
    ensures forall i | 0 <= i < |r| :: r[i] == NormalizeAuthor(authors[i])
  {
    seq(|authors|, i requires 0 <= i < |authors| => NormalizeAuthor(authors[i]))
  }

  /** One name occurs inside the other, in either direction. */
  predicate Related(x: string, y: string) {
    Contains(y, x) || Contains(x, y)
  }

  /** The index pairs `(i, j)` whose names are related: the pairs the matcher
      counts, with multiplicity. */
  ghost function RelatedPairs(xs: seq<string>, ys: seq<string>): set<(int, int)> {
    set i, j | 0 <= i < |xs| && 0 <= j < |ys| && Related(xs[i], ys[j]) :: (i, j)
  }

  /** Some name of `xs` is related to some name of `ys`. */
  function AnyRelated(xs: seq<string>, ys: seq<string>): (r: bool)
    ensures r <==> exists i, j | 0 <= i < |xs| && 0 <= j < |ys| :: Related(xs[i], ys[j])
  {
    if |xs| == 0 then false
    else AnyRelatedTo(xs[0], ys) || AnyRelated(xs[1..], ys)
  }

  /** `x` is related to some name of `ys`. */
  function AnyRelatedTo(x: string, ys: seq<string>): (r: bool)
    ensures r <==> exists j | 0 <= j < |ys| :: Related(x, ys[j])
  {
    if |ys| == 0 then false
    else Related(x, ys[0]) || AnyRelatedTo(x, ys[1..])
  }

  /** How many names of `ys` are related to `x`. */
  function RowCount(x: string, ys: seq<string>): (n: nat)
    ensures n <= |ys|
  {
    if |ys| == 0 then 0
    else RowCount(x, ys[..|ys| - 1]) + (if Related(x, ys[|ys| - 1]) then 1 else 0)
  }

  /** How many combinations of a name of `xs` with a name of `ys` are related,
      each combination counted once, repeated names included. */
  function PairCount(xs: seq<string>, ys: seq<string>): (n: nat)
    ensures n <= |xs| * |ys|
  {
    if |xs| == 0 then 0
    else
      var n := PairCount(xs[..|xs| - 1], ys) + RowCount(xs[|xs| - 1], ys);
      assert (|xs| - 1) * |ys| + |ys| == |xs| * |ys|;
      n
  }

  /** The pairs of one row `k`, for the name `x`. */
  ghost function RowPairs(k: int, x: string, ys: seq<string>): set<(int, int)> {
    set j | 0 <= j < |ys| && Related(x, ys[j]) :: (k, j)
  }

  lemma {:induction false} RowCountIsCardinality(k: int, x: string, ys: seq<string>)
    ensures RowCount(x, ys) == |RowPairs(k, x, ys)|
    decreases |ys|
  {
    if |ys| > 0 {
      var n := |ys| - 1;
      var init := ys[..n];
      RowCountIsCardinality(k, x, init);
      var last: set<(int, int)> := if Related(x, ys[n]) then {(k, n)} else {};
      assert RowPairs(k, x, ys) == RowPairs(k, x, init) + last by {
        forall p | p in RowPairs(k, x, ys)
          ensures p in RowPairs(k, x, init) + last
        {
          var j := p.1;
          if j < n {
            assert init[j] == ys[j];
          }
        }
        forall p | p in RowPairs(k, x, init)
          ensures p in RowPairs(k, x, ys)
        {
          assert init[p.1] == ys[p.1];
        }
      }
      assert (k, n) !in RowPairs(k, x, init);
    }
  }

  /** The recursive count is the number of related index pairs. */
  lemma {:induction false} PairCountIsCardinality(xs: seq<string>, ys: seq<string>)
    ensures PairCount(xs, ys) == |RelatedPairs(xs, ys)|
    decreases |xs|
  {
    if |xs| > 0 {
      var n := |xs| - 1;
      var init := xs[..n];
      PairCountIsCardinality(init, ys);
      RowCountIsCardinality(n, xs[n], ys);
      RelatedPairsLastRow(xs, ys);
    }
  }

  /** The related pairs of `xs` are those of all but its last name plus
      the last name's row, and the two parts are disjoint. */
  lemma RelatedPairsLastRow(xs: seq<string>, ys: seq<string>)
    requires |xs| > 0
    ensures var n := |xs| - 1;
      && RelatedPairs(xs, ys) == RelatedPairs(xs[..n], ys) + RowPairs(n, xs[n], ys)
      && RelatedPairs(xs[..n], ys) * RowPairs(n, xs[n], ys) == {}
  {
    var n := |xs| - 1;
    var init := xs[..n];
    var row := RowPairs(n, xs[n], ys);
    forall p | p in RelatedPairs(xs, ys)
      ensures p in RelatedPairs(init, ys) + row
    {
      if p.0 < n {
        assert init[p.0] == xs[p.0];
      }
    }
    forall p | p in RelatedPairs(init, ys)
      ensures p in RelatedPairs(xs, ys)
    {
      assert init[p.0] == xs[p.0];
    }
  }

  /** Tier 1: both DOIs normalise to the same non-empty text. */
  predicate DoiTier(p: Paper, q: Paper) {
    var d1, d2 := NormalizeDoi(p.doi), NormalizeDoi(q.doi);
    d1 != "" && d2 != "" && d1 == d2
  }

  /** Tier 2: the titles are similar at the default threshold, both papers
      have authors, and some pair of their normalised names is related. */
  ghost predicate TitleTier(p: Paper, q: Paper) {
    && AreTitlesSimilar(p.title, q.title, DefaultThreshold)
    && |p.authors| > 0 && |q.authors| > 0
    && var a1, a2 := NormalizeAuthors(p.authors), NormalizeAuthors(q.authors);
       exists i, j | 0 <= i < |a1| && 0 <= j < |a2| :: Related(a1[i], a2[j])
  }

  /** Tier 3: both papers have authors, at least two index pairs of
      normalised names are related, and the publication years are equal and
      truthy. */
  ghost predicate YearTier(p: Paper, q: Paper) {
    && |p.authors| > 0 && |q.authors| > 0
    && |RelatedPairs(NormalizeAuthors(p.authors), NormalizeAuthors(q.authors))| >= 2
    && YearTruthy(p.publishedDate.year) && YearTruthy(q.publishedDate.year)
    && p.publishedDate.year == q.publishedDate.year
  }

  /** The second test as the code makes it: the titles are similar, both
      author lists are non-empty and some pair of names is related. */
  predicate TitleTest(p: Paper, q: Paper) {
    && AreTitlesSimilar(p.title, q.title, DefaultThreshold)
    && |p.authors| > 0 && |q.authors| > 0
    && AnyRelated(NormalizeAuthors(p.authors), NormalizeAuthors(q.authors))
  }

  /** The third test as the code makes it: both author lists are non-empty,
      at least two combinations of names are related, and the years are
      truthy and equal. */
  predicate YearTest(p: Paper, q: Paper) {
    var y1, y2 := p.publishedDate.year, q.publishedDate.year;
    && |p.authors| > 0 && |q.authors| > 0
    && PairCount(NormalizeAuthors(p.authors), NormalizeAuthors(q.authors)) >= 2
    && YearTruthy(y1) && YearTruthy(y2) && y1 == y2
  }

  lemma TitleTestIsTier(p: Paper, q: Paper)
    ensures TitleTest(p, q) <==> TitleTier(p, q)
  {
  }

  lemma YearTestIsTier(p: Paper, q: Paper)
    ensures YearTest(p, q) <==> YearTier(p, q)
  {
    PairCountIsCardinality(NormalizeAuthors(p.authors), NormalizeAuthors(q.authors));
  }

  /** `are_same_paper`: the tiers tried in order; true exactly when one of
      them holds. */
  function AreSamePaper(p: Paper, q: Paper): (r: bool)
    ensures r <==> DoiTier(p, q) || TitleTier(p, q) || YearTier(p, q)
  {
    TitleTestIsTier(p, q);
    YearTestIsTier(p, q);
    if DoiTier(p, q) then true
    else if TitleTest(p, q) then true
    else YearTest(p, q)
  }

  /** Tier 1 alone decides: equal non-empty normalised DOIs match whatever
      the titles, authors and dates; an empty normalised DOI on either side
      never matches through this tier. */
  lemma DoiMatchDecides(p: Paper, q: Paper)
    ensures (NormalizeDoi(p.doi) != "" && NormalizeDoi(p.doi) == NormalizeDoi(q.doi))
              ==> AreSamePaper(p, q)
    ensures (NormalizeDoi(p.doi) == "" || NormalizeDoi(q.doi) == "") ==> !DoiTier(p, q)
  {
  }

  /** A record with a title and authors matches itself (through tier 2). */
  lemma {:induction false} SelfMatch(p: Paper)
    requires p.title != "" && p.authors != []
    ensures TitleTier(p, p)
    ensures AreSamePaper(p, p)
  {
    var a := NormalizeAuthors(p.authors);
    ContainsSelf(a[0]);
    assert Related(a[0], a[0]);
  }

  /** Two records with the same author list of two or more names match
      through tier 3 when their years are equal and truthy; in particular two
      undated records, both carrying the sentinel date, match. */
  lemma {:induction false} SharedAuthorsSameYear(p: Paper, q: Paper)
    requires |p.authors| >= 2 && q.authors == p.authors
    requires p.publishedDate.year == q.publishedDate.year && YearTruthy(p.publishedDate.year)
    ensures YearTier(p, q)
    ensures AreSamePaper(p, q)
  {
    DiagonalPairs(NormalizeAuthors(p.authors));
  }

  /** A list of two or more names relates at least its first two names to
      themselves. */
  lemma DiagonalPairs(a: seq<string>)
    requires |a| >= 2
    ensures |RelatedPairs(a, a)| >= 2
  {
    ContainsSelf(a[0]);
    ContainsSelf(a[1]);
    assert (0, 0) in RelatedPairs(a, a);
    assert (1, 1) in RelatedPairs(a, a);
    var pairs, diagonal := RelatedPairs(a, a), {(0, 0), (1, 1)};
    assert pairs == diagonal + (pairs - diagonal);
    assert diagonal * (pairs - diagonal) == {};
    assert |diagonal| == 2;
  }

  lemma UndatedRecordsMatch(p: Paper, q: Paper)
    requires |p.authors| >= 2 && q.authors == p.authors
    requires p.publishedDate == Sentinel && q.publishedDate == Sentinel
    ensures AreSamePaper(p, q)
  {
    SharedAuthorsSameYear(p, q);
  }
}
