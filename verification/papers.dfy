/** The paper record the deduplication engine works on, its publication date,
    and the completeness score used to pick the best record of a group. */
module Papers {
  import opened Values

  /** A publication date as the engine sees it: an ordered (year, month, day)
      triple. Time of day is not modelled. */
  datatype Date = Date(year: int, month: int, day: int)

  /** `datetime.min`, the date adapters and the record converter use when a
      record has none. Its year, 1, is truthy. */
  const Sentinel: Date := Date(1, 1, 1)

  /** Chronological order of dates: by year, then month, then day. */
  predicate Earlier(d: Date, e: Date) {
    d.year < e.year
    || (d.year == e.year && d.month < e.month)
    || (d.year == e.year && d.month == e.month && d.day < e.day)
  }

  /** Whether `year` passes Python's `if year:` test. */
  predicate YearTruthy(year: int) {
    year != 0
  }

  /** A paper record, with the fields the matcher, the selector and the
      merger read. `summary` is the record's abstract (`abstract` is a Dafny
      keyword); `extra` holds source-specific metadata. */
  datatype Paper = Paper(
    paperId: string,
    title: string,
    authors: seq<string>,
    summary: string,
    doi: string,
    publishedDate: Date,
    pdfUrl: string,
    url: string,
    source: string,
    categories: seq<string>,
    keywords: seq<string>,
    citations: int,
    references: seq<string>,
    extra: map<string, Value>)

  /** The number of points a present field earns. */
  function Points(present: bool, weight: nat): (r: nat)
    ensures r == 0 || r == weight
    ensures r > 0 ==> present
  {
    if present then weight else 0
  }

  /** The completeness score of the `best` policy: title 1, abstract 2, doi 2,
      authors 1, pdf url 2, categories 1, each counted when non-empty. It runs
      from 0 (nothing present) to 9 (everything present). */
  function CompletenessScore(p: Paper): (s: nat)
    ensures s <= 9
    ensures s == 0 <==> (p.title == "" && p.summary == "" && p.doi == ""
                         && p.authors == [] && p.pdfUrl == "" && p.categories == [])
    ensures s == 9 <==> (p.title != "" && p.summary != "" && p.doi != ""
                         && p.authors != [] && p.pdfUrl != "" && p.categories != [])
  {
    Points(p.title != "", 1)
    + Points(p.summary != "", 2)
    + Points(p.doi != "", 2)
    + Points(p.authors != [], 1)
    + Points(p.pdfUrl != "", 2)
    + Points(p.categories != [], 1)
  }

  /** `q` has every scored field that `p` has. */
  predicate AtLeastAsComplete(q: Paper, p: Paper) {
    && (p.title != "" ==> q.title != "")
    && (p.summary != "" ==> q.summary != "")
    && (p.doi != "" ==> q.doi != "")
    && (p.authors != [] ==> q.authors != [])
    && (p.pdfUrl != "" ==> q.pdfUrl != "")
    && (p.categories != [] ==> q.categories != [])
  }

  /** Filling in scored fields never lowers the score. */
  lemma ScoreMonotone(p: Paper, q: Paper)
    requires AtLeastAsComplete(q, p)
    ensures CompletenessScore(p) <= CompletenessScore(q)
  {
  }
}
