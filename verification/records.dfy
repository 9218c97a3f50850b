/** Reading paper records back from dictionaries (`dict_to_paper`) and
    deduplicating a list of such records (`deduplicate_paper_dicts`). */
module Records {
  import opened Values
  import opened Text
  import opened Papers
  import opened Grouping
  import opened Resolve

  /** The keys of a record that `dict_to_paper` reads; the string written
      beside each is the key's name in the dictionary. Any other key is never
      looked at, so a record is modelled by its entries under these keys. */
  datatype Key =
    | PaperIdKey     // "paper_id"
    | TitleKey       // "title"
    | AuthorsKey     // "authors"
    | SummaryKey     // "abstract"
    | DoiKey         // "doi"
    | PublishedKey   // "published_date"
    | PdfUrlKey      // "pdf_url"
    | UrlKey         // "url"
    | SourceKey      // "source"
    | CategoriesKey  // "categories"
    | KeywordsKey    // "keywords"
    | CitationsKey   // "citations"
    | ReferencesKey  // "references"
    | ExtraKey       // "extra"

  /** A record: the dictionary a paper is serialised to, as the entry each
      key holds (`None` when the key is absent). */
  type Record = Key -> Option<Value>

  /** `int(...)` as a partial function: whatever else it accepts or rejects,
      it returns an integer unchanged. */
  type IntParser = f: Value -> Option<int> | forall n: int :: f(Int(n)) == Some(n)
    witness (v: Value) => if v.Int? then Some(v.i) else None

  /** The library calls `dict_to_paper` relies on, as partial functions:
      `datetime.fromisoformat`, `json.loads` (when it yields an object) and
      `int(...)`. `None` stands for the exception each may raise. */
  datatype Parsers = Parsers(
    isoDate: string -> Option<Date>,
    json: string -> Option<map<string, Value>>,
    toInt: IntParser)

  const ListSeparator := ';'

  /** The record's value under `key`, or `default` when the key is absent. */
  function Get(d: Record, key: Key, default: Value): (v: Value)
    ensures d(key).Some? ==> v == d(key).value
    ensures d(key).None? ==> v == default
  {
    d(key).GetOr(default)
  }

  /** A text field: the stored string, or `""` when it is absent or not a
      string. */
  function TextOf(v: Value): (s: string)
    ensures v.Text? ==> s == v.s
    ensures !v.Text? ==> s == ""
  {
    if v.Text? then v.s else ""
  }

  /** The stripped, non-empty pieces of a split, in order. */
  function Pieces(parts: seq<string>): (r: seq<string>)
    ensures |r| <= |parts|
    ensures forall p | p in r :: p != "" && Stripped(p)
    ensures (forall q | q in parts :: ListSeparator !in q) ==> forall p | p in r :: ListSeparator !in p
  {
    if |parts| == 0 then []
    else
      var t := Strip(parts[0]);
      var rest := Pieces(parts[1..]);
      assert parts[0] in parts;
      assert forall q | q in parts[1..] :: q in parts;
      if t != "" then [t] + rest else rest
  }

  /** `parse_list`: a list is returned as it is; a non-empty string is split
      on `;` into its stripped non-empty pieces; a falsy value gives `[]`; any
      other value makes `split` raise, which is `None` here. */
  function ParseList(v: Value): (r: Option<seq<string>>)
    ensures r.None? <==> Truthy(v) && !v.TextList? && !v.Text?
    ensures v.TextList? ==> r == Some(v.items)
    ensures !Truthy(v) ==> r == Some([])
    ensures v.Text? ==> r.Some? && forall p | p in r.value ::
      p != "" && Stripped(p) && ListSeparator !in p
    ensures v.Text? ==> var parts := SplitOn(v.s, ListSeparator);
      var at := Positions(parts, NonBlank);
      r.Some? && |r.value| == |at| &&
      forall j | 0 <= j < |at| :: r.value[j] == Strip(parts[at[j]])
  {
    match v
    case TextList(items) => Some(items)
    case Text(s) =>
      PiecesInOrder(SplitOn(s, ListSeparator));
      if s == "" then Some([]) else Some(SplitPieces(s))
    case _ => if Truthy(v) then None else Some([])
  }

  /** A piece of a split that is not all whitespace. */
  predicate NonBlank(p: string) {
    Strip(p) != ""
  }

  /** The pieces keep their order and drop exactly the blank parts: the
      `j`-th piece is the `j`-th non-blank part, stripped. */
  lemma {:induction false} PiecesInOrder(parts: seq<string>)
    ensures var r, at := Pieces(parts), Positions(parts, NonBlank);
      |r| == |at| && forall j | 0 <= j < |r| :: r[j] == Strip(parts[at[j]])
  {
    if |parts| > 0 {
      var tail := parts[1..];
      PiecesInOrder(tail);
      PositionsCons(parts, NonBlank);
      var rest, inner := Pieces(tail), Positions(tail, NonBlank);
      var later := Shift(inner);
      forall j | 0 <= j < |rest|
        ensures rest[j] == Strip(parts[later[j]])
      {
        assert parts[later[j]] == tail[inner[j]];
      }
    }
  }

  /** A string list field: the text split at each `;`, every piece stripped of
      surrounding whitespace, and the pieces left empty dropped. */
  function SplitPieces(text: string): (r: seq<string>)
    ensures forall p | p in r :: p != "" && Stripped(p) && ListSeparator !in p
  {
    Pieces(SplitOn(text, ListSeparator))
  }

  /** The publication date: a non-empty ISO string that parses, or
      `datetime.min` when the field is absent, empty, not a string or does
      not parse. */
  function PublishedDate(d: Record, parsers: Parsers): (r: Date)
    ensures r == Sentinel || exists s | s != "" && parsers.isoDate(s) == Some(r) :: Get(d, PublishedKey, Null) == Text(s)
    ensures forall s | Get(d, PublishedKey, Null) == Text(s) && s != "" && parsers.isoDate(s).Some? ::
      r == parsers.isoDate(s).value
  {
    var v := Get(d, PublishedKey, Null);
    if Truthy(v) && v.Text? then parsers.isoDate(v.s).GetOr(Sentinel) else Sentinel
  }

  /** The `extra` map: an object as it is, a JSON string decoded (or `{}`
      when decoding fails), and `{}` for anything else. */
  function ExtraOf(d: Record, parsers: Parsers): (r: map<string, Value>)
    ensures Get(d, ExtraKey, Null).Object? ==> r == Get(d, ExtraKey, Null).fields
    ensures !Get(d, ExtraKey, Null).Object? && !Get(d, ExtraKey, Null).Text? ==> r == map[]
    ensures forall s | Get(d, ExtraKey, Null) == Text(s) ::
      r == if parsers.json(s).Some? then parsers.json(s).value else map[]
  {
    match Get(d, ExtraKey, Null)
    case Object(fields) => fields
    case Text(s) => parsers.json(s).GetOr(map[])
    case _ => map[]
  }

  /** `dict_to_paper`: `None` exactly when one of its unguarded steps raises —
      a list field holding neither a list, a string nor a falsy value, or a
      citation count `int()` rejects. */
  function DictToPaper(d: Record, parsers: Parsers): (r: Option<Paper>)
    ensures r.Some? <==>
      && ParseList(Get(d, AuthorsKey, Text(""))).Some?
      && ParseList(Get(d, CategoriesKey, Text(""))).Some?
      && ParseList(Get(d, KeywordsKey, Text(""))).Some?
      && ParseList(Get(d, ReferencesKey, Text(""))).Some?
      && parsers.toInt(Get(d, CitationsKey, Int(0))).Some?
    ensures r.Some? ==> r.value.publishedDate == PublishedDate(d, parsers)
    ensures r.Some? && Get(d, TitleKey, Null).Text? ==> r.value.title == Get(d, TitleKey, Null).s
    ensures r.Some? && Get(d, CitationsKey, Int(0)).Int? ==> r.value.citations == Get(d, CitationsKey, Int(0)).i
  {
    var authors := ParseList(Get(d, AuthorsKey, Text("")));
    var categories := ParseList(Get(d, CategoriesKey, Text("")));
    var keywords := ParseList(Get(d, KeywordsKey, Text("")));
    var references := ParseList(Get(d, ReferencesKey, Text("")));
    var citations := parsers.toInt(Get(d, CitationsKey, Int(0)));
    if authors.None? || categories.None? || keywords.None? || references.None? || citations.None? then None
    else Some(BuildPaper(d, parsers, authors.value, categories.value, keywords.value, references.value, citations.value))
  }

  /** A record without a citation count reads as having none: only its list
      fields can make the conversion fail. */
  lemma AbsentCitations(d: Record, parsers: Parsers)
    requires d(CitationsKey).None?
    ensures DictToPaper(d, parsers).Some? <==>
      && ParseList(Get(d, AuthorsKey, Text(""))).Some?
      && ParseList(Get(d, CategoriesKey, Text(""))).Some?
      && ParseList(Get(d, KeywordsKey, Text(""))).Some?
      && ParseList(Get(d, ReferencesKey, Text(""))).Some?
    ensures DictToPaper(d, parsers).Some? ==> DictToPaper(d, parsers).value.citations == 0
  {
  }

  /** The `Paper(...)` call at the end of `dict_to_paper`, once the steps
      that may raise have succeeded. */
  function BuildPaper(
    d: Record, parsers: Parsers, authors: seq<string>, categories: seq<string>,
    keywords: seq<string>, references: seq<string>, citations: int): Paper
  {
    Paper(
      paperId := TextOf(Get(d, PaperIdKey, Null)),
      title := TextOf(Get(d, TitleKey, Null)),
      authors := authors,
      summary := TextOf(Get(d, SummaryKey, Null)),
      doi := TextOf(Get(d, DoiKey, Null)),
      publishedDate := PublishedDate(d, parsers),
      pdfUrl := TextOf(Get(d, PdfUrlKey, Null)),
      url := TextOf(Get(d, UrlKey, Null)),
      source := TextOf(Get(d, SourceKey, Null)),
      categories := categories,
      keywords := keywords,
      citations := citations,
      references := references,
      extra := ExtraOf(d, parsers))
  }

  /** `dict_to_paper` with the library calls fixed. */
  function Reader(parsers: Parsers): (read: Record -> Option<Paper>)
    ensures forall d :: read(d) == DictToPaper(d, parsers)
  {
    (d: Record) => DictToPaper(d, parsers)
  }

  /** Whether a record converts. */
  function Converts(read: Record -> Option<Paper>): (c: Record -> bool)
    ensures forall d :: c(d) == read(d).Some?
  {
    (d: Record) => read(d).Some?
  }

  /** The records that convert, in order; the others are skipped. */
  function ConvertRecords(ds: seq<Record>, read: Record -> Option<Paper>): (r: seq<Paper>)
    ensures |r| <= |ds|
    ensures forall p | p in r :: exists d | d in ds :: read(d) == Some(p)
    ensures forall d | d in ds && read(d).Some? :: read(d).value in r
  {
    if |ds| == 0 then []
    else
      var rest := ConvertRecords(ds[1..], read);
      assert forall d | d in ds[1..] :: d in ds;
      assert forall d | d in ds :: d == ds[0] || d in ds[1..];
      match read(ds[0])
      case Some(p) => [p] + rest
      case None => rest
  }

  /** The conversion keeps input order and skips exactly the records that do
      not convert: the `j`-th paper is the conversion of the `j`-th record
      that converts. */
  lemma {:induction false} ConvertRecordsInOrder(ds: seq<Record>, read: Record -> Option<Paper>)
    ensures var r, at := ConvertRecords(ds, read), Positions(ds, Converts(read));
      |r| == |at| && forall j | 0 <= j < |r| :: read(ds[at[j]]) == Some(r[j])
  {
    if |ds| > 0 {
      var tail := ds[1..];
      ConvertRecordsInOrder(tail, read);
      var rest, inner := ConvertRecords(tail, read), Positions(tail, Converts(read));
      var later := Shift(inner);
      forall j | 0 <= j < |rest|
        ensures read(ds[later[j]]) == Some(rest[j])
      {
        assert ds[later[j]] == tail[inner[j]];
      }
      assert Converts(read)(ds[0]) == read(ds[0]).Some?;
    }
  }

  /** `deduplicate_paper_dicts`, up to the final `to_dict`: the convertible
      records, deduplicated with the given `keep` policy. */
  function DeduplicatePaperDicts(ds: seq<Record>, keep: string, parsers: Parsers): (r: seq<Paper>)
    ensures |r| <= |ds|
    ensures ds == [] ==> r == []
    ensures forall a | 0 <= a < |r| :: exists d | d in ds :: DictToPaper(d, parsers) == Some(r[a])
  {
    var papers := ConvertRecords(ds, Reader(parsers));
    var r := DeduplicatePapers(papers, keep);
    assert forall a | 0 <= a < |r| :: r[a] in papers;
    r
  }

  /** A list item `parse_list` reproduces: non-empty, stripped, free of `;`. */
  predicate CleanItem(p: string) {
    p != "" && Stripped(p) && ListSeparator !in p
  }

  /** The items joined into one text with `;` between them. */
  function JoinList(items: seq<string>): (s: string)
    ensures items == [] ==> s == ""
    ensures items != [] && items[0] != "" ==> s != ""
    ensures items != [] ==> SplitOn(s, ListSeparator) == items || exists p | p in items :: ListSeparator in p
  {
    if items == [] then ""
    else
      var s := JoinWith(items, ListSeparator);
      JoinWithPrefix(items);
      if forall p | p in items :: ListSeparator !in p then
        SplitOnJoinWith(items, ListSeparator);
        s
      else s
  }

  lemma JoinWithPrefix(items: seq<string>)
    requires |items| >= 1
    ensures |JoinWith(items, ListSeparator)| >= |items[0]|
  {
  }

  lemma {:induction false} PiecesOfClean(items: seq<string>)
    requires forall p | p in items :: CleanItem(p)
    ensures Pieces(items) == items
  {
    if |items| > 0 {
      assert CleanItem(items[0]) by { assert items[0] in items; }
      StripStripped(items[0]);
      assert forall p | p in items[1..] :: p in items;
      PiecesOfClean(items[1..]);
      assert Pieces(items) == [items[0]] + Pieces(items[1..]);
      assert [items[0]] + items[1..] == items;
    }
  }

  /** `parse_list` inverts `";".join` on lists of clean items, the empty list
      included. */
  lemma ParseListJoin(items: seq<string>)
    requires forall p | p in items :: CleanItem(p)
    ensures ParseList(Text(JoinList(items))) == Some(items)
  {
    if items != [] {
      PiecesOfClean(items);
    }
  }

  /** A record carrying a paper's fields in the form `dict_to_paper` reads:
      strings as strings, lists `;`-joined, the date as `dateText`. */
  function AsRecord(p: Paper, dateText: string): Record {
    (k: Key) => Some(
      match k
      case PaperIdKey => Text(p.paperId)
      case TitleKey => Text(p.title)
      case AuthorsKey => Text(JoinList(p.authors))
      case SummaryKey => Text(p.summary)
      case DoiKey => Text(p.doi)
      case PublishedKey => Text(dateText)
      case PdfUrlKey => Text(p.pdfUrl)
      case UrlKey => Text(p.url)
      case SourceKey => Text(p.source)
      case CategoriesKey => Text(JoinList(p.categories))
      case KeywordsKey => Text(JoinList(p.keywords))
      case CitationsKey => Int(p.citations)
      case ReferencesKey => Text(JoinList(p.references))
      case ExtraKey => Object(p.extra))
  }

  /** Every list field of the paper holds only clean items. */
  predicate CleanLists(p: Paper) {
    && (forall a | a in p.authors :: CleanItem(a))
    && (forall c | c in p.categories :: CleanItem(c))
    && (forall k | k in p.keywords :: CleanItem(k))
    && (forall r | r in p.references :: CleanItem(r))
  }

  /** Reading a paper's record back gives the paper, when its lists are clean
      and the date text and the citation count parse back to its values. */
  lemma DictToPaperOfRecord(p: Paper, dateText: string, parsers: Parsers)
    requires CleanLists(p)
    requires dateText != "" && parsers.isoDate(dateText) == Some(p.publishedDate)
    ensures DictToPaper(AsRecord(p, dateText), parsers) == Some(p)
  {
    RecordLists(p, dateText);
    RecordScalars(p, dateText, parsers);
    RecordTexts(p, dateText);
    var d := AsRecord(p, dateText);
    assert DictToPaper(d, parsers) == Some(BuildPaper(d, parsers, p.authors, p.categories, p.keywords, p.references, p.citations));
  }

  lemma RecordTexts(p: Paper, dateText: string)
    ensures var d := AsRecord(p, dateText);
      && TextOf(Get(d, PaperIdKey, Null)) == p.paperId
      && TextOf(Get(d, TitleKey, Null)) == p.title
      && TextOf(Get(d, SummaryKey, Null)) == p.summary
      && TextOf(Get(d, DoiKey, Null)) == p.doi
      && TextOf(Get(d, PdfUrlKey, Null)) == p.pdfUrl
      && TextOf(Get(d, UrlKey, Null)) == p.url
      && TextOf(Get(d, SourceKey, Null)) == p.source
  {
  }

  lemma RecordLists(p: Paper, dateText: string)
    requires CleanLists(p)
    ensures var d := AsRecord(p, dateText);
      && ParseList(Get(d, AuthorsKey, Text(""))) == Some(p.authors)
      && ParseList(Get(d, CategoriesKey, Text(""))) == Some(p.categories)
      && ParseList(Get(d, KeywordsKey, Text(""))) == Some(p.keywords)
      && ParseList(Get(d, ReferencesKey, Text(""))) == Some(p.references)
  {
    var d := AsRecord(p, dateText);
    assert Get(d, AuthorsKey, Text("")) == Text(JoinList(p.authors));
    assert Get(d, CategoriesKey, Text("")) == Text(JoinList(p.categories));
    assert Get(d, KeywordsKey, Text("")) == Text(JoinList(p.keywords));
    assert Get(d, ReferencesKey, Text("")) == Text(JoinList(p.references));
    ParseListJoin(p.authors);
    ParseListJoin(p.categories);
    ParseListJoin(p.keywords);
    ParseListJoin(p.references);
  }

  lemma RecordScalars(p: Paper, dateText: string, parsers: Parsers)
    requires dateText != "" && parsers.isoDate(dateText) == Some(p.publishedDate)
    ensures var d := AsRecord(p, dateText);
      && Get(d, CitationsKey, Int(0)) == Int(p.citations)
      && PublishedDate(d, parsers) == p.publishedDate
      && ExtraOf(d, parsers) == p.extra
  {
    var d := AsRecord(p, dateText);
    assert Get(d, PublishedKey, Null) == Text(dateText);
    assert Get(d, ExtraKey, Null) == Object(p.extra);
  }

  /** When every record converts, none is skipped. */
  lemma {:induction false} ConvertAll(ds: seq<Record>, read: Record -> Option<Paper>)
    requires forall d | d in ds :: read(d).Some?
    ensures |ConvertRecords(ds, read)| == |ds|
    ensures forall i | 0 <= i < |ds| :: Some(ConvertRecords(ds, read)[i]) == read(ds[i])
  {
    if |ds| > 0 {
      assert ds[0] in ds;
      assert forall d | d in ds[1..] :: d in ds;
      ConvertAll(ds[1..], read);
      var rest := ConvertRecords(ds[1..], read);
      assert ConvertRecords(ds, read) == [read(ds[0]).value] + rest;
      assert forall i | 1 <= i < |ds| :: ds[i] == ds[1..][i - 1];
    }
  }

  /** When every record converts, `deduplicate_paper_dicts` deduplicates all
      of them, in input order. */
  lemma DedupAllConverted(ds: seq<Record>, keep: string, parsers: Parsers)
    requires forall d | d in ds :: DictToPaper(d, parsers).Some?
    ensures var papers := seq(|ds|, i requires 0 <= i < |ds| => DictToPaper(ds[i], parsers).value);
      DeduplicatePaperDicts(ds, keep, parsers) == DeduplicatePapers(papers, keep)
  {
    var read := Reader(parsers);
    ConvertAll(ds, read);
    var papers := seq(|ds|, i requires 0 <= i < |ds| => DictToPaper(ds[i], parsers).value);
    assert ConvertRecords(ds, read) == papers;
  }

  /** `deduplicate_paper_dicts` is `deduplicate_papers` applied to the papers
      of the records that convert, in input order, whichever records fail. */
  lemma DedupConverted(ds: seq<Record>, keep: string, parsers: Parsers, papers: seq<Paper>)
    requires var at := Positions(ds, Converts(Reader(parsers)));
      |papers| == |at| && forall j | 0 <= j < |at| :: DictToPaper(ds[at[j]], parsers) == Some(papers[j])
    ensures DeduplicatePaperDicts(ds, keep, parsers) == DeduplicatePapers(papers, keep)
  {
    var read := Reader(parsers);
    ConvertRecordsInOrder(ds, read);
    var converted := ConvertRecords(ds, read);
    assert |converted| == |papers|;
    forall j | 0 <= j < |papers|
      ensures converted[j] == papers[j]
    {
      var at := Positions(ds, Converts(read));
      assert read(ds[at[j]]) == Some(converted[j]);
    }
    assert converted == papers;
  }

  /** Converting a concatenation converts each part. */
  lemma {:induction false} ConvertAppend(a: seq<Record>, b: seq<Record>, read: Record -> Option<Paper>)
    ensures ConvertRecords(a + b, read) == ConvertRecords(a, read) + ConvertRecords(b, read)
  {
    if |a| == 0 {
      assert a + b == b;
    } else {
      ConvertAppend(a[1..], b, read);
      ConvertAppendStep(a, b, read);
    }
  }

  lemma ConvertAppendStep(a: seq<Record>, b: seq<Record>, read: Record -> Option<Paper>)
    requires |a| > 0
    requires ConvertRecords(a[1..] + b, read) == ConvertRecords(a[1..], read) + ConvertRecords(b, read)
    ensures ConvertRecords(a + b, read) == ConvertRecords(a, read) + ConvertRecords(b, read)
  {
    var d, tail := a[0], a[1..];
    HeadTail(a, b);
    ConvertCons(d, tail + b, read);
    ConvertCons(d, tail, read);
    var head := if read(d).Some? then [read(d).value] else [];
    Associative(head, ConvertRecords(tail, read), ConvertRecords(b, read));
  }

  lemma HeadTail<T>(a: seq<T>, b: seq<T>)
    requires |a| > 0
    ensures a == [a[0]] + a[1..] && a + b == [a[0]] + (a[1..] + b)
  {
  }


  lemma ConvertCons(d: Record, ds: seq<Record>, read: Record -> Option<Paper>)
    ensures ConvertRecords([d] + ds, read)
      == (if read(d).Some? then [read(d).value] else []) + ConvertRecords(ds, read)
  {
    assert ([d] + ds)[0] == d && ([d] + ds)[1..] == ds;
  }

  /** A record that does not convert changes nothing: removing it gives the
      same result. */
  lemma DedupSkipsFailing(ds: seq<Record>, i: nat, keep: string, parsers: Parsers)
    requires i < |ds| && DictToPaper(ds[i], parsers).None?
    ensures DeduplicatePaperDicts(ds[..i] + ds[i + 1..], keep, parsers) == DeduplicatePaperDicts(ds, keep, parsers)
  {
    var read := Reader(parsers);
    var before, after := ds[..i], ds[i + 1..];
    assert ds == before + ([ds[i]] + after);
    ConvertAppend(before, [ds[i]] + after, read);
    ConvertAppend(before, after, read);
    ConvertCons(ds[i], after, read);
  }
}
