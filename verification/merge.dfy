/** `merge_paper_group`: one record built from a group of duplicates, field
    by field. */
module Merge {
  import opened Values
  import opened Papers

  /** The first non-empty text among `values`, if any. */
  function FirstNonEmpty(values: seq<string>): (r: Option<string>)
    ensures r.None? <==> forall k | 0 <= k < |values| :: values[k] == ""
    ensures r.Some? ==> exists k | 0 <= k < |values| ::
      values[k] == r.value != "" && forall m | 0 <= m < k :: values[m] == ""
  {
    if |values| == 0 then None
    else if values[0] != "" then Some(values[0])
    else
      var r := FirstNonEmpty(values[1..]);
      assert forall k | 1 <= k < |values| :: values[k] == values[1..][k - 1];
      r
  }

  /** `choose_field`: the first non-empty value of a field in group order,
      falling back to the base record's value. */
  function ChooseField(group: seq<Paper>, field: Paper -> string): (r: string)
    requires |group| > 0
    ensures r == "" <==> forall k | 0 <= k < |group| :: field(group[k]) == ""
    ensures r != "" ==> exists k | 0 <= k < |group| ::
      field(group[k]) == r && forall m | 0 <= m < k :: field(group[m]) == ""
  {
    var values := seq(|group|, k requires 0 <= k < |group| => field(group[k]));
    assert forall k | 0 <= k < |group| :: values[k] == field(group[k]);
    match FirstNonEmpty(values)
    case Some(v) => v
    case None => field(group[0])
  }

  /** The items of `s` that are non-empty and not in `seen`, each kept at its
      first occurrence only. */
  function Dedup(s: seq<string>, seen: set<string>): (r: seq<string>)
    ensures forall x :: x in r <==> x in s && x != "" && x !in seen
    ensures forall a | 0 <= a < |r| :: r[a] in s && r[a] != "" && r[a] !in seen
    ensures forall a, b | 0 <= a < b < |r| :: r[a] != r[b]
  {
    if |s| == 0 then []
    else if s[0] == "" || s[0] in seen then Dedup(s[1..], seen)
    else
      var rest := Dedup(s[1..], seen + {s[0]});
      assert forall b | 1 <= b < |rest| + 1 :: ([s[0]] + rest)[b] == rest[b - 1] && rest[b - 1] in rest;
      [s[0]] + rest
  }

  /** The position of the first occurrence of `x` in `s`. */
  function FirstIndex(s: seq<string>, x: string): (k: nat)
    requires x in s
    ensures k < |s| && s[k] == x && forall m | 0 <= m < k :: s[m] != x
  {
    if s[0] == x then 0
    else
      var k := FirstIndex(s[1..], x);
      assert forall m | 1 <= m < k + 1 :: s[m] == s[1..][m - 1];
      k + 1
  }

  /** The items of `r`, all drawn from `s`, are listed in the order of their
      first occurrences in `s`. */
  predicate InFirstOccurrenceOrder(r: seq<string>, s: seq<string>) {
    forall a, b | 0 <= a < b < |r| && r[a] in s && r[b] in s :: FirstIndex(s, r[a]) < FirstIndex(s, r[b])
  }

  /** `Dedup` keeps first-occurrence order: an item listed earlier in the
      result first occurs earlier in the input. */
  lemma {:induction false} DedupOrder(s: seq<string>, seen: set<string>)
    ensures InFirstOccurrenceOrder(Dedup(s, seen), s)
  {
    if |s| > 0 {
      if s[0] == "" || s[0] in seen {
        DedupOrder(s[1..], seen);
        DedupOrderSkip(s, seen);
      } else {
        DedupOrder(s[1..], seen + {s[0]});
        DedupOrderKeep(s, seen);
      }
    }
  }

  lemma DedupOrderSkip(s: seq<string>, seen: set<string>)
    requires |s| > 0 && (s[0] == "" || s[0] in seen)
    requires InFirstOccurrenceOrder(Dedup(s[1..], seen), s[1..])
    ensures InFirstOccurrenceOrder(Dedup(s, seen), s)
  {
    var r := Dedup(s[1..], seen);
    assert Dedup(s, seen) == r;
    forall a, b | 0 <= a < b < |r| && r[a] in s && r[b] in s
      ensures FirstIndex(s, r[a]) < FirstIndex(s, r[b])
    {
      FirstIndexTail(s, r[a]);
      FirstIndexTail(s, r[b]);
    }
  }

  lemma DedupOrderKeep(s: seq<string>, seen: set<string>)
    requires |s| > 0 && s[0] != "" && s[0] !in seen
    requires InFirstOccurrenceOrder(Dedup(s[1..], seen + {s[0]}), s[1..])
    ensures InFirstOccurrenceOrder(Dedup(s, seen), s)
  {
    var rest := Dedup(s[1..], seen + {s[0]});
    var r := [s[0]] + rest;
    assert Dedup(s, seen) == r;
    forall a, b | 0 <= a < b < |r| && r[a] in s && r[b] in s
      ensures FirstIndex(s, r[a]) < FirstIndex(s, r[b])
    {
      assert r[b] == rest[b - 1];
      FirstIndexTail(s, r[b]);
      if a > 0 {
        assert r[a] == rest[a - 1];
        FirstIndexTail(s, r[a]);
      }
    }
  }

  lemma FirstIndexTail(s: seq<string>, x: string)
    requires |s| > 0 && x in s[1..] && x != s[0]
    ensures x in s && FirstIndex(s, x) == FirstIndex(s[1..], x) + 1
  {
  }

  /** The items of several lists, one list after another. */
  function Concat(lists: seq<seq<string>>): (r: seq<string>)
    ensures forall x :: x in r <==> exists k | 0 <= k < |lists| :: x in lists[k]
  {
    if |lists| == 0 then []
    else
      var rest := Concat(lists[1..]);
      assert forall k | 1 <= k < |lists| :: lists[k] == lists[1..][k - 1];
      lists[0] + rest
  }

  /** A list field of every member, in group order. */
  function Fields(group: seq<Paper>, field: Paper -> seq<string>): (r: seq<seq<string>>)
    ensures |r| == |group| && forall k | 0 <= k < |group| :: r[k] == field(group[k])
  {
    seq(|group|, k requires 0 <= k < |group| => field(group[k]))
  }

  /** Some member's list holds a non-empty item. */
  predicate HasItem(group: seq<Paper>, field: Paper -> seq<string>) {
    exists k, x | 0 <= k < |group| && x in field(group[k]) :: x != ""
  }

  /** `choose_list`: the union of a list field over the group in
      first-occurrence order, without repeats or empty items; the base
      record's list when no member has a non-empty item. */
  function ChooseList(group: seq<Paper>, field: Paper -> seq<string>): (r: seq<string>)
    requires |group| > 0
    ensures HasItem(group, field) ==>
      && "" !in r
      && (forall a, b | 0 <= a < b < |r| :: r[a] != r[b])
      && InFirstOccurrenceOrder(r, Concat(Fields(group, field)))
    ensures !HasItem(group, field) ==> r == field(group[0])
    ensures forall x | x in r && x != "" :: exists k | 0 <= k < |group| :: x in field(group[k])
    ensures forall k, x | 0 <= k < |group| && x in field(group[k]) && x != "" :: x in r
  {
    var lists := Fields(group, field);
    var union := Dedup(Concat(lists), {});
    DedupOrder(Concat(lists), {});
    assert HasItem(group, field) <==> union != [] by {
      if HasItem(group, field) {
        var k, x :| 0 <= k < |group| && x in field(group[k]) && x != "";
        assert x in lists[k] && x in union;
      }
      if union != [] {
        assert union[0] in Concat(lists);
        var k :| 0 <= k < |lists| && union[0] in lists[k];
        assert union[0] in field(group[k]) && union[0] != "";
      }
    }
    if union != [] then union else field(group[0])
  }

  /** The earliest publication date of the group: the base's date, replaced
      by each later member's date that is strictly earlier. */
  function EarliestDate(group: seq<Paper>): (d: Date)
    requires |group| > 0
    ensures exists k | 0 <= k < |group| :: group[k].publishedDate == d
    ensures forall k | 0 <= k < |group| :: !Earlier(group[k].publishedDate, d)
  {
    if |group| == 1 then group[0].publishedDate
    else
      var d := EarliestDate(group[..|group| - 1]);
      var last := group[|group| - 1].publishedDate;
      assert forall k | 0 <= k < |group| - 1 :: group[k] == group[..|group| - 1][k];
      if Earlier(last, d) then last else d
  }

  /** The largest citation count of the group. */
  function MaxCitations(group: seq<Paper>): (c: int)
    requires |group| > 0
    ensures exists k | 0 <= k < |group| :: group[k].citations == c
    ensures forall k | 0 <= k < |group| :: group[k].citations <= c
  {
    if |group| == 1 then group[0].citations
    else
      var c := MaxCitations(group[1..]);
      assert forall k | 1 <= k < |group| :: group[k] == group[1..][k - 1];
      if group[0].citations >= c then group[0].citations else c
  }

  /** The last member whose `extra` map has `key`, or -1 when none has. */
  function LastHolder(group: seq<Paper>, key: string): (k: int)
    ensures -1 <= k < |group|
    ensures k == -1 <==> forall j | 0 <= j < |group| :: key !in group[j].extra
    ensures k >= 0 ==> key in group[k].extra && forall j | k < j < |group| :: key !in group[j].extra
  {
    if |group| == 0 then -1
    else if key in group[|group| - 1].extra then |group| - 1
    else
      var n := |group| - 1;
      assert forall j | 0 <= j < n :: group[j] == group[..n][j];
      LastHolder(group[..n], key)
  }

  /** The members' `extra` maps applied left to right: a key is present when
      some member has it, and its value is the one the last such member
      gives (last write wins). */
  function MergeExtras(group: seq<Paper>): (m: map<string, Value>)
    ensures forall key :: key in m <==> LastHolder(group, key) >= 0
    ensures forall key | key in m :: m[key] == group[LastHolder(group, key)].extra[key]
  {
    if |group| == 0 then map[]
    else
      var n := |group| - 1;
      var m := MergeExtras(group[..n]);
      assert forall key | key !in group[n].extra :: LastHolder(group, key) == LastHolder(group[..n], key);
      assert forall k | 0 <= k < n :: group[k] == group[..n][k];
      m + group[n].extra
  }

  /** The source tag of every member, in group order. */
  function Sources(group: seq<Paper>): (r: seq<string>)
    ensures |r| == |group| && forall k | 0 <= k < |group| :: r[k] == group[k].source
  {
    seq(|group|, k requires 0 <= k < |group| => group[k].source)
  }

  /** `v` is what `choose_field` must give: the first non-empty value of the
      field in group order, or `""` when every member's value is empty. */
  predicate FirstFilled(group: seq<Paper>, field: Paper -> string, v: string) {
    if v == "" then forall k | 0 <= k < |group| :: field(group[k]) == ""
    else exists k | 0 <= k < |group| :: field(group[k]) == v && forall m | 0 <= m < k :: field(group[m]) == ""
  }

  /** `v` is what `choose_list` must give. When some member's list has a
      non-empty item, `v` is every non-empty item of the members' lists and
      nothing else, each once, in the order of first occurrence over the
      members in group order. Otherwise `v` is the base's own list. */
  predicate UnitedList(group: seq<Paper>, field: Paper -> seq<string>, v: seq<string>)
    requires |group| > 0
  {
    if HasItem(group, field) then
      && "" !in v
      && (forall a, b | 0 <= a < b < |v| :: v[a] != v[b])
      && InFirstOccurrenceOrder(v, Concat(Fields(group, field)))
      && (forall x | x in v :: exists k | 0 <= k < |group| :: x in field(group[k]))
      && (forall k, x | 0 <= k < |group| && x in field(group[k]) && x != "" :: x in v)
    else v == field(group[0])
  }

  /** The key under which a merged record lists its members' sources. */
  const MergedFrom: string := "merged_from"

  /** `merge_paper_group`: identity and source from the base (the first
      member); text fields from the first member that has them; list fields
      united; the earliest date; the largest citation count; the members'
      `extra` maps merged, plus the list of all members' sources. */
  function MergePaperGroup(group: seq<Paper>): (r: Paper)
    requires |group| > 0
    ensures r.paperId == group[0].paperId && r.source == group[0].source
    ensures forall k | 0 <= k < |group| :: group[k].citations <= r.citations
    ensures forall k | 0 <= k < |group| :: !Earlier(group[k].publishedDate, r.publishedDate)
    ensures MergedFrom in r.extra && r.extra[MergedFrom] == TextList(Sources(group))
    ensures FirstFilled(group, (p: Paper) => p.title, r.title)
    ensures FirstFilled(group, (p: Paper) => p.summary, r.summary)
    ensures FirstFilled(group, (p: Paper) => p.doi, r.doi)
    ensures FirstFilled(group, (p: Paper) => p.pdfUrl, r.pdfUrl)
    ensures FirstFilled(group, (p: Paper) => p.url, r.url)
    ensures UnitedList(group, (p: Paper) => p.authors, r.authors)
    ensures UnitedList(group, (p: Paper) => p.categories, r.categories)
    ensures UnitedList(group, (p: Paper) => p.keywords, r.keywords)
    ensures UnitedList(group, (p: Paper) => p.references, r.references)
    ensures exists k | 0 <= k < |group| :: group[k].publishedDate == r.publishedDate
    ensures exists k | 0 <= k < |group| :: group[k].citations == r.citations
    ensures forall key | key != MergedFrom ::
      key in r.extra <==> exists k | 0 <= k < |group| :: key in group[k].extra
    ensures forall key | key != MergedFrom && key in r.extra ::
      r.extra[key] == group[LastHolder(group, key)].extra[key]
  {
    Paper(
      paperId := group[0].paperId,
      title := ChooseField(group, (p: Paper) => p.title),
      authors := ChooseList(group, (p: Paper) => p.authors),
      summary := ChooseField(group, (p: Paper) => p.summary),
      doi := ChooseField(group, (p: Paper) => p.doi),
      publishedDate := EarliestDate(group),
      pdfUrl := ChooseField(group, (p: Paper) => p.pdfUrl),
      url := ChooseField(group, (p: Paper) => p.url),
      source := group[0].source,
      categories := ChooseList(group, (p: Paper) => p.categories),
      keywords := ChooseList(group, (p: Paper) => p.keywords),
      citations := MaxCitations(group),
      references := ChooseList(group, (p: Paper) => p.references),
      extra := MergeExtras(group)[MergedFrom := TextList(Sources(group))])
  }

  /** A text field the base record has is kept as it is. */
  lemma MergeKeepsBaseText(group: seq<Paper>)
    requires |group| > 0
    ensures group[0].title != "" ==> MergePaperGroup(group).title == group[0].title
    ensures group[0].doi != "" ==> MergePaperGroup(group).doi == group[0].doi
    ensures group[0].summary != "" ==> MergePaperGroup(group).summary == group[0].summary
  {
  }

  /** A date that can be a real calendar date: every component at least 1. */
  predicate ValidDate(d: Date) {
    d.year >= 1 && d.month >= 1 && d.day >= 1
  }

  /** The merged date is a plain minimum: when any member carries the
      sentinel `datetime.min`, the merged record carries it too, even though
      other members have real dates. */
  lemma MergeSentinelWins(group: seq<Paper>, k: nat)
    requires k < |group| && group[k].publishedDate == Sentinel
    requires forall j | 0 <= j < |group| :: ValidDate(group[j].publishedDate)
    ensures MergePaperGroup(group).publishedDate == Sentinel
  {
    var d := EarliestDate(group);
    assert !Earlier(group[k].publishedDate, d);
  }
}
