# Paper deduplication engine, modelled in Dafny

This project models the cross-source paper deduplication engine of
paper-search-mcp (`paper_search_mcp/deduplication.py`). The engine takes the
paper records that several academic search back-ends return for one query.
It decides which records describe the same paper, then either keeps one
record per paper, reports the duplicate groups, or merges each group into one
record.

The model has one module per layer of the engine:

- `Values` (values.dfy): `Option` and the dynamically typed `Value` a record
  dictionary or a paper's `extra` map can hold, with Python truthiness.
- `Text` (text.dfy): the string operations the engine uses. These are
  `lower`, `strip`, `rstrip`, `startswith`, substring containment,
  `split()`/`" ".join` on whitespace, and `split(";")`.
- `Normalize` (normalize.dfy): `normalize_doi` and `normalize_title`.
- `Similarity` (similarity.dfy): the Ratcliff/Obershelp matcher behind
  `difflib.SequenceMatcher.ratio()`, `title_similarity` and
  `are_titles_similar`.
  - The ratio is the exact rational `2M / (|a| + |b|)`.
  - M is the total size of the matching blocks. It is computed by the same
    recursion as difflib: the leftmost longest common block, then both
    remainders.
- `Papers` (papers.dfy): the `Paper` record and the completeness score used
  by the `best` policy.
- `Matcher` (matcher.dfy): the three tiers of `are_same_paper`.
- `Grouping` (grouping.dfy): the greedy grouping sweep.
  - The sweep is copied three times in the source. Here it is one function,
    `Group`, and all three callers use it.
  - The sweep is written over an arbitrary relation on indices. `Group`
    instantiates that relation with `are_same_paper`.
- `Merge` (merge.dfy): `merge_paper_group`.
- `Resolve` (resolve.dfy): `deduplicate_papers`, `find_duplicates` and
  `merge_duplicate_papers`.
- `Records` (records.dfy): `dict_to_paper` (with its `parse_list`) and
  `deduplicate_paper_dicts`.

Library calls the engine cannot be seen through are parameters of the model:

- `datetime.fromisoformat`, `json.loads` and `int(...)` are the three partial
  functions of a `Parsers` value. An exception is `None`. The one fact the
  model fixes about them is that `int(...)` returns an integer unchanged
  (the `IntParser` type), so a missing citation count, whose default is `0`,
  never makes a conversion fail.
- The date of a paper is an ordered `(year, month, day)` triple.
  `datetime.min` is the sentinel `(1, 1, 1)`, whose year 1 is truthy.

### Behaviour of the code that is easy to miss

- **DOI normalisation is not idempotent.**
  - `normalize_doi` tries each prefix once, in a fixed order. So
    `doi.org/doi:x` gives `doi:x`, and normalising again gives `x`.
  - `Normalize.DoiNotIdempotent` proves this for every canonical DOI.
- **Undated records can match.**
  - Tier 3 of `are_same_paper` only tests that the two years are truthy and
    equal. A record without a date carries `datetime.min`, whose year is 1,
    and 1 is truthy.
  - So two undated records that share two author pairs match
    (`Matcher.UndatedRecordsMatch`).
- **Author pairs are counted with multiplicity.**
  - The comment in tier 3 says "at least 2 authors match". The code counts
    every related `(a1, a2)` combination of the two lists, repeats included.
  - The model counts index pairs, as the code does.
- **The merged date is a plain minimum.**
  - The comment in `merge_paper_group` says "earliest published date". The
    code starts from the base's date and replaces it with any truthy, strictly
    earlier member date. A `datetime` is always truthy.
  - So a member carrying `datetime.min` wins over real dates
    (`Merge.MergeSentinelWins`).

## Model

| member | source | states |
|---|---|---|
| Normalize.NormalizeDoi | paper_search_mcp/deduplication.py:15-25 | an empty DOI gives `""`; the result is always lower-case and never ends with `/` |
| Normalize.CanonicalDoiFixed | paper_search_mcp/deduplication.py:15-25 | a DOI already in canonical form (lower-case, trimmed, no trailing `/`, no known prefix) is returned unchanged |
| Normalize.DoiPrefixedForms | paper_search_mcp/deduplication.py:20-25 | each of `https://doi.org/`, `http://doi.org/`, `doi:`, `doi.org/` in front of a canonical DOI is removed, giving the bare DOI |
| Normalize.SampleDoiBare | tests/test_deduplication.py:21-29 | `10.1234/test` normalises to itself |
| Normalize.SampleDoiPrefixed | tests/test_deduplication.py:21-29 | `https://doi.org/10.1234/test`, `doi:10.1234/test` (and the two other prefixed forms) normalise to `10.1234/test` |
| Normalize.DoiNotIdempotent | paper_search_mcp/deduplication.py:21-23 | for every canonical DOI `d`, `doi.org/doi:d` normalises to `doi:d`, which normalises on to `d`, so normalisation is not idempotent |
| Normalize.NormalizeTitle | paper_search_mcp/deduplication.py:28-39 | an empty title gives `""`; the result has no capitals, none of the 13 punctuation characters, and only single spaces between words (none leading or trailing) |
| Normalize.NormalizeTitleIdempotent | paper_search_mcp/deduplication.py:28-39 | normalising a normalised title changes nothing |
| Normalize.NormalizeTitleIgnoresCase | paper_search_mcp/deduplication.py:33 | titles equal after lower-casing normalise equally |
| Normalize.NormalizeTitleIgnoresPadding | paper_search_mcp/deduplication.py:38 | surrounding whitespace does not change the normalised title |
| Normalize.PunctuationIsSpace | paper_search_mcp/deduplication.py:33-34 | each of the 13 punctuation characters is replaced by a space, not deleted: the title with it and the title with a space there normalise alike |
| Normalize.NormalizeTitleAroundSpace | paper_search_mcp/deduplication.py:33-36 | a whitespace or punctuation character between two parts that each keep a word gives the two normal forms joined by exactly one space, so inner runs of whitespace and punctuation collapse |
| Normalize.SampleTitlePadded | tests/test_deduplication.py:40-48 | `"  test paper title  "` normalises to `test paper title` |
| Normalize.SampleTitleUpper | tests/test_deduplication.py:40-48 | `TEST PAPER TITLE` normalises to `test paper title` |
| Similarity.LongestMatch | paper_search_mcp/deduplication.py:52 | the block is a common substring, no common substring is longer, and among the longest it starts earliest in the first title, then earliest in the second (difflib's tie rule) |
| Similarity.MatchedChars | paper_search_mcp/deduplication.py:52 | the matched-character count M never exceeds either length, which bounds the ratio by 1 |
| Similarity.MatchedCharsSelf | paper_search_mcp/deduplication.py:52 | a title matched against itself matches every character |
| Similarity.MatchedCharsZeroIff | paper_search_mcp/deduplication.py:52 | M is 0 exactly when the two titles share no character |
| Similarity.SequenceRatio | paper_search_mcp/deduplication.py:52 | the ratio lies in [0, 1] (a zero total length counts as 1) and equal strings give exactly 1 |
| Similarity.TitleSimilarity | paper_search_mcp/deduplication.py:42-52 | the similarity lies in [0, 1], is 0 when either raw title is empty, and is exactly 1 for non-empty titles with the same normal form |
| Similarity.AreTitlesSimilar | paper_search_mcp/deduplication.py:55-66 | non-empty titles with equal normal forms are similar at any threshold up to 1; an empty title is never similar at a positive threshold |
| Similarity.DefaultSimilarityTest | paper_search_mcp/deduplication.py:55-66 | at the default threshold 0.9, two non-empty titles are similar exactly when both normal forms are empty or `20*M >= 9*(|n1|+|n2|)` |
| Similarity.IdenticalTitlesSimilar | tests/test_deduplication.py:61-64 | identical non-empty titles have similarity exactly 1 and are similar |
| Papers.CompletenessScore | paper_search_mcp/deduplication.py:162-170 | the score is at most 9; it is 0 exactly when title, abstract, DOI, authors, PDF URL and categories are all empty, and 9 exactly when all are present |
| Papers.ScoreMonotone | paper_search_mcp/deduplication.py:162-170 | a record that has every scored field another record has scores at least as high |
| Matcher.NormalizeAuthor | paper_search_mcp/deduplication.py:94-95 | a normalised author name is lower-case with no surrounding whitespace |
| Matcher.AnyRelated | paper_search_mcp/deduplication.py:96 | true exactly when some author of one list contains, or is contained in, some author of the other |
| Matcher.PairCount | paper_search_mcp/deduplication.py:104 | the count of related name combinations is at most the product of the two list lengths; `PairCountIsCardinality` pins its exact value |
| Matcher.PairCountIsCardinality | paper_search_mcp/deduplication.py:104 | the recursive count of related author pairs equals the number of related index pairs (repeats counted) |
| Matcher.AreSamePaper | paper_search_mcp/deduplication.py:69-112 | true exactly when tier 1 (equal non-empty normalised DOIs), tier 2 (similar titles, both author lists non-empty, a related pair) or tier 3 (at least 2 related pairs and equal truthy years) holds |
| Matcher.DoiMatchDecides | paper_search_mcp/deduplication.py:85-88 | equal non-empty normalised DOIs decide a match whatever the titles, authors and dates; an empty normalised DOI on either side never matches in tier 1 |
| Matcher.SelfMatch | paper_search_mcp/deduplication.py:90-97 | a record with a non-empty title and at least one author matches itself |
| Matcher.SharedAuthorsSameYear | paper_search_mcp/deduplication.py:99-110 | records with the same list of two or more authors and the same truthy year match through tier 3 |
| Matcher.UndatedRecordsMatch | paper_search_mcp/deduplication.py:107-110 | two records dated `datetime.min` with the same two or more authors match: the sentinel year is not excluded |
| Grouping.Positions | paper_search_mcp/deduplication.py:435-436 | the positions of the selected items, strictly increasing: every position listed holds a selected item, and every selected item's position is listed |
| Grouping.GroupAt | paper_search_mcp/deduplication.py:139-149 | the group starts with its head `i`, lists strictly increasing, unclaimed indices after `i`, and every member after the head is related to it |
| Grouping.Sweep | paper_search_mcp/deduplication.py:135-151 | the outer loop yields at most one group per index it visits; its shape, partition and matching properties are stated by the four `Sweep…` lemmas below |
| Grouping.SweepShape | paper_search_mcp/deduplication.py:135-151 | every group is non-empty, increasing, and holds only indices from the start index on that were unclaimed on entry |
| Grouping.SweepPartition | paper_search_mcp/deduplication.py:135-151 | the groups together list every unclaimed index from the start index on exactly once, and nothing else |
| Grouping.SweepMembersMatchHead | paper_search_mcp/deduplication.py:144-149 | every later member of a group is related to its head, whatever the relation |
| Grouping.SweepLaterUnmatched | paper_search_mcp/deduplication.py:135-151 | no member of a later group is related to the head of an earlier group, whatever the relation |
| Grouping.Group | paper_search_mcp/deduplication.py:132-151 | the sweep over the input with `are_same_paper` as the relation: at most one group per record; `GroupPartition`, `GroupMembersMatchHead` and `GroupLaterUnmatched` state the rest |
| Grouping.Claims | paper_search_mcp/deduplication.py:144-149 | the inner loop claims, in increasing order, exactly the unclaimed later indices related to the head |
| Grouping.GroupPartition | paper_search_mcp/deduplication.py:132-151 | the groups are non-empty increasing index lists that together hold every input index exactly once, with heads in increasing order |
| Grouping.GroupMembersMatchHead | paper_search_mcp/deduplication.py:144-149 | every non-head member of a group is a duplicate (`are_same_paper`) of the group's head |
| Grouping.GroupLaterUnmatched | paper_search_mcp/deduplication.py:135-151 | no member of a later group is a duplicate of an earlier group's head; in particular earlier heads never match later heads |
| Grouping.GroupNoDuplicates | paper_search_mcp/deduplication.py:132-151 | when no two records match, every record is its own group, in input order |
| Grouping.GroupSameDoi | paper_search_mcp/deduplication.py:132-151 | records sharing one non-empty normalised DOI form a single group |
| Merge.ChooseField | paper_search_mcp/deduplication.py:270-275 | the chosen text is empty exactly when every member's is, and otherwise is the first non-empty value in group order |
| Merge.Dedup | paper_search_mcp/deduplication.py:279-287 | the items kept are exactly the non-empty unseen ones, each once |
| Merge.DedupOrder | paper_search_mcp/deduplication.py:279-287 | the kept items appear in the order of their first occurrence |
| Merge.ChooseList | paper_search_mcp/deduplication.py:277-288 | when some member's list has a non-empty item: the result holds every non-empty item of the members' lists and nothing else, no empty item, no repeats, in the order of first occurrence over the members in group order; when no member has a non-empty item: the base's own list |
| Merge.EarliestDate | paper_search_mcp/deduplication.py:297-301 | the date is some member's date and no member's date is earlier |
| Merge.MaxCitations | paper_search_mcp/deduplication.py:316 | the count is some member's count and no member's is larger |
| Merge.MergeExtras | paper_search_mcp/deduplication.py:309-313 | a key is present exactly when some member's `extra` has it, with the value of the last member that has it |
| Merge.MergePaperGroup | paper_search_mcp/deduplication.py:257-338 | id and source from the first member; each text field the first non-empty value; each list field the union of non-empty items without repeats in first-seen order, or the base's list when no member has a non-empty item; the earliest date; the largest citation count; the members' `extra` maps merged last-write-wins, with `merged_from` set to every member's source in group order |
| Merge.MergeKeepsBaseText | paper_search_mcp/deduplication.py:270-275 | a title, DOI or abstract the first member has is kept as it is |
| Merge.MergeSentinelWins | paper_search_mcp/deduplication.py:297-301 | a member dated `datetime.min` makes the merged date `datetime.min`, even when the others have real dates |
| Resolve.KeepPolicy | paper_search_mcp/deduplication.py:155-174 | `last` and `best` select those policies, and every other text (`first` included) keeps the first record |
| Resolve.BestOf | paper_search_mcp/deduplication.py:172 | the chosen member has the highest score, and every earlier member scores strictly less (Python's `max` keeps the first of equals) |
| Resolve.DeduplicatePapers | paper_search_mcp/deduplication.py:115-176 | one input record per group: the result is as long as the list of groups, never longer than the input, and empty exactly when the input is |
| Resolve.DedupFirstKeepsHeads | paper_search_mcp/deduplication.py:155-157 | under `first` (and any unknown policy) the result is each group's head |
| Resolve.DedupFirstNoLaterDuplicate | paper_search_mcp/deduplication.py:135-157 | under `first`, no kept record is a duplicate of a record kept before it |
| Resolve.DedupFirstCovers | paper_search_mcp/deduplication.py:135-157 | under `first`, every input record is kept or is a duplicate of a kept head |
| Resolve.DedupLastKeepsLastMember | paper_search_mcp/deduplication.py:158-159 | under `last` the result is each group's last member |
| Resolve.DedupBestKeepsMostComplete | paper_search_mcp/deduplication.py:160-172 | under `best` each kept record is the earliest group member with the highest completeness score |
| Resolve.DedupSameDoi | paper_search_mcp/deduplication.py:115-176 | records sharing one non-empty normalised DOI collapse to the first record under `first` and to the last under `last` |
| Resolve.FindDuplicates | paper_search_mcp/deduplication.py:404-438 | no more entries than groups, and every entry lists at least one duplicate; `FindDuplicatesReportsAll` states which entries and in what order |
| Resolve.DuplicateGroups | paper_search_mcp/deduplication.py:435-436 | every entry is the head and the other members of some group of two or more |
| Resolve.DuplicateGroupsInOrder | paper_search_mcp/deduplication.py:421-438 | the `j`-th entry is the head and other members of the `j`-th group with two or more members, so every such group is reported exactly once, in group order |
| Resolve.FindDuplicatesReportsAll | paper_search_mcp/deduplication.py:404-438 | `find_duplicates` reports every group that has a duplicate, exactly once, in the order of the heads, and nothing else |
| Resolve.FindDuplicatesMatchHead | paper_search_mcp/deduplication.py:428-433 | every listed duplicate is a duplicate of the record it is listed with |
| Resolve.FindDuplicatesNone | paper_search_mcp/deduplication.py:435-438 | a list without duplicates reports nothing |
| Resolve.FindDuplicatesSameDoi | paper_search_mcp/deduplication.py:404-438 | records sharing one non-empty normalised DOI are reported as one entry: the first record and all the others |
| Resolve.KeptPlusListed | paper_search_mcp/deduplication.py:115-176 | the records `deduplicate_papers` keeps and the duplicates `find_duplicates` lists add up to the input length |
| Resolve.MergeDuplicatePapers | paper_search_mcp/deduplication.py:211-254 | one record per group: never longer than the input, and empty exactly when the input is |
| Resolve.MergeGroups | paper_search_mcp/deduplication.py:247-252 | a one-member group gives its member unchanged; a larger group gives `merge_paper_group` of its members in group order; either way the id and source are the head's |
| Resolve.MergeGroup | paper_search_mcp/deduplication.py:248-252 | the record of one group carries the id and source of the group's head |
| Resolve.MergeDuplicatePapersGroups | paper_search_mcp/deduplication.py:211-254 | `merge_duplicate_papers` gives one record per group: a one-member group's record unchanged, a larger group's `merge_paper_group` of its members |
| Resolve.MergeNoDuplicates | paper_search_mcp/deduplication.py:248-250 | a list without duplicates is returned unchanged |
| Records.ParseList | paper_search_mcp/deduplication.py:368-374 | a list is returned as it is; a falsy value gives `[]`; a string gives its `;`-separated parts that are not blank, each stripped, in their order in the string; any other truthy value fails |
| Records.PiecesInOrder | paper_search_mcp/deduplication.py:373 | the `j`-th piece is the `j`-th part that is not blank, stripped: order is kept and exactly the blank parts are dropped |
| Records.ParseListJoin | paper_search_mcp/deduplication.py:368-374 | splitting a `;`-joined list of non-empty, stripped, `;`-free items gives the items back |
| Records.PublishedDate | paper_search_mcp/deduplication.py:354-360 | a non-empty date string that parses gives the parsed date; in every other case (absent, empty, not a string, unparsable) the date is `datetime.min` |
| Records.ExtraOf | paper_search_mcp/deduplication.py:376-383 | an object is taken as it is; a string is decoded as JSON, and a failed decode gives an empty map; anything else gives an empty map |
| Records.DictToPaper | paper_search_mcp/deduplication.py:341-401 | conversion fails exactly when a list field is neither a list, a string nor falsy, or the citation count does not convert; otherwise the date and title are the ones read, and an integer citation count is kept as it is |
| Records.AbsentCitations | paper_search_mcp/deduplication.py:398 | a record with no citation count converts exactly when its list fields do, and reads as having 0 citations |
| Records.DictToPaperOfRecord | paper_search_mcp/deduplication.py:341-401 | a paper written as a record (clean lists `;`-joined, a parsable date text) reads back as the same paper |
| Records.ConvertRecords | paper_search_mcp/deduplication.py:196-202 | every converted paper comes from some record, and every record that converts is kept |
| Records.ConvertRecordsInOrder | paper_search_mcp/deduplication.py:196-202 | the `j`-th paper is the conversion of the `j`-th record that converts: input order is kept and exactly the failing records are skipped |
| Records.ConvertAppend | paper_search_mcp/deduplication.py:196-202 | converting two lists of records one after the other gives the two results one after the other |
| Records.ConvertAll | paper_search_mcp/deduplication.py:196-202 | when every record converts, none is skipped and the papers keep the input order |
| Records.DeduplicatePaperDicts | paper_search_mcp/deduplication.py:179-208 | the result is never longer than the input, empty for empty input, and holds only papers converted from input records |
| Records.DedupConverted | paper_search_mcp/deduplication.py:179-208 | the result is `deduplicate_papers` of the papers of the converting records, in input order, whichever records fail |
| Records.DedupSkipsFailing | paper_search_mcp/deduplication.py:196-205 | removing a record that fails to convert does not change the result |
| Records.DedupAllConverted | paper_search_mcp/deduplication.py:179-208 | when every record converts, the result is `deduplicate_papers` of all of them |

## Left out

- HTTP adapters, the MCP server and `Paper.to_dict`: the adapters and
  the server are I/O plumbing, and `to_dict` is not part of this model.
  `Records.DeduplicatePaperDicts` therefore returns papers, not dictionaries.
  `Records.AsRecord` is a reference encoding used only to state a round trip.
- difflib's autojunk heuristic: it only activates when the second string has
  200 or more characters. The model's M is the matcher without junk
  heuristics.
- Float rounding: the ratio is an exact rational, so `ratio >= 0.9` is decided
  exactly even at the boundary.
- Unicode: `lower()` is ASCII lower-casing. Whitespace for `strip()` and
  `split()` is the ASCII set Python accepts (space, tab, newline, vertical
  tab, form feed, carriage return and the separators 0x1c-0x1f).
- Dates are `(year, month, day)` triples: time of day, time zones and
  `updated_date` are not modelled. The matcher and the merger never read
  `updated_date`.
- `None` versus `""` and `[]`: every text field is a string and every list
  field a list. An absent value is the empty one. The truthiness tests of the
  code see no difference.
- Python object identity and aliasing: for example, the base's own list is
  returned by reference.
- Records.ExtraOf: a JSON string that decodes to something other than an
  object is treated like a failed decode (an empty map). A non-dict,
  non-string truthy `extra` also becomes an empty map, where the code would
  pass it through.
- Records.TextOf: a text field holding a non-string value reads as `""`,
  where the code would store the value as it is.
- Records.ParseList: a list of non-string items cannot be expressed by
  `Value` and is not modelled.
- Records.Key: a record is modelled by its entries under the keys
  `dict_to_paper` reads. It never looks at any other key.
- Merge.MergePaperGroup: the final `extra if extra else None` is not modelled
  as a separate case: the merged `extra` always holds `merged_from`, so it is
  never empty.
