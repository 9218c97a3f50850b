/** Canonical forms used for comparison: `normalize_doi` and
    `normalize_title`. */
module Normalize {
  import opened Text

  /** The URL and scheme prefixes `normalize_doi` removes, in the order it
      tries them. */
  const DoiPrefixes: seq<string> := [HttpsDoi, HttpDoi, DoiScheme, DoiHost]
  const HttpsDoi: string := "https://doi.org/"
  const HttpDoi: string := "http://doi.org/"
  const DoiScheme: string := "doi:"
  const DoiHost: string := "doi.org/"

  /** The thirteen punctuation characters `normalize_title` turns into spaces. */
  const TitlePunctuation: set<char> :=
    {'.', ',', '!', '?', ';', ':', '-', '(', ')', '[', ']', '{', '}'}

  /** Removes `p` from the front of `s` when `s` starts with it. */
  function DropPrefix(s: string, p: string): (r: string)
    ensures |r| <= |s| && r == s[|s| - |r|..]
  {
    if StartsWith(s, p) then s[|p|..] else s
  }

  /** Tries the four prefixes once each, in order; several may go. What is
      left is a suffix of `s`. */
  function DropDoiPrefixes(s: string): (r: string)
    ensures |r| <= |s| && r == s[|s| - |r|..]
    ensures forall c | c in r :: c in s
  {
    var s1 := DropPrefix(s, HttpsDoi);
    var s2 := DropPrefix(s1, HttpDoi);
    var s3 := DropPrefix(s2, DoiScheme);
    var r := DropPrefix(s3, DoiHost);
    SliceChars(s, |s| - |r|, |s|);
    r
  }

  /** `normalize_doi`: lower-case, strip the DOI prefixes in order, strip
      surrounding whitespace, then strip trailing slashes. */
  function NormalizeDoi(doi: string): (r: string)
    ensures doi == "" ==> r == ""
    ensures Lowercase(r)
    ensures r == [] || r[|r| - 1] != '/'
  {
    if doi == "" then ""
    else RStripChar(Strip(DropDoiPrefixes(Lower(doi))), '/')
  }

  /** A DOI already in canonical form: non-empty, lower-case, no surrounding
      whitespace, no trailing slash and none of the prefixes in front. */
  predicate CanonicalDoi(d: string) {
    && d != ""
    && Lowercase(d)
    && !IsSpace(d[0]) && !IsSpace(d[|d| - 1]) && d[|d| - 1] != '/'
    && (forall p | p in DoiPrefixes :: !StartsWith(d, p))
  }

  /** The strip steps leave text alone that has no surrounding whitespace
      and no trailing slash. */
  lemma StripsNothing(d: string)
    requires d != [] && !IsSpace(d[0]) && !IsSpace(d[|d| - 1]) && d[|d| - 1] != '/'
    ensures RStripChar(Strip(d), '/') == d
  {
    assert LStrip(d) == d;
    assert RStrip(d) == d;
  }

  /** A canonical DOI normalises to itself. */
  lemma CanonicalDoiFixed(d: string)
    requires CanonicalDoi(d)
    ensures NormalizeDoi(d) == d
  {
    LowerOfLowercase(d);
    assert DropDoiPrefixes(d) == d by {
      assert HttpsDoi in DoiPrefixes && HttpDoi in DoiPrefixes;
      assert DoiScheme in DoiPrefixes && DoiHost in DoiPrefixes;
    }
    StripsNothing(d);
  }

  /** A canonical DOI normalises to itself, and so does any one of the four
      prefixed forms of it (`https://doi.org/10.1234/test`, `doi:10.1234/test`,
      ...). */
  lemma DoiPrefixedForms(d: string)
    requires CanonicalDoi(d)
    ensures NormalizeDoi(d) == d
    ensures forall p | p in DoiPrefixes :: NormalizeDoi(p + d) == d
  {
    CanonicalDoiFixed(d);
    forall p | p in DoiPrefixes
      ensures NormalizeDoi(p + d) == d
    {
      PrefixedDoiStripped(p, d);
    }
  }

  /** Prefix stripping on one prefixed canonical DOI, prefix by prefix. */
  lemma PrefixedDoiStripped(p: string, d: string)
    requires CanonicalDoi(d) && p in DoiPrefixes
    ensures NormalizeDoi(p + d) == d
  {
    PrefixesLowercase();
    LowerOfPrefixed(p, d);
    PrefixedDoiDropped(p, d);
    StripsNothing(d);
  }

  /** Only the one prefix in front is removed from a prefixed canonical DOI. */
  lemma PrefixedDoiDropped(p: string, d: string)
    requires CanonicalDoi(d) && p in DoiPrefixes
    ensures DropDoiPrefixes(p + d) == d
  {
    assert !StartsWith(d, HttpDoi) && !StartsWith(d, DoiScheme) && !StartsWith(d, DoiHost) by {
      assert HttpDoi in DoiPrefixes && DoiScheme in DoiPrefixes && DoiHost in DoiPrefixes;
    }
    assert p == HttpsDoi || p == HttpDoi || p == DoiScheme || p == DoiHost;
    HttpsDoiDropped(d);
    HttpDoiDropped(d);
    DoiSchemeDropped(d);
    DoiHostDropped(d);
  }

  lemma HttpsDoiDropped(d: string)
    requires !StartsWith(d, HttpDoi) && !StartsWith(d, DoiScheme) && !StartsWith(d, DoiHost)
    ensures DropDoiPrefixes(HttpsDoi + d) == d
  {
    var s := HttpsDoi + d;
    assert s[..|HttpsDoi|] == HttpsDoi && s[|HttpsDoi|..] == d;
    assert DropPrefix(s, HttpsDoi) == d;
  }

  lemma HttpDoiDropped(d: string)
    requires !StartsWith(d, DoiScheme) && !StartsWith(d, DoiHost)
    ensures DropDoiPrefixes(HttpDoi + d) == d
  {
    var s := HttpDoi + d;
    assert s[..|HttpDoi|] == HttpDoi && s[|HttpDoi|..] == d;
    assert !StartsWith(s, HttpsDoi) by {
      assert s[4] == ':' && HttpsDoi[4] == 's';
    }
    assert DropPrefix(DropPrefix(s, HttpsDoi), HttpDoi) == d;
  }

  lemma DoiSchemeDropped(d: string)
    requires !StartsWith(d, DoiHost)
    ensures DropDoiPrefixes(DoiScheme + d) == d
  {
    var s := DoiScheme + d;
    assert s[..|DoiScheme|] == DoiScheme && s[|DoiScheme|..] == d;
    assert !StartsWith(s, HttpsDoi) && !StartsWith(s, HttpDoi) by {
      assert s[0] == 'd' && HttpsDoi[0] == 'h' && HttpDoi[0] == 'h';
    }
    var s2 := DropPrefix(DropPrefix(s, HttpsDoi), HttpDoi);
    assert s2 == s;
    assert DropPrefix(s2, DoiScheme) == d;
  }

  lemma DoiHostDropped(d: string)
    ensures DropDoiPrefixes(DoiHost + d) == d
  {
    var s := DoiHost + d;
    assert s[..|DoiHost|] == DoiHost && s[|DoiHost|..] == d;
    assert !StartsWith(s, HttpsDoi) && !StartsWith(s, HttpDoi) by {
      assert s[0] == 'd' && HttpsDoi[0] == 'h' && HttpDoi[0] == 'h';
    }
    assert !StartsWith(s, DoiScheme) by {
      assert s[3] == '.' && DoiScheme[3] == ':';
    }
    var s3 := DropPrefix(DropPrefix(DropPrefix(s, HttpsDoi), HttpDoi), DoiScheme);
    assert s3 == s;
    assert DropPrefix(s3, DoiHost) == d;
  }

  /** The DOI used by the repository's own normalisation tests. */
  const SampleDoi: string := "10.1234/test"

  /** The bare sample DOI is its own normal form. */
  lemma SampleDoiBare()
    ensures NormalizeDoi(SampleDoi) == SampleDoi
  {
    SampleDoiCanonical();
    CanonicalDoiFixed(SampleDoi);
  }

  /** Each prefixed spelling of the sample DOI (`https://doi.org/10.1234/test`,
      `doi:10.1234/test`, ...) normalises to the bare DOI. */
  lemma SampleDoiPrefixed(p: string)
    requires p in DoiPrefixes
    ensures NormalizeDoi(p + SampleDoi) == SampleDoi
  {
    SampleDoiCanonical();
    PrefixedDoiStripped(p, SampleDoi);
  }

  lemma SampleDoiCanonical()
    ensures CanonicalDoi(SampleDoi)
  {
    var d := SampleDoi;
    assert d[0] == '1' && d[|d| - 1] == 't';
    assert HttpsDoi[0] != '1' && HttpDoi[0] != '1' && DoiScheme[0] != '1' && DoiHost[0] != '1';
  }

  /** `normalize_doi` is not idempotent: each prefix is tried once, in a
      fixed order, so removing `doi.org/` can uncover a `doi:` that is then
      left in place, e.g. `doi.org/doi:x` gives `doi:x`, which gives `x`. */
  lemma DoiNotIdempotent(d: string)
    requires CanonicalDoi(d)
    ensures NormalizeDoi(DoiHost + DoiScheme + d) == DoiScheme + d
    ensures NormalizeDoi(NormalizeDoi(DoiHost + DoiScheme + d)) == d != DoiScheme + d
  {
    HostThenSchemeKeepsScheme(d);
    assert DoiScheme in DoiPrefixes;
    PrefixedDoiStripped(DoiScheme, d);
  }

  lemma HostThenSchemeKeepsScheme(d: string)
    requires CanonicalDoi(d)
    ensures NormalizeDoi(DoiHost + DoiScheme + d) == DoiScheme + d
  {
    SchemeKept(d);
  }

  lemma SchemeKept(d: string)
    requires d != "" && Lowercase(d) && !IsSpace(d[|d| - 1]) && d[|d| - 1] != '/'
    ensures NormalizeDoi(DoiHost + DoiScheme + d) == DoiScheme + d
  {
    HostDroppedBeforeScheme(d);
    SchemeEnds(d);
    NormalizeAfterDrop(DoiHost + DoiScheme + d, DoiScheme + d);
  }

  /** `doi:` in front of `d` starts with a letter and ends where `d` does. */
  lemma SchemeEnds(d: string)
    requires d != "" && !IsSpace(d[|d| - 1]) && d[|d| - 1] != '/'
    ensures DoiHost + DoiScheme + d != ""
    ensures var t := DoiScheme + d;
      t != [] && !IsSpace(t[0]) && !IsSpace(t[|t| - 1]) && t[|t| - 1] != '/'
  {
    var t := DoiScheme + d;
    assert t[0] == 'd' && t[|t| - 1] == d[|d| - 1];
  }

  /** Once the prefixes are gone, text with no surrounding whitespace and no
      trailing slash is the normalised DOI. */
  lemma NormalizeAfterDrop(x: string, t: string)
    requires x != "" && DropDoiPrefixes(Lower(x)) == t
    requires t != [] && !IsSpace(t[0]) && !IsSpace(t[|t| - 1]) && t[|t| - 1] != '/'
    ensures NormalizeDoi(x) == t
  {
    StripsNothing(t);
  }

  lemma HostDroppedBeforeScheme(d: string)
    requires Lowercase(d)
    ensures DropDoiPrefixes(Lower(DoiHost + DoiScheme + d)) == DoiScheme + d
  {
    var t := DoiScheme + d;
    Associative(DoiHost, DoiScheme, d);
    PrefixesLowercase();
    LowercaseConcat(DoiScheme, d);
    LowerOfPrefixed(DoiHost, t);
    DoiHostDropped(t);
  }

  lemma PrefixesLowercase()
    ensures Lowercase(HttpsDoi) && Lowercase(HttpDoi) && Lowercase(DoiScheme) && Lowercase(DoiHost)
  {
  }

  /** Lower-casing leaves a lower-case prefix and body alone. */
  lemma LowerOfPrefixed(p: string, d: string)
    requires Lowercase(p) && Lowercase(d)
    ensures Lower(p + d) == p + d
  {
    LowercaseConcat(p, d);
    LowerOfLowercase(p + d);
  }

  /** Replaces every title punctuation character with a space. */
  function BlankPunctuation(s: string): (r: string)
    ensures |r| == |s|
    ensures forall c | c in r :: c !in TitlePunctuation
    ensures forall c | c in r :: c == ' ' || c in s
  {
    var r := seq(|s|, i requires 0 <= i < |s| => if s[i] in TitlePunctuation then ' ' else s[i]);
    assert forall c | c in r :: c == ' ' || c in s by {
      forall c | c in r ensures c == ' ' || c in s {
        var i :| 0 <= i < |r| && r[i] == c;
        assert s[i] in s;
      }
    }
    r
  }

  /** No capitals and no title punctuation. */
  predicate TitleChars(s: string) {
    forall c | c in s :: !IsUpper(c) && c !in TitlePunctuation
  }

  /** Text in normalised-title form: no capitals, no title punctuation, and
      whitespace only as single spaces between words. */
  predicate NormalTitle(s: string) {
    TitleChars(s) && SingleSpaced(s)
  }

  /** `normalize_title`: lower-case, blank out punctuation, collapse
      whitespace runs to single spaces and trim. */
  function NormalizeTitle(title: string): (r: string)
    ensures title == "" ==> r == ""
    ensures NormalTitle(r)
  {
    if title == "" then ""
    else
      var ws := Words(Clean(title));
      JoinWordsSingleSpaced(ws);
      CollapsedTitleChars(Clean(title));
      JoinWords(ws)
  }

  /** The first two steps of `normalize_title`. */
  function Clean(s: string): (r: string)
    ensures TitleChars(r)
  {
    var l := Lower(s);
    var r := BlankPunctuation(l);
    assert forall c | c in r :: c == ' ' || c in l;
    r
  }

  /** Splitting and re-joining keeps the characters allowed in a title. */
  lemma CollapsedTitleChars(s: string)
    requires TitleChars(s)
    ensures TitleChars(JoinWords(Words(s)))
  {
    var ws := Words(s);
    WordsChars(s);
    JoinWordsChars(ws);
    forall c | c in JoinWords(ws) ensures !IsUpper(c) && c !in TitlePunctuation {
      if c != ' ' {
        var w :| w in ws && c in w;
        assert c in s;
      }
    }
  }

  /** Text in normalised-title form is the single-spaced join of its words. */
  lemma NormalTitleIsJoinOfWords(s: string)
    requires NormalTitle(s)
    ensures JoinWords(Words(s)) == s
  {
    if |s| > 0 {
      NormalTitleWords(s);
    }
  }

  /** Single-spaced text is rebuilt from its words, proved by peeling off the
      first word. */
  lemma {:induction false} NormalTitleWords(s: string)
    requires SingleSpaced(s)
    ensures JoinWords(Words(s)) == s
    decreases |s|
  {
    if |s| > 0 {
      assert !IsSpace(s[0]);
      var w := TakeWord(s);
      assert Words(s) == [w] + Words(s[|w|..]);
      if |w| == |s| {
        assert s[|w|..] == [];
      } else {
        var tail := s[|w| + 1..];
        SingleSpacedAfterSpace(s, |w| + 1);
        assert s[|w|..][1..] == tail;
        assert Words(s[|w|..]) == Words(tail);
        NormalTitleWords(tail);
        var tw := Words(tail);
        assert tw != [] by {
          assert tail[0] == s[|w| + 1];
        }
        JoinWordsCons(w, tw);
        assert s == w + " " + tail;
      }
    }
  }

  /** After a space, single-spaced text goes on with a word and stays
      single-spaced. */
  lemma SingleSpacedAfterSpace(s: string, k: int)
    requires SingleSpaced(s) && 0 < k < |s| && IsSpace(s[k - 1])
    ensures SingleSpaced(s[k..]) && !IsSpace(s[k])
  {
    var t := s[k..];
    forall i | 0 <= i < |t| && IsSpace(t[i])
      ensures t[i] == ' ' && 0 < i < |t| - 1 && !IsSpace(t[i - 1]) && !IsSpace(t[i + 1])
    {
      assert t[i] == s[k + i];
    }
  }

  lemma JoinWordsCons(w: string, ws: seq<string>)
    requires ws != []
    ensures JoinWords([w] + ws) == w + " " + JoinWords(ws)
  {
    assert ([w] + ws)[1..] == ws;
  }

  /** Normalised titles are fixed points of `normalize_title`. */
  lemma NormalizeTitleIdempotentOnNormal(n: string)
    requires NormalTitle(n)
    ensures NormalizeTitle(n) == n
  {
    if n != "" {
      assert Lowercase(n);
      LowerOfLowercase(n);
      assert BlankPunctuation(n) == n;
      NormalTitleIsJoinOfWords(n);
    }
  }

  /** `normalize_title` is idempotent. */
  lemma NormalizeTitleIdempotent(title: string)
    ensures NormalizeTitle(NormalizeTitle(title)) == NormalizeTitle(title)
  {
    NormalizeTitleIdempotentOnNormal(NormalizeTitle(title));
  }

  /** Letter case never matters to `normalize_title`. */
  lemma NormalizeTitleIgnoresCase(a: string, b: string)
    requires Lower(a) == Lower(b)
    ensures NormalizeTitle(a) == NormalizeTitle(b)
  {
  }

  /** Surrounding whitespace never matters to `normalize_title`. */
  lemma NormalizeTitleIgnoresPadding(pre: string, title: string, post: string)
    requires forall c | c in pre :: IsSpace(c)
    requires forall c | c in post :: IsSpace(c)
    ensures NormalizeTitle(pre + title + post) == NormalizeTitle(title)
  {
    var s := pre + title + post;
    if s != "" {
      CleanConcat(pre, title, post);
      SpacesStaySpaces(pre);
      SpacesStaySpaces(post);
      WordsOfPadded(Clean(pre), Clean(title), Clean(post));
      if title == "" {
        assert Clean(title) == [];
      }
    }
  }

  /** Each punctuation character separates words exactly as a space does. */
  lemma PunctuationIsSpace(a: string, c: char, b: string)
    requires c in TitlePunctuation
    ensures NormalizeTitle(a + [c] + b) == NormalizeTitle(a + " " + b)
  {
    CleanConcat(a, [c], b);
    CleanConcat(a, " ", b);
    assert Clean([c]) == " " == Clean(" ");
  }

  /** A whitespace or punctuation character between two titles that each
      keep a word becomes exactly one space: the normal form of the whole is
      the two normal forms joined by a single space, however much whitespace
      or punctuation surrounds the separator. */
  lemma NormalizeTitleAroundSpace(a: string, c: char, b: string)
    requires IsSpace(c) || c in TitlePunctuation
    requires NormalizeTitle(a) != "" && NormalizeTitle(b) != ""
    ensures NormalizeTitle(a + [c] + b) == NormalizeTitle(a) + " " + NormalizeTitle(b)
  {
    CleanConcat(a, [c], b);
    var blank := CleanSeparator(c);
    WordsAroundSpace(Clean(a), blank, Clean(b));
    JoinWordsAppend(Words(Clean(a)), Words(Clean(b)));
  }

  /** A separator character cleans to a single whitespace character. */
  lemma CleanSeparator(c: char) returns (blank: char)
    requires IsSpace(c) || c in TitlePunctuation
    ensures IsSpace(blank) && Clean([c]) == [blank]
  {
    blank := if c in TitlePunctuation then ' ' else c;
    assert Lower([c]) == [c];
  }

  /** Whitespace around a text does not change its words. */
  lemma WordsOfPadded(a: string, b: string, c: string)
    requires forall x | x in a :: IsSpace(x)
    requires forall x | x in c :: IsSpace(x)
    ensures Words(a + b + c) == Words(b)
  {
    assert a + b + c == a + (b + c);
    WordsSkipsLeadingSpace(a, b + c);
    WordsSkipsTrailingSpace(b, c);
  }

  /** Lower-casing and blanking work character by character. */
  lemma CleanConcat(a: string, b: string, c: string)
    ensures Clean(a + b + c) == Clean(a) + Clean(b) + Clean(c)
  {
  }

  /** Whitespace passes through lower-casing and punctuation blanking. */
  lemma SpacesStaySpaces(w: string)
    requires forall c | c in w :: IsSpace(c)
    ensures forall c | c in Clean(w) :: IsSpace(c)
  {
    forall c | c in Clean(w) ensures IsSpace(c) {
      var l := Lower(w);
      var i :| 0 <= i < |l| && BlankPunctuation(l)[i] == c;
      assert w[i] in w;
    }
  }

  /** Trailing whitespace does not change the words. */
  lemma {:induction false} WordsSkipsTrailingSpace(s: string, w: string)
    requires forall c | c in w :: IsSpace(c)
    ensures Words(s + w) == Words(s)
    decreases |s|
  {
    if |s| == 0 {
      assert s + w == w + [];
      WordsSkipsLeadingSpace(w, []);
    } else if IsSpace(s[0]) {
      assert (s + w)[1..] == s[1..] + w;
      WordsSkipsTrailingSpace(s[1..], w);
    } else {
      var t := TakeWord(s);
      TakeWordStopsAtSpace(s, w);
      assert (s + w)[|t|..] == s[|t|..] + w;
      WordsSkipsTrailingSpace(s[|t|..], w);
    }
  }

  /** Whitespace after `s` cannot lengthen its first word. */
  lemma {:induction false} TakeWordStopsAtSpace(s: string, w: string)
    requires forall c | c in w :: IsSpace(c)
    ensures TakeWord(s + w) == TakeWord(s)
  {
    if |s| == 0 {
      assert s + w == w;
      if |w| > 0 {
        assert w[0] in w;
      }
    } else if !IsSpace(s[0]) {
      assert (s + w)[1..] == s[1..] + w;
      TakeWordStopsAtSpace(s[1..], w);
    }
  }

  /** The title used by the repository's own normalisation tests. */
  const SampleTitle: string := "test paper title"

  /** The sample title is its own normal form. */
  lemma SampleTitleNormal()
    ensures NormalizeTitle(SampleTitle) == SampleTitle
  {
    SampleTitleIsNormal();
    NormalizeTitleIdempotentOnNormal(SampleTitle);
  }

  lemma SampleTitleIsNormal()
    ensures NormalTitle(SampleTitle)
  {
    var ws := ["test", "paper", "title"];
    SampleTitleWords();
    JoinWordsSingleSpaced(ws);
    assert forall c | c in SampleTitle :: 'a' <= c <= 'z' || c == ' ';
    LettersAreTitleChars(SampleTitle);
  }

  lemma LettersAreTitleChars(s: string)
    requires forall c | c in s :: 'a' <= c <= 'z' || c == ' '
    ensures TitleChars(s)
  {
  }

  lemma SampleTitleWords()
    ensures SampleTitle == JoinWords(["test", "paper", "title"])
  {
    var ws := ["test", "paper", "title"];
    assert ws[1..] == ["paper", "title"];
    assert ws[1..][1..] == ["title"];
  }

  /** Padding the sample title with spaces, as the test does, changes nothing. */
  lemma SampleTitlePadded()
    ensures NormalizeTitle("  " + SampleTitle + "  ") == SampleTitle
  {
    SampleTitleNormal();
    NormalizeTitleIgnoresPadding("  ", SampleTitle, "  ");
  }

  /** The upper-case spelling of the sample title normalises to it too. */
  lemma SampleTitleUpper()
    ensures NormalizeTitle("TEST PAPER TITLE") == SampleTitle
  {
    var u := "TEST PAPER TITLE";
    assert Lower(u) == SampleTitle by {
      assert |u| == |SampleTitle|;
      forall i | 0 <= i < |u|
        ensures LowerChar(u[i]) == SampleTitle[i]
      {
      }
    }
    SampleTitleIsNormal();
    LowerOfLowercase(SampleTitle);
    NormalizeTitleIgnoresCase(u, SampleTitle);
    SampleTitleNormal();
  }
}
