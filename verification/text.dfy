/** String primitives with the meaning Python's `str` methods give them on
    ASCII text: `lower`, `strip`, `rstrip(ch)`, `startswith`, the `in`
    substring test, `split()` / `" ".join(...)` and `split(sep)`. */
module Text {

  /** Concatenation is associative. */
  lemma Associative<T>(x: seq<T>, y: seq<T>, z: seq<T>)
    ensures x + (y + z) == (x + y) + z
  {
  }

  /** ASCII upper-case letter. */
  predicate IsUpper(c: char) {
    'A' <= c <= 'Z'
  }

  /** The ASCII characters `str.isspace()` accepts: tab, line feed, vertical
      tab, form feed, carriage return, the four separators 0x1c-0x1f, and the
      space. */
  predicate IsSpace(c: char) {
    var n := c as int;
    n == 32 || 9 <= n <= 13 || 28 <= n <= 31
  }

  /** Text without ASCII capitals. */
  predicate Lowercase(s: string) {
    forall c | c in s :: !IsUpper(c)
  }

  lemma LowercaseConcat(a: string, b: string)
    requires Lowercase(a) && Lowercase(b)
    ensures Lowercase(a + b)
  {
    assert forall c | c in a + b :: c in a || c in b;
  }

  function LowerChar(c: char): (r: char)
    ensures !IsUpper(r)
    ensures IsUpper(c) ==> r as int == c as int + 32
    ensures !IsUpper(c) ==> r == c
  {
    if IsUpper(c) then (c as int + 32) as char else c
  }

  /** `s.lower()`, restricted to ASCII letters. */
  function Lower(s: string): (r: string)
    ensures |r| == |s|
    ensures forall i :: 0 <= i < |s| ==> r[i] == LowerChar(s[i])
    ensures Lowercase(r)
  {
    seq(|s|, i requires 0 <= i < |s| => LowerChar(s[i]))
  }

  /** Lower-casing leaves text without capitals unchanged. */
  lemma LowerOfLowercase(s: string)
    requires Lowercase(s)
    ensures Lower(s) == s
  {
    forall i | 0 <= i < |s|
      ensures Lower(s)[i] == s[i]
    {
      assert s[i] in s;
    }
  }

  /** Every character of a slice is a character of the whole. */
  lemma SliceChars(s: string, a: int, b: int)
    requires 0 <= a <= b <= |s|
    ensures forall c | c in s[a..b] :: c in s
  {
    forall c | c in s[a..b] ensures c in s {
      var i :| 0 <= i < b - a && s[a..b][i] == c;
      assert s[a + i] == c;
    }
  }

  predicate StartsWith(s: string, p: string) {
    |p| <= |s| && s[..|p|] == p
  }

  /** `s.lstrip()`: drops the leading whitespace and nothing else. */
  function LStrip(s: string): (r: string)
    ensures |r| <= |s| && r == s[|s| - |r|..]
    ensures forall k :: 0 <= k < |s| - |r| ==> IsSpace(s[k])
    ensures r == [] || !IsSpace(r[0])
  {
    if |s| > 0 && IsSpace(s[0]) then LStrip(s[1..]) else s
  }

  /** `s.rstrip()`: drops the trailing whitespace and nothing else. */
  function RStrip(s: string): (r: string)
    ensures |r| <= |s| && r == s[..|r|]
    ensures forall k :: |r| <= k < |s| ==> IsSpace(s[k])
    ensures r == [] || !IsSpace(r[|r| - 1])
  {
    if |s| > 0 && IsSpace(s[|s| - 1]) then RStrip(s[..|s| - 1]) else s
  }

  /** `s.strip()`. */
  function Strip(s: string): (r: string)
    ensures r == [] || (!IsSpace(r[0]) && !IsSpace(r[|r| - 1]))
    ensures forall c | c in r :: c in s
  {
    var l := LStrip(s);
    var r := RStrip(l);
    assert forall c | c in r :: c in l;
    assert forall c | c in l :: c in s;
    r
  }

  /** Neither end of `s` is whitespace: what `strip()` leaves. */
  predicate Stripped(s: string) {
    s == [] || (!IsSpace(s[0]) && !IsSpace(s[|s| - 1]))
  }

  /** Stripping a string that is already stripped changes nothing. */
  lemma StripStripped(s: string)
    requires Stripped(s)
    ensures Strip(s) == s
  {
  }

  /** `s.rstrip(ch)`: drops every trailing `ch`. */
  function RStripChar(s: string, ch: char): (r: string)
    ensures |r| <= |s| && r == s[..|r|]
    ensures forall k :: |r| <= k < |s| ==> s[k] == ch
    ensures r == [] || r[|r| - 1] != ch
    ensures forall c | c in r :: c in s
  {
    if |s| > 0 && s[|s| - 1] == ch then
      var r := RStripChar(s[..|s| - 1], ch);
      SliceChars(s, 0, |s| - 1);
      r
    else s
  }

  /** `needle in hay` for strings: `needle` occurs as a contiguous piece of
      `hay`. The empty string occurs in every string. */
  predicate Contains(hay: string, needle: string) {
    StartsWith(hay, needle) || (|hay| > 0 && Contains(hay[1..], needle))
  }

  /** Every string contains itself. */
  lemma ContainsSelf(s: string)
    ensures Contains(s, s)
  {
    assert StartsWith(s, s);
  }

  /** A piece of text with no whitespace, as `str.split()` produces. */
  predicate IsWord(w: string) {
    |w| > 0 && forall c | c in w :: !IsSpace(c)
  }

  /** The longest whitespace-free prefix of `s`. */
  function TakeWord(s: string): (r: string)
    ensures |r| <= |s| && r == s[..|r|]
    ensures forall c | c in r :: !IsSpace(c)
    ensures |r| < |s| ==> IsSpace(s[|r|])
    ensures |s| > 0 && !IsSpace(s[0]) ==> |r| > 0
  {
    if |s| == 0 || IsSpace(s[0]) then [] else [s[0]] + TakeWord(s[1..])
  }

  /** `s.split()`: the maximal whitespace-free runs of `s`, in order. */
  function Words(s: string): (r: seq<string>)
    ensures forall w | w in r :: IsWord(w)
    decreases |s|
  {
    if |s| == 0 then []
    else if IsSpace(s[0]) then Words(s[1..])
    else
      var w := TakeWord(s);
      [w] + Words(s[|w|..])
  }

  /** Every character of a word of `s` is a character of `s`. */
  lemma {:induction false} WordsChars(s: string)
    ensures forall w, c | w in Words(s) && c in w :: c in s
    decreases |s|
  {
    if |s| == 0 {
    } else if IsSpace(s[0]) {
      WordsChars(s[1..]);
      SliceChars(s, 1, |s|);
    } else {
      var w := TakeWord(s);
      WordsChars(s[|w|..]);
      SliceChars(s, 0, |w|);
      SliceChars(s, |w|, |s|);
    }
  }

  /** `" ".join(ws)`. */
  function JoinWords(ws: seq<string>): string {
    if |ws| == 0 then ""
    else if |ws| == 1 then ws[0]
    else ws[0] + " " + JoinWords(ws[1..])
  }

  /** Every character of `" ".join(ws)` is a space or a character of a word. */
  lemma {:induction false} JoinWordsChars(ws: seq<string>)
    ensures forall c | c in JoinWords(ws) :: c == ' ' || exists w | w in ws :: c in w
  {
    if |ws| > 1 {
      JoinWordsChars(ws[1..]);
      assert ws[0] in ws;
      forall c | c in JoinWords(ws) && c != ' '
        ensures exists w | w in ws :: c in w
      {
        assert c in ws[0] || c in JoinWords(ws[1..]);
        if c !in ws[0] {
          var w :| w in ws[1..] && c in w;
          assert w in ws;
        }
      }
    } else if |ws| == 1 {
      assert ws[0] in ws;
    }
  }

  /** Text whose only whitespace is single spaces strictly between two
      non-whitespace characters: no leading, trailing or doubled spaces. */
  predicate SingleSpaced(s: string) {
    forall i :: 0 <= i < |s| && IsSpace(s[i]) ==>
      s[i] == ' ' && 0 < i < |s| - 1 && !IsSpace(s[i - 1]) && !IsSpace(s[i + 1])
  }

  /** Joining whitespace-free words with single spaces gives single-spaced
      text that starts with the first word. */
  lemma {:induction false} JoinWordsSingleSpaced(ws: seq<string>)
    requires forall w | w in ws :: IsWord(w)
    ensures SingleSpaced(JoinWords(ws))
    ensures |ws| > 0 ==> |JoinWords(ws)| > 0 && !IsSpace(JoinWords(ws)[0])
    ensures |ws| > 0 ==> !IsSpace(JoinWords(ws)[|JoinWords(ws)| - 1])
  {
    if |ws| == 0 {
    } else if |ws| == 1 {
      var w := ws[0];
      assert w in ws;
      forall i | 0 <= i < |w| ensures !IsSpace(w[i]) {
        assert w[i] in w;
      }
    } else {
      var w := ws[0];
      assert w in ws;
      var rest := JoinWords(ws[1..]);
      JoinWordsSingleSpaced(ws[1..]);
      forall i | 0 <= i < |w| ensures !IsSpace(w[i]) {
        assert w[i] in w;
      }
      var s := w + " " + rest;
      assert JoinWords(ws) == s;
      forall i | 0 <= i < |s|
        ensures IsSpace(s[i]) ==>
          s[i] == ' ' && 0 < i < |s| - 1 && !IsSpace(s[i - 1]) && !IsSpace(s[i + 1])
      {
        if i < |w| {
          assert s[i] == w[i];
        } else if i == |w| {
          assert s[i + 1] == rest[0];
        } else {
          assert s[i] == rest[i - |w| - 1];
        }
      }
    }
  }

  /** A whitespace-free word followed by nothing or by whitespace is read back
      as that one word first. */
  lemma {:induction false} TakeWordOfWord(w: string, t: string)
    requires forall c | c in w :: !IsSpace(c)
    requires t == [] || IsSpace(t[0])
    ensures TakeWord(w + t) == w
  {
    if |w| == 0 {
      assert w + t == t;
    } else {
      assert w[0] in w;
      assert forall c | c in w[1..] :: c in w;
      TakeWordOfWord(w[1..], t);
      assert (w + t)[1..] == w[1..] + t;
    }
  }

  /** Leading whitespace does not change the words. */
  lemma {:induction false} WordsSkipsLeadingSpace(w: string, s: string)
    requires forall c | c in w :: IsSpace(c)
    ensures Words(w + s) == Words(s)
  {
    if |w| > 0 {
      assert w[0] in w;
      assert forall c | c in w[1..] :: c in w;
      assert (w + s)[1..] == w[1..] + s;
      WordsSkipsLeadingSpace(w[1..], s);
    } else {
      assert w + s == s;
    }
  }

  /** `split()` inverts `" ".join` on whitespace-free words. */
  lemma {:induction false} WordsOfJoin(ws: seq<string>)
    requires forall w | w in ws :: IsWord(w)
    ensures Words(JoinWords(ws)) == ws
  {
    if |ws| == 0 {
    } else {
      var w := ws[0];
      assert w in ws;
      assert w[0] in w;
      if |ws| == 1 {
        TakeWordOfWord(w, []);
        assert w + [] == w;
        assert w[|w|..] == [];
      } else {
        var rest := JoinWords(ws[1..]);
        var t := " " + rest;
        assert JoinWords(ws) == w + t;
        TakeWordOfWord(w, t);
        assert (w + t)[0] == w[0];
        assert (w + t)[|w|..] == t;
        WordsSkipsLeadingSpace(" ", rest);
        WordsOfJoin(ws[1..]);
        assert ws == [w] + ws[1..];
      }
    }
  }

  /** A whitespace character splits the text into the words before it and
      the words after it. */
  lemma {:induction false} WordsAroundSpace(x: string, c: char, y: string)
    requires IsSpace(c)
    ensures Words(x + [c] + y) == Words(x) + Words(y)
    decreases |x|
  {
    var s := x + [c] + y;
    if |x| == 0 {
      assert s[1..] == y;
    } else if IsSpace(x[0]) {
      assert s[1..] == x[1..] + [c] + y;
      WordsAroundSpace(x[1..], c, y);
    } else {
      var w := TakeWord(x);
      TakeWordBeforeSpace(x, [c] + y);
      assert s == x + ([c] + y);
      assert s[|w|..] == x[|w|..] + [c] + y;
      WordsAroundSpace(x[|w|..], c, y);
      Associative([w], Words(x[|w|..]), Words(y));
    }
  }

  /** Text that starts with whitespace cannot lengthen the first word of
      what comes before it. */
  lemma {:induction false} TakeWordBeforeSpace(s: string, t: string)
    requires t != [] && IsSpace(t[0])
    ensures TakeWord(s + t) == TakeWord(s)
  {
    if |s| == 0 {
      assert s + t == t;
    } else if !IsSpace(s[0]) {
      assert (s + t)[1..] == s[1..] + t;
      TakeWordBeforeSpace(s[1..], t);
    }
  }

  /** Joining two non-empty word lists puts one space between their joins. */
  lemma {:induction false} JoinWordsAppend(u: seq<string>, v: seq<string>)
    requires u != [] && v != []
    ensures JoinWords(u + v) == JoinWords(u) + " " + JoinWords(v)
  {
    assert (u + v)[0] == u[0];
    if |u| == 1 {
      assert (u + v)[1..] == v;
    } else {
      assert (u + v)[1..] == u[1..] + v;
      JoinWordsAppend(u[1..], v);
      var a, b := JoinWords(u[1..]), JoinWords(v);
      Associative(u[0] + " ", a, " " + b);
      Associative(u[0] + " " + a, " ", b);
    }
  }

  /** `s.split(sep)`: the pieces between separators, empty pieces included;
      never empty. Joining the pieces back with `sep` gives `s`. */
  function SplitOn(s: string, sep: char): (r: seq<string>)
    ensures |r| >= 1
    ensures forall p | p in r :: sep !in p
    ensures JoinWith(r, sep) == s
  {
    if |s| == 0 then [""]
    else
      var rest := SplitOn(s[1..], sep);
      if s[0] == sep then
        assert JoinWith([""] + rest, sep) == [sep] + JoinWith(rest, sep);
        assert s == [s[0]] + s[1..];
        [""] + rest
      else
        var r := [[s[0]] + rest[0]] + rest[1..];
        assert rest[0] in rest;
        assert forall p | p in rest[1..] :: p in rest;
        if |rest| == 1 then
          assert s == [s[0]] + s[1..];
          r
        else
          assert JoinWith(r, sep) == [s[0]] + rest[0] + [sep] + JoinWith(rest[1..], sep);
          assert s == [s[0]] + s[1..];
          r
  }

  /** `sep.join(ps)` for a non-empty list of pieces. */
  function JoinWith(ps: seq<string>, sep: char): string
    requires |ps| >= 1
  {
    if |ps| == 1 then ps[0] else ps[0] + [sep] + JoinWith(ps[1..], sep)
  }

  /** `split(sep)` inverts `sep.join` when no piece contains `sep`. */
  lemma {:induction false} SplitOnJoinWith(ps: seq<string>, sep: char)
    requires |ps| >= 1
    requires forall p | p in ps :: sep !in p
    ensures SplitOn(JoinWith(ps, sep), sep) == ps
  {
    var p := ps[0];
    assert p in ps;
    if |ps| == 1 {
      SplitOnPiece(p, [], sep);
      assert p + [] == p;
    } else {
      assert forall q | q in ps[1..] :: q in ps;
      SplitOnJoinWith(ps[1..], sep);
      var t := [sep] + JoinWith(ps[1..], sep);
      assert JoinWith(ps, sep) == p + t;
      SplitOnPiece(p, t, sep);
      assert t[0] == sep && t[1..] == JoinWith(ps[1..], sep);
      assert SplitOn(t, sep) == [""] + ps[1..];
      assert p + "" == p;
      assert ps == [p] + ps[1..];
    }
  }

  /** A separator-free piece in front of `t` extends the first piece of
      `t`'s split. */
  lemma {:induction false} SplitOnPiece(p: string, t: string, sep: char)
    requires sep !in p
    ensures var r := SplitOn(t, sep);
      SplitOn(p + t, sep) == [p + r[0]] + r[1..]
  {
    if |p| == 0 {
      var r := SplitOn(t, sep);
      assert p + t == t;
      assert p + r[0] == r[0];
      assert r == [r[0]] + r[1..];
    } else {
      assert p[0] in p;
      assert forall c | c in p[1..] :: c in p;
      SplitOnPiece(p[1..], t, sep);
      assert (p + t)[1..] == p[1..] + t;
      assert [p[0]] + (p[1..] + SplitOn(t, sep)[0]) == p + SplitOn(t, sep)[0];
    }
  }
}
