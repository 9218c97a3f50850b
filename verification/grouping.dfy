/** The greedy grouping sweep shared by `deduplicate_papers`,
    `merge_duplicate_papers` and `find_duplicates`: each index not yet
    claimed, in input order, heads a new group and claims every later
    unclaimed index whose paper matches the head's. Groups hold indices into
    the input. This is not a transitive closure: a paper joins a group only by
    matching its head. */
module Grouping {
  import opened Normalize
  import opened Papers
  import opened Matcher

  /** Strictly increasing indices. */
  predicate Increasing(s: seq<nat>) {
    forall a, b | 0 <= a < b < |s| :: s[a] < s[b]
  }

  lemma IncreasingCons(x: nat, s: seq<nat>)
    requires Increasing(s) && forall y | y in s :: x < y
    ensures Increasing([x] + s)
  {
    forall a, b | 0 <= a < b < |s| + 1
      ensures ([x] + s)[a] < ([x] + s)[b]
    {
      assert ([x] + s)[b] == s[b - 1] && s[b - 1] in s;
      if a > 0 {
        assert ([x] + s)[a] == s[a - 1];
      } else {
        assert ([x] + s)[a] == x;
      }
    }
  }

  /** The positions of the items of `s` that `keep` selects, in increasing
      order: the indices a loop over `s` that acts only on selected items
      visits. */
  function Positions<T>(s: seq<T>, keep: T -> bool): (r: seq<nat>)
    ensures Increasing(r)
    ensures forall j | 0 <= j < |r| :: r[j] < |s| && keep(s[r[j]])
    ensures forall i | 0 <= i < |s| && keep(s[i]) :: i in r
    decreases |s|, 1
  {
    if |s| == 0 then []
    else
      var later := Shift(Positions(s[1..], keep));
      ShiftedPositions(s, keep);
      if keep(s[0]) then
        IncreasingCons(0, later);
        [0] + later
      else later
  }

  lemma PositionsCons<T>(s: seq<T>, keep: T -> bool)
    requires |s| > 0
    ensures var later := Shift(Positions(s[1..], keep));
      Positions(s, keep) == if keep(s[0]) then [0] + later else later
  {
  }

  /** Each index one higher. */
  function Shift(r: seq<nat>): (t: seq<nat>)
    ensures |t| == |r| && forall j | 0 <= j < |r| :: t[j] == r[j] + 1
  {
    seq(|r|, j requires 0 <= j < |r| => r[j] + 1)
  }

  /** The positions in the tail of `s`, shifted by one, are the positions in
      `s` past the first. */
  lemma ShiftedPositions<T>(s: seq<T>, keep: T -> bool)
    requires |s| > 0
    ensures var later := Shift(Positions(s[1..], keep));
      && Increasing(later)
      && (forall j | 0 <= j < |later| :: 0 < later[j] < |s| && keep(s[later[j]]))
      && (forall i | 1 <= i < |s| && keep(s[i]) :: i in later)
    decreases |s|, 0
  {
    var rest := Positions(s[1..], keep);
    var later := Shift(rest);
    forall j | 0 <= j < |later|
      ensures 0 < later[j] < |s| && keep(s[later[j]])
    {
      assert s[later[j]] == s[1..][rest[j]];
    }
    forall i | 1 <= i < |s| && keep(s[i])
      ensures i in later
    {
      assert s[1..][i - 1] == s[i];
      var j :| 0 <= j < |rest| && rest[j] == i - 1;
      assert later[j] == i;
    }
  }

  /** No index occurs twice. */
  predicate Distinct(s: seq<nat>) {
    forall a, b | 0 <= a < b < |s| :: s[a] != s[b]
  }

  /** The groups' indices, group after group. */
  function Flatten(gs: seq<seq<nat>>): seq<nat> {
    if |gs| == 0 then [] else gs[0] + Flatten(gs[1..])
  }

  /** Every index of `g` lies in `[lo, hi)` and is not in `claimed`. */
  predicate Within(g: seq<nat>, lo: nat, hi: nat, claimed: set<nat>) {
    forall k | 0 <= k < |g| :: lo <= g[k] < hi && g[k] !in claimed
  }

  /** The elements of a sequence, as a set. */
  function Elems(g: seq<nat>): (r: set<nat>)
    ensures forall x :: x in r <==> x in g
  {
    set x | x in g
  }

  /** The inner loop: the indices `j, j + 1, ..., n - 1`, in order, that are
      not claimed and that `same` relates to `i`. */
  function Claims(n: nat, same: (nat, nat) -> bool, i: nat, j: nat, claimed: set<nat>): (r: seq<nat>)
    requires j <= n
    ensures Increasing(r) && Within(r, j, n, claimed)
    ensures forall k | 0 <= k < |r| :: same(i, r[k])
    ensures forall k: nat | j <= k < n && k !in claimed && same(i, k) :: k in r
    decreases n - j
  {
    if j == n then []
    else if j !in claimed && same(i, j) then
      var rest := Claims(n, same, i, j + 1, claimed);
      IncreasingCons(j, rest);
      [j] + rest
    else Claims(n, same, i, j + 1, claimed)
  }

  /** The group headed by the unclaimed index `i`. */
  function GroupAt(n: nat, same: (nat, nat) -> bool, i: nat, claimed: set<nat>): (g: seq<nat>)
    requires i < n && i !in claimed
    ensures |g| > 0 && g[0] == i && Increasing(g) && Within(g, i, n, claimed)
    ensures forall k | 1 <= k < |g| :: same(i, g[k])
  {
    var rest := Claims(n, same, i, i + 1, claimed);
    IncreasingCons(i, rest);
    [i] + rest
  }

  /** The outer loop over indices `i, i + 1, ..., n - 1`, with the indices in
      `claimed` already taken by earlier groups. The pairwise test `same` is a
      parameter: the sweep's properties hold whatever the test, and `Group`
      instantiates it with `AreSamePaper` on the input papers. */
  function Sweep(n: nat, same: (nat, nat) -> bool, i: nat, claimed: set<nat>): (r: seq<seq<nat>>)
    requires i <= n
    ensures |r| <= n - i
    decreases n - i
  {
    if i == n then []
    else if i in claimed then Sweep(n, same, i + 1, claimed)
    else
      var g := GroupAt(n, same, i, claimed);
      [g] + Sweep(n, same, i + 1, claimed + Elems(g))
  }

  /** `are_same_paper` on the papers at two indices. */
  function SameAt(ps: seq<Paper>): (r: (nat, nat) -> bool)
    ensures forall i: nat, j: nat | i < |ps| && j < |ps| :: r(i, j) == AreSamePaper(ps[i], ps[j])
  {
    (i: nat, j: nat) => i < |ps| && j < |ps| && AreSamePaper(ps[i], ps[j])
  }

  /** The groups of `ps`, as lists of indices. */
  function Group(ps: seq<Paper>): (r: seq<seq<nat>>)
    ensures |r| <= |ps|
  {
    Sweep(|ps|, SameAt(ps), 0, {})
  }

  /** The indices `lo, lo + 1, ..., hi - 1`. */
  function Range(lo: nat, hi: nat): (r: seq<nat>)
    requires lo <= hi
    ensures |r| == hi - lo && forall k | 0 <= k < |r| :: r[k] == lo + k
    decreases hi - lo
  {
    if lo == hi then [] else [lo] + Range(lo + 1, hi)
  }

  lemma DistinctConcat(s: seq<nat>, t: seq<nat>)
    requires Distinct(s) && Distinct(t) && forall x | x in t :: x !in s
    ensures Distinct(s + t)
  {
    forall a, b | 0 <= a < b < |s| + |t|
      ensures (s + t)[a] != (s + t)[b]
    {
      if a >= |s| {
        assert (s + t)[a] == t[a - |s|] && (s + t)[b] == t[b - |s|];
      } else if b >= |s| {
        assert (s + t)[b] == t[b - |s|] && t[b - |s|] in t;
      }
    }
  }

  lemma FlattenCons(g: seq<nat>, gs: seq<seq<nat>>)
    ensures Flatten([g] + gs) == g + Flatten(gs)
  {
    assert ([g] + gs)[1..] == gs;
  }

  lemma IncreasingDistinct(s: seq<nat>)
    requires Increasing(s)
    ensures Distinct(s)
  {
  }

  /** Group heads appear in increasing order. */
  predicate HeadsIncrease(r: seq<seq<nat>>) {
    forall a, b | 0 <= a < b < |r| && |r[a]| > 0 && |r[b]| > 0 :: r[a][0] < r[b][0]
  }

  /** No member of a later group is related to the head of an earlier one. */
  predicate LaterUnmatched(r: seq<seq<nat>>, same: (nat, nat) -> bool) {
    forall a, b, k | 0 <= a < b < |r| && 0 <= k < |r[b]| && |r[a]| > 0 :: !same(r[a][0], r[b][k])
  }

  /** Every group of the sweep is non-empty and increasing, and holds only
      indices from `i` on that were unclaimed on entry. */
  lemma {:induction false} SweepShape(n: nat, same: (nat, nat) -> bool, i: nat, claimed: set<nat>)
    requires i <= n
    ensures forall g | g in Sweep(n, same, i, claimed) ::
      |g| > 0 && Increasing(g) && Within(g, i, n, claimed)
    decreases n - i
  {
    if i == n {
    } else if i in claimed {
      SweepShape(n, same, i + 1, claimed);
    } else {
      var g := GroupAt(n, same, i, claimed);
      SweepShape(n, same, i + 1, claimed + Elems(g));
    }
  }

  /** The sweep's groups, taken together, list every unclaimed index from `i`
      on exactly once, and nothing else. */
  lemma {:induction false} SweepPartition(n: nat, same: (nat, nat) -> bool, i: nat, claimed: set<nat>)
    requires i <= n
    ensures var f := Flatten(Sweep(n, same, i, claimed));
      && Distinct(f)
      && (forall x | x in f :: i <= x < n && x !in claimed)
      && (forall k: nat | i <= k < n && k !in claimed :: k in f)
    decreases n - i
  {
    if i == n {
    } else if i in claimed {
      SweepPartition(n, same, i + 1, claimed);
    } else {
      var g := GroupAt(n, same, i, claimed);
      var claimed' := claimed + Elems(g);
      var rest := Flatten(Sweep(n, same, i + 1, claimed'));
      SweepPartition(n, same, i + 1, claimed');
      FlattenCons(g, Sweep(n, same, i + 1, claimed'));
      IncreasingDistinct(g);
      DistinctConcat(g, rest);
    }
  }

  /** Group heads appear in increasing input order. */
  lemma {:induction false} SweepHeadsIncrease(n: nat, same: (nat, nat) -> bool, i: nat, claimed: set<nat>)
    requires i <= n
    ensures HeadsIncrease(Sweep(n, same, i, claimed))
    decreases n - i
  {
    if i == n {
    } else if i in claimed {
      assert Sweep(n, same, i, claimed) == Sweep(n, same, i + 1, claimed);
      SweepHeadsIncrease(n, same, i + 1, claimed);
    } else {
      var g := GroupAt(n, same, i, claimed);
      var rest := Sweep(n, same, i + 1, claimed + Elems(g));
      SweepHeadsIncrease(n, same, i + 1, claimed + Elems(g));
      SweepShape(n, same, i + 1, claimed + Elems(g));
      var r := [g] + rest;
      assert Sweep(n, same, i, claimed) == r;
      forall a, b | 0 <= a < b < |r| && |r[a]| > 0 && |r[b]| > 0
        ensures r[a][0] < r[b][0]
      {
        assert r[b] == rest[b - 1] && rest[b - 1] in rest;
        if a > 0 {
          assert r[a] == rest[a - 1];
        } else {
          assert r[a] == g && Within(rest[b - 1], i + 1, n, claimed + Elems(g));
          assert rest[b - 1][0] > i;
        }
      }
    }
  }

  /** Every member of a group after its head is related to the head. */
  lemma {:induction false} SweepMembersMatchHead(n: nat, same: (nat, nat) -> bool, i: nat, claimed: set<nat>)
    requires i <= n
    ensures forall g | g in Sweep(n, same, i, claimed) ::
      forall k | 1 <= k < |g| :: same(g[0], g[k])
    decreases n - i
  {
    if i == n {
    } else if i in claimed {
      SweepMembersMatchHead(n, same, i + 1, claimed);
    } else {
      var g := GroupAt(n, same, i, claimed);
      SweepMembersMatchHead(n, same, i + 1, claimed + Elems(g));
    }
  }

  /** No member of a later group is related to the head of an earlier group:
      it was still unclaimed when that group was formed, so the head would
      have claimed it. */
  lemma {:induction false} SweepLaterUnmatched(n: nat, same: (nat, nat) -> bool, i: nat, claimed: set<nat>)
    requires i <= n
    ensures LaterUnmatched(Sweep(n, same, i, claimed), same)
    decreases n - i
  {
    if i == n {
    } else if i in claimed {
      assert Sweep(n, same, i, claimed) == Sweep(n, same, i + 1, claimed);
      SweepLaterUnmatched(n, same, i + 1, claimed);
    } else {
      var g := GroupAt(n, same, i, claimed);
      var claimed' := claimed + Elems(g);
      var rest := Sweep(n, same, i + 1, claimed');
      SweepLaterUnmatched(n, same, i + 1, claimed');
      SweepShape(n, same, i + 1, claimed');
      var r := [g] + rest;
      assert Sweep(n, same, i, claimed) == r;
      forall a, b, k | 0 <= a < b < |r| && 0 <= k < |r[b]| && |r[a]| > 0
        ensures !same(r[a][0], r[b][k])
      {
        assert r[b] == rest[b - 1] && rest[b - 1] in rest;
        if a > 0 {
          assert r[a] == rest[a - 1];
          assert !same(rest[a - 1][0], rest[b - 1][k]);
        } else {
          var x := rest[b - 1][k];
          assert Within(rest[b - 1], i + 1, n, claimed');
          assert x !in claimed' && i < x < n;
          assert r[a] == g && r[b][k] == x;
          HeadMissesUnclaimed(n, same, i, claimed, x);
        }
      }
    }
  }

  /** An index after `i` that the group at `i` left unclaimed is not related
      to `i`. */
  lemma HeadMissesUnclaimed(n: nat, same: (nat, nat) -> bool, i: nat, claimed: set<nat>, x: nat)
    requires i < x < n && i !in claimed && x !in claimed
    requires x !in GroupAt(n, same, i, claimed)
    ensures !same(i, x)
  {
    var c := Claims(n, same, i, i + 1, claimed);
    assert GroupAt(n, same, i, claimed) == [i] + c;
    assert x !in c;
  }

  lemma {:induction false} ClaimsNone(n: nat, same: (nat, nat) -> bool, i: nat, j: nat, claimed: set<nat>)
    requires j <= n
    requires forall b | j <= b < n :: !same(i, b)
    ensures Claims(n, same, i, j, claimed) == []
    decreases n - j
  {
    if j < n {
      ClaimsNone(n, same, i, j + 1, claimed);
    }
  }

  lemma {:induction false} ClaimsAll(n: nat, same: (nat, nat) -> bool, i: nat, j: nat, claimed: set<nat>)
    requires j <= n
    requires forall b | j <= b < n :: b !in claimed && same(i, b)
    ensures Claims(n, same, i, j, claimed) == Range(j, n)
    decreases n - j
  {
    if j < n {
      ClaimsAll(n, same, i, j + 1, claimed);
    }
  }

  lemma {:induction false} SweepAllClaimed(n: nat, same: (nat, nat) -> bool, i: nat, claimed: set<nat>)
    requires i <= n
    requires forall b | i <= b < n :: b in claimed
    ensures Sweep(n, same, i, claimed) == []
    decreases n - i
  {
    if i < n {
      SweepAllClaimed(n, same, i + 1, claimed);
    }
  }

  /** When no index is related to a later one, every index is a group of its
      own. */
  lemma {:induction false} SweepNoMatches(n: nat, same: (nat, nat) -> bool, i: nat, claimed: set<nat>)
    requires i <= n
    requires forall c | c in claimed :: c < i
    requires forall a, b | i <= a < b < n :: !same(a, b)
    ensures Sweep(n, same, i, claimed) == seq(n - i, k requires 0 <= k < n - i => [i + k])
    decreases n - i
  {
    if i < n {
      ClaimsNone(n, same, i, i + 1, claimed);
      var g := GroupAt(n, same, i, claimed);
      assert g == [i];
      SweepNoMatches(n, same, i + 1, claimed + Elems(g));
    }
  }

  /** The groups of `ps`: each non-empty and increasing, every index below
      `|ps|` in exactly one group exactly once, heads in increasing order. */
  lemma GroupPartition(ps: seq<Paper>)
    ensures var gs := Group(ps);
      && (forall g | g in gs :: |g| > 0 && Increasing(g) && Within(g, 0, |ps|, {}))
      && Distinct(Flatten(gs))
      && (forall k: nat | k < |ps| :: k in Flatten(gs))
      && HeadsIncrease(gs)
  {
    SweepShape(|ps|, SameAt(ps), 0, {});
    SweepPartition(|ps|, SameAt(ps), 0, {});
    SweepHeadsIncrease(|ps|, SameAt(ps), 0, {});
  }

  /** Within a group, every later member is a duplicate of the head
      (`SameAt(ps)` is `are_same_paper` on the papers at two indices). */
  lemma GroupMembersMatchHead(ps: seq<Paper>)
    ensures forall g | g in Group(ps) :: Within(g, 0, |ps|, {})
    ensures forall g, k | g in Group(ps) && 1 <= k < |g| :: SameAt(ps)(g[0], g[k])
  {
    SweepShape(|ps|, SameAt(ps), 0, {});
    SweepMembersMatchHead(|ps|, SameAt(ps), 0, {});
  }

  /** No member of a later group is a duplicate of an earlier group's head;
      in particular no head matches a later head. */
  lemma GroupLaterUnmatched(ps: seq<Paper>)
    ensures LaterUnmatched(Group(ps), SameAt(ps))
  {
    SweepLaterUnmatched(|ps|, SameAt(ps), 0, {});
  }

  /** A list in which no paper matches a later one keeps every paper in a
      group of its own. */
  lemma GroupNoDuplicates(ps: seq<Paper>)
    requires forall a, b | 0 <= a < b < |ps| :: !AreSamePaper(ps[a], ps[b])
    ensures Group(ps) == seq(|ps|, k requires 0 <= k < |ps| => [k])
  {
    SweepNoMatches(|ps|, SameAt(ps), 0, {});
  }

  /** When the first index is related to every other, all indices form one
      group. */
  lemma SweepAllMatchFirst(n: nat, same: (nat, nat) -> bool)
    requires n > 0
    requires forall b | 1 <= b < n :: same(0, b)
    ensures Sweep(n, same, 0, {}) == [Range(0, n)]
  {
    ClaimsAll(n, same, 0, 1, {});
    var g := GroupAt(n, same, 0, {});
    assert g == [0] + Range(1, n) == Range(0, n);
    assert forall b | 1 <= b < n :: g[b] == b && b in Elems(g);
    SweepAllClaimed(n, same, 1, {} + Elems(g));
  }

  /** Papers whose DOIs all normalise to the same non-empty text form one
      group, whatever their titles, authors and dates. */
  lemma GroupSameDoi(ps: seq<Paper>)
    requires |ps| > 0 && SharedDoi(ps)
    ensures Group(ps) == [Range(0, |ps|)]
  {
    SameDoiFirstMatchesAll(ps);
    SweepAllMatchFirst(|ps|, SameAt(ps));
  }

  /** Every paper's DOI normalises to the first paper's, which is not empty. */
  predicate SharedDoi(ps: seq<Paper>)
    requires |ps| > 0
  {
    && NormalizeDoi(ps[0].doi) != ""
    && forall b | 0 <= b < |ps| :: NormalizeDoi(ps[b].doi) == NormalizeDoi(ps[0].doi)
  }

  lemma SameDoiFirstMatchesAll(ps: seq<Paper>)
    requires |ps| > 0 && SharedDoi(ps)
    ensures forall b | 1 <= b < |ps| :: SameAt(ps)(0, b)
  {
    forall b | 1 <= b < |ps|
      ensures SameAt(ps)(0, b)
    {
      SameDoiPair(ps, b);
    }
  }

  lemma SameDoiPair(ps: seq<Paper>, b: nat)
    requires b < |ps| && NormalizeDoi(ps[0].doi) != ""
    requires NormalizeDoi(ps[b].doi) == NormalizeDoi(ps[0].doi)
    ensures SameAt(ps)(0, b)
  {
    DoiMatchDecides(ps[0], ps[b]);
  }
}
