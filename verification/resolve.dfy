/** The three callers of the grouping sweep: `deduplicate_papers` keeps one
    record per group, `find_duplicates` reports the groups that have
    duplicates, and `merge_duplicate_papers` merges each group. All three
    start from the same `Group`. */
module Resolve {
  import opened Papers
  import opened Matcher
  import opened Grouping
  import opened Merge

  /** Which record of a group `deduplicate_papers` keeps. */
  datatype Keep = First | Last | Best

  /** The `keep` argument: "last" and "best" select those policies; any other
      text, "first" included, keeps the first record. */
  function KeepPolicy(keep: string): (k: Keep)
    ensures k == Last <==> keep == "last"
    ensures k == Best <==> keep == "best"
    ensures k == First <==> keep != "last" && keep != "best"
  {
    if keep == "last" then Last
    else if keep == "best" then Best
    else First
  }

  /** The papers at the indices of a group, in group order. */
  function Members(ps: seq<Paper>, g: seq<nat>): (r: seq<Paper>)
    requires Within(g, 0, |ps|, {})
    ensures |r| == |g| && forall k | 0 <= k < |g| :: r[k] == ps[g[k]]
  {
    seq(|g|, k requires 0 <= k < |g| => ps[g[k]])
  }

  /** The member the `best` policy picks: the position of the first member
      whose completeness score no member beats. */
  function BestOf(group: seq<Paper>): (k: nat)
    requires |group| > 0
    ensures k < |group|
    ensures forall j | 0 <= j < |group| :: CompletenessScore(group[j]) <= CompletenessScore(group[k])
    ensures forall j | 0 <= j < k :: CompletenessScore(group[j]) < CompletenessScore(group[k])
  {
    if |group| == 1 then 0
    else
      var n := |group| - 1;
      var k := BestOf(group[..n]);
      assert forall j | 0 <= j < n :: group[j] == group[..n][j];
      if CompletenessScore(group[n]) > CompletenessScore(group[k]) then n else k
  }

  /** The record a policy keeps from a group. */
  function Keeper(group: seq<Paper>, keep: Keep): (p: Paper)
    requires |group| > 0
    ensures p in group
  {
    match keep
    case First => group[0]
    case Last => group[|group| - 1]
    case Best => group[BestOf(group)]
  }

  /** `deduplicate_papers`: one record per group, in group order. The result
      has one record per group, so it is never longer than the input; it is
      empty exactly when the input is. */
  function DeduplicatePapers(ps: seq<Paper>, keep: string): (r: seq<Paper>)
    ensures |r| == |Group(ps)| <= |ps|
    ensures r == [] <==> ps == []
    ensures forall a | 0 <= a < |r| :: r[a] in ps
  {
    var gs := Group(ps);
    GroupPartition(ps);
    GroupNonEmpty(ps);
    assert forall a | 0 <= a < |gs| :: gs[a] in gs;
    KeepFromGroups(ps, gs, KeepPolicy(keep))
  }

  /** The record a policy keeps from each group, in group order. */
  function KeepFromGroups(ps: seq<Paper>, gs: seq<seq<nat>>, keep: Keep): (r: seq<Paper>)
    requires forall a | 0 <= a < |gs| :: |gs[a]| > 0 && Within(gs[a], 0, |ps|, {})
    ensures |r| == |gs|
    ensures forall a | 0 <= a < |r| :: r[a] in ps
  {
    seq(|gs|, a requires 0 <= a < |gs| => KeptMember(ps, gs[a], keep))
  }

  /** The record a policy keeps from one group, given by its indices. */
  function KeptMember(ps: seq<Paper>, g: seq<nat>, keep: Keep): (p: Paper)
    requires |g| > 0 && Within(g, 0, |ps|, {})
    ensures p in ps
  {
    MembersIn(ps, g);
    Keeper(Members(ps, g), keep)
  }

  lemma MembersIn(ps: seq<Paper>, g: seq<nat>)
    requires Within(g, 0, |ps|, {})
    ensures forall p | p in Members(ps, g) :: p in ps
  {
    var m := Members(ps, g);
    forall p | p in m
      ensures p in ps
    {
      var k :| 0 <= k < |m| && m[k] == p;
      assert p == ps[g[k]];
    }
  }

  /** The input is empty exactly when it has no groups. */
  lemma GroupNonEmpty(ps: seq<Paper>)
    ensures Group(ps) == [] <==> ps == []
  {
    GroupPartition(ps);
    if ps != [] {
      assert 0 in Flatten(Group(ps));
    }
  }

  /** `find_duplicates`: for each group with two or more members, its head
      and the other members, in group order. */
  function FindDuplicates(ps: seq<Paper>): (r: seq<(Paper, seq<Paper>)>)
    ensures |r| <= |Group(ps)|
    ensures forall e | e in r :: |e.1| > 0
  {
    var gs := Group(ps);
    GroupPartition(ps);
    assert forall a | 0 <= a < |gs| :: gs[a] in gs;
    DuplicateGroups(ps, gs)
  }

  /** A group's head and the rest of its members. */
  function Entry(ps: seq<Paper>, g: seq<nat>): (e: (Paper, seq<Paper>))
    requires |g| > 0 && Within(g, 0, |ps|, {})
    ensures e.0 == ps[g[0]] && |e.1| == |g| - 1
    ensures forall k | 1 <= k < |g| :: e.1[k - 1] == ps[g[k]]
  {
    assert Within(g[1..], 0, |ps|, {}) by {
      assert forall k | 0 <= k < |g| - 1 :: g[1..][k] == g[k + 1];
    }
    (ps[g[0]], Members(ps, g[1..]))
  }

  /** A group with a member besides its head. */
  predicate HasDuplicates(g: seq<nat>) {
    |g| >= 2
  }

  /** The entries of `find_duplicates` for the groups `gs`: one entry for
      each group with two or more members, in group order. */
  function DuplicateGroups(ps: seq<Paper>, gs: seq<seq<nat>>): (r: seq<(Paper, seq<Paper>)>)
    requires forall a | 0 <= a < |gs| :: |gs[a]| > 0 && Within(gs[a], 0, |ps|, {})
    ensures |r| <= |gs|
    ensures forall e | e in r :: |e.1| > 0
    ensures forall e | e in r :: exists a | 0 <= a < |gs| :: |gs[a]| >= 2 && e == Entry(ps, gs[a])
  {
    if |gs| == 0 then []
    else
      var rest := DuplicateGroups(ps, gs[1..]);
      assert forall a | 1 <= a < |gs| :: gs[a] == gs[1..][a - 1];
      if |gs[0]| >= 2 then [Entry(ps, gs[0])] + rest else rest
  }

  /** The entries are exactly those of the groups with duplicates, one per
      group, in group order: the `j`-th entry belongs to the `j`-th such
      group. */
  lemma DuplicateGroupsInOrder(ps: seq<Paper>, gs: seq<seq<nat>>)
    requires forall a | 0 <= a < |gs| :: |gs[a]| > 0 && Within(gs[a], 0, |ps|, {})
    ensures var r, at := DuplicateGroups(ps, gs), Positions(gs, HasDuplicates);
      |r| == |at| && forall j | 0 <= j < |r| :: r[j] == Entry(ps, gs[at[j]])
    ensures forall a | 0 <= a < |gs| && |gs[a]| >= 2 :: Entry(ps, gs[a]) in DuplicateGroups(ps, gs)
  {
    DuplicateGroupsAligned(ps, gs);
    var r, at := DuplicateGroups(ps, gs), Positions(gs, HasDuplicates);
    forall a | 0 <= a < |gs| && |gs[a]| >= 2
      ensures Entry(ps, gs[a]) in r
    {
      assert HasDuplicates(gs[a]);
      var j :| 0 <= j < |at| && at[j] == a;
      assert r[j] == Entry(ps, gs[a]);
    }
  }

  lemma {:induction false} DuplicateGroupsAligned(ps: seq<Paper>, gs: seq<seq<nat>>)
    requires forall a | 0 <= a < |gs| :: |gs[a]| > 0 && Within(gs[a], 0, |ps|, {})
    ensures var r, at := DuplicateGroups(ps, gs), Positions(gs, HasDuplicates);
      |r| == |at| && forall j | 0 <= j < |r| :: r[j] == Entry(ps, gs[at[j]])
  {
    if |gs| > 0 {
      var tail := gs[1..];
      assert forall a | 1 <= a < |gs| :: gs[a] == tail[a - 1];
      DuplicateGroupsAligned(ps, tail);
      DuplicateGroupsStep(ps, gs);
    }
  }

  /** One step of `DuplicateGroupsAligned`: the alignment of the tail's
      entries carries over to the whole list. */
  lemma DuplicateGroupsStep(ps: seq<Paper>, gs: seq<seq<nat>>)
    requires |gs| > 0 && forall a | 0 <= a < |gs| :: |gs[a]| > 0 && Within(gs[a], 0, |ps|, {})
    requires var tail := gs[1..];
      var rest, inner := DuplicateGroups(ps, tail), Positions(tail, HasDuplicates);
      |rest| == |inner| && forall j | 0 <= j < |rest| :: rest[j] == Entry(ps, tail[inner[j]])
    ensures var r, at := DuplicateGroups(ps, gs), Positions(gs, HasDuplicates);
      |r| == |at| && forall j | 0 <= j < |r| :: r[j] == Entry(ps, gs[at[j]])
  {
    TailShifted(ps, gs);
    HeadPrepended(ps, gs);
  }

  /** The tail's entries, read against the shifted positions of the whole
      list. */
  lemma TailShifted(ps: seq<Paper>, gs: seq<seq<nat>>)
    requires |gs| > 0 && forall a | 0 <= a < |gs| :: |gs[a]| > 0 && Within(gs[a], 0, |ps|, {})
    requires var tail := gs[1..];
      var rest, inner := DuplicateGroups(ps, tail), Positions(tail, HasDuplicates);
      |rest| == |inner| && forall j | 0 <= j < |rest| :: rest[j] == Entry(ps, tail[inner[j]])
    ensures var rest, later := DuplicateGroups(ps, gs[1..]), Shift(Positions(gs[1..], HasDuplicates));
      |rest| == |later| && forall j | 0 <= j < |rest| :: later[j] < |gs| && rest[j] == Entry(ps, gs[later[j]])
  {
    var tail := gs[1..];
    var inner := Positions(tail, HasDuplicates);
    forall j | 0 <= j < |inner|
      ensures gs[inner[j] + 1] == tail[inner[j]]
    {
    }
  }

  /** Putting the first group's entry (when it has duplicates) in front of the
      tail's entries, and position 0 in front of the shifted positions. */
  lemma HeadPrepended(ps: seq<Paper>, gs: seq<seq<nat>>)
    requires |gs| > 0 && forall a | 0 <= a < |gs| :: |gs[a]| > 0 && Within(gs[a], 0, |ps|, {})
    requires var rest, later := DuplicateGroups(ps, gs[1..]), Shift(Positions(gs[1..], HasDuplicates));
      |rest| == |later| && forall j | 0 <= j < |rest| :: later[j] < |gs| && rest[j] == Entry(ps, gs[later[j]])
    ensures var r, at := DuplicateGroups(ps, gs), Positions(gs, HasDuplicates);
      |r| == |at| && forall j | 0 <= j < |r| :: r[j] == Entry(ps, gs[at[j]])
  {
    var rest, later := DuplicateGroups(ps, gs[1..]), Shift(Positions(gs[1..], HasDuplicates));
    DuplicateGroupsCons(ps, gs);
    PositionsCons(gs, HasDuplicates);
    if HasDuplicates(gs[0]) {
      var r, at := [Entry(ps, gs[0])] + rest, [0] + later;
      forall j | 0 <= j < |r|
        ensures r[j] == Entry(ps, gs[at[j]])
      {
        if j > 0 {
          assert r[j] == rest[j - 1] && at[j] == later[j - 1];
        }
      }
    }
  }

  lemma DuplicateGroupsCons(ps: seq<Paper>, gs: seq<seq<nat>>)
    requires |gs| > 0 && forall a | 0 <= a < |gs| :: |gs[a]| > 0 && Within(gs[a], 0, |ps|, {})
    ensures var rest := DuplicateGroups(ps, gs[1..]);
      DuplicateGroups(ps, gs) == if HasDuplicates(gs[0]) then [Entry(ps, gs[0])] + rest else rest
  {
  }

  /** `merge_duplicate_papers`: each singleton group's record unchanged, each
      larger group merged into one record. */
  function MergeDuplicatePapers(ps: seq<Paper>): (r: seq<Paper>)
    ensures |r| == |Group(ps)| <= |ps|
    ensures r == [] <==> ps == []
  {
    var gs := Group(ps);
    GroupPartition(ps);
    GroupNonEmpty(ps);
    assert forall a | 0 <= a < |gs| :: gs[a] in gs;
    MergeGroups(ps, gs)
  }

  /** Each group's record: a singleton's record unchanged, a larger group's
      records merged. The result keeps each head's identity and source. */
  function MergeGroups(ps: seq<Paper>, gs: seq<seq<nat>>): (r: seq<Paper>)
    requires forall a | 0 <= a < |gs| :: |gs[a]| > 0 && Within(gs[a], 0, |ps|, {})
    ensures |r| == |gs|
    ensures forall a | 0 <= a < |gs| ::
      gs[a][0] < |ps| && r[a].paperId == ps[gs[a][0]].paperId && r[a].source == ps[gs[a][0]].source
    ensures forall a | 0 <= a < |gs| && |gs[a]| == 1 :: r[a] == ps[gs[a][0]]
    ensures forall a | 0 <= a < |gs| && |gs[a]| >= 2 :: r[a] == MergePaperGroup(Members(ps, gs[a]))
  {
    seq(|gs|, a requires 0 <= a < |gs| => MergeGroup(ps, gs[a]))
  }

  function MergeGroup(ps: seq<Paper>, g: seq<nat>): (r: Paper)
    requires |g| > 0 && Within(g, 0, |ps|, {})
    ensures g[0] < |ps| && r.paperId == ps[g[0]].paperId && r.source == ps[g[0]].source
  {
    assert g[0] < |ps|;
    if |g| == 1 then ps[g[0]] else MergePaperGroup(Members(ps, g))
  }

  /** Under the `first` policy (and any unknown policy) the kept records are
      the group heads, so no kept record is a duplicate of a later one (head
      first), and every input record is kept or is a duplicate of a kept
      record. */
  lemma DedupFirstKeepsHeads(ps: seq<Paper>, keep: string)
    requires KeepPolicy(keep) == First
    ensures var r, gs := DeduplicatePapers(ps, keep), Group(ps);
      forall a | 0 <= a < |r| :: |gs[a]| > 0 && gs[a][0] < |ps| && r[a] == ps[gs[a][0]]
  {
    var gs := Group(ps);
    GroupPartition(ps);
    assert forall a | 0 <= a < |gs| :: gs[a] in gs;
  }

  lemma DedupFirstNoLaterDuplicate(ps: seq<Paper>, keep: string)
    requires KeepPolicy(keep) == First
    ensures var r := DeduplicatePapers(ps, keep);
      forall a, b | 0 <= a < b < |r| :: !AreSamePaper(r[a], r[b])
  {
    var r, gs := DeduplicatePapers(ps, keep), Group(ps);
    DedupFirstKeepsHeads(ps, keep);
    GroupLaterUnmatched(ps);
    forall a, b | 0 <= a < b < |r|
      ensures !AreSamePaper(r[a], r[b])
    {
      assert !SameAt(ps)(gs[a][0], gs[b][0]);
    }
  }

  /** Each index of the input lies in some group. */
  lemma {:induction false} FlattenMember(gs: seq<seq<nat>>, x: nat)
    requires x in Flatten(gs)
    ensures exists a, k | 0 <= a < |gs| && 0 <= k < |gs[a]| :: gs[a][k] == x
  {
    FlattenCons(gs[0], gs[1..]);
    assert [gs[0]] + gs[1..] == gs;
    if x in gs[0] {
      var k :| 0 <= k < |gs[0]| && gs[0][k] == x;
      assert gs[0][k] == x;
    } else {
      FlattenMember(gs[1..], x);
      var a, k :| 0 <= a < |gs[1..]| && 0 <= k < |gs[1..][a]| && gs[1..][a][k] == x;
      assert gs[a + 1][k] == x;
    }
  }

  lemma DedupFirstCovers(ps: seq<Paper>, keep: string)
    requires KeepPolicy(keep) == First
    ensures var r := DeduplicatePapers(ps, keep);
      forall i | 0 <= i < |ps| :: exists a | 0 <= a < |r| :: r[a] == ps[i] || AreSamePaper(r[a], ps[i])
  {
    var r, gs := DeduplicatePapers(ps, keep), Group(ps);
    DedupFirstKeepsHeads(ps, keep);
    GroupPartition(ps);
    GroupMembersMatchHead(ps);
    forall i | 0 <= i < |ps|
      ensures exists a | 0 <= a < |r| :: r[a] == ps[i] || AreSamePaper(r[a], ps[i])
    {
      FlattenMember(gs, i);
      var a, k :| 0 <= a < |gs| && 0 <= k < |gs[a]| && gs[a][k] == i;
      assert gs[a] in gs;
      if k > 0 {
        assert SameAt(ps)(gs[a][0], gs[a][k]);
      }
      assert r[a] == ps[i] || AreSamePaper(r[a], ps[i]);
    }
  }

  /** Under the `last` policy each kept record is its group's last member,
      which is the head itself or a duplicate of it. */
  lemma DedupLastKeepsLastMember(ps: seq<Paper>)
    ensures var r, gs := DeduplicatePapers(ps, "last"), Group(ps);
      forall a | 0 <= a < |r| ::
        var g := gs[a];
        |g| > 0 && Within(g, 0, |ps|, {}) && r[a] == ps[g[|g| - 1]]
        && (|g| == 1 || SameAt(ps)(g[0], g[|g| - 1]))
  {
    var gs := Group(ps);
    GroupPartition(ps);
    GroupMembersMatchHead(ps);
    assert forall a | 0 <= a < |gs| :: gs[a] in gs;
  }

  /** Under the `best` policy each kept record has the highest completeness
      score among its group's records, and no earlier record of the group
      ties it. */
  lemma DedupBestKeepsMostComplete(ps: seq<Paper>)
    ensures var r, gs := DeduplicatePapers(ps, "best"), Group(ps);
      forall a | 0 <= a < |r| :: Within(gs[a], 0, |ps|, {}) && MostComplete(Members(ps, gs[a]), r[a])
  {
    var r, gs := DeduplicatePapers(ps, "best"), Group(ps);
    GroupPartition(ps);
    forall a | 0 <= a < |r|
      ensures Within(gs[a], 0, |ps|, {}) && MostComplete(Members(ps, gs[a]), r[a])
    {
      assert gs[a] in gs;
      BestKeeper(Members(ps, gs[a]));
    }
  }

  /** `p` is a record of `group` with the highest score, and no earlier
      record of the group scores as much. */
  predicate MostComplete(group: seq<Paper>, p: Paper) {
    && (exists k | 0 <= k < |group| :: group[k] == p
          && forall j | 0 <= j < k :: CompletenessScore(group[j]) < CompletenessScore(p))
    && forall j | 0 <= j < |group| :: CompletenessScore(group[j]) <= CompletenessScore(p)
  }

  lemma BestKeeper(group: seq<Paper>)
    requires |group| > 0
    ensures MostComplete(group, Keeper(group, Best))
  {
    var k := BestOf(group);
    assert group[k] == Keeper(group, Best);
  }

  /** The policy names the code tests for. */
  lemma KeepNames()
    ensures KeepPolicy("first") == First
    ensures KeepPolicy("last") == Last
    ensures KeepPolicy("best") == Best
  {
    assert "first"[0] != "last"[0] && "first"[0] != "best"[0];
    assert "best"[0] != "last"[0];
  }

  /** When all records form one group, `first` keeps the first record and
      `last` the last one. */
  lemma DedupOneGroup(ps: seq<Paper>, keep: string)
    requires |ps| > 0 && Group(ps) == [Range(0, |ps|)]
    ensures KeepPolicy(keep) == First ==> DeduplicatePapers(ps, keep) == [ps[0]]
    ensures KeepPolicy(keep) == Last ==> DeduplicatePapers(ps, keep) == [ps[|ps| - 1]]
  {
    DedupOneGroupKeeper(ps, keep);
  }

  lemma DedupOneGroupKeeper(ps: seq<Paper>, keep: string)
    requires |ps| > 0 && Group(ps) == [Range(0, |ps|)]
    ensures DeduplicatePapers(ps, keep) == [Keeper(ps, KeepPolicy(keep))]
  {
    KeepFromOneGroup(ps, KeepPolicy(keep));
  }

  lemma KeepFromOneGroup(ps: seq<Paper>, keep: Keep)
    requires |ps| > 0
    ensures KeepFromGroups(ps, [Range(0, |ps|)], keep) == [Keeper(ps, keep)]
  {
    var g := Range(0, |ps|);
    MembersOfRange(ps);
    assert KeptMember(ps, g, keep) == Keeper(ps, keep);
    KeepFromOne(ps, g, keep);
  }

  lemma KeepFromOne(ps: seq<Paper>, g: seq<nat>, keep: Keep)
    requires |g| > 0 && Within(g, 0, |ps|, {})
    ensures KeepFromGroups(ps, [g], keep) == [KeptMember(ps, g, keep)]
  {
    var r := KeepFromGroups(ps, [g], keep);
    assert |r| == 1 && r[0] == KeptMember(ps, g, keep);
  }

  lemma MembersOfRange(ps: seq<Paper>)
    ensures Within(Range(0, |ps|), 0, |ps|, {}) && Members(ps, Range(0, |ps|)) == ps
  {
    var g := Range(0, |ps|);
    assert Within(g, 0, |ps|, {});
    var m := Members(ps, g);
    forall k | 0 <= k < |ps|
      ensures m[k] == ps[k]
    {
      assert g[k] == k;
    }
    assert |m| == |ps|;
  }

  /** Records that all share one non-empty normalised DOI collapse to one:
      the first under `first`, the last under `last`. */
  lemma DedupSameDoi(ps: seq<Paper>)
    requires |ps| > 0 && SharedDoi(ps)
    ensures DeduplicatePapers(ps, "first") == [ps[0]]
    ensures DeduplicatePapers(ps, "last") == [ps[|ps| - 1]]
  {
    GroupSameDoi(ps);
    KeepNames();
    DedupOneGroup(ps, "first");
    DedupOneGroup(ps, "last");
  }

  /** Every reported duplicate is a duplicate of the record it is reported
      with. */
  lemma FindDuplicatesMatchHead(ps: seq<Paper>)
    ensures forall e, d | e in FindDuplicates(ps) && d in e.1 :: AreSamePaper(e.0, d)
  {
    var gs := Group(ps);
    GroupPartition(ps);
    GroupMembersMatchHead(ps);
    assert forall a | 0 <= a < |gs| :: gs[a] in gs;
    forall e | e in FindDuplicates(ps)
      ensures forall d | d in e.1 :: AreSamePaper(e.0, d)
    {
      var a :| 0 <= a < |gs| && |gs[a]| >= 2 && e == Entry(ps, gs[a]);
      EntryMatchesHead(ps, gs[a]);
    }
  }

  /** `find_duplicates` reports every group that has a duplicate, exactly
      once and in the order of the groups' heads: its `j`-th entry is the head
      and other members of the `j`-th group with two or more members. */
  lemma FindDuplicatesReportsAll(ps: seq<Paper>)
    ensures var r, gs := FindDuplicates(ps), Group(ps);
      var at := Positions(gs, HasDuplicates);
      && |r| == |at|
      && (forall j | 0 <= j < |r| ::
            |gs[at[j]]| > 0 && Within(gs[at[j]], 0, |ps|, {}) && r[j] == Entry(ps, gs[at[j]]))
      && (forall a | 0 <= a < |gs| && |gs[a]| >= 2 ::
            Within(gs[a], 0, |ps|, {}) && Entry(ps, gs[a]) in r)
  {
    var gs := Group(ps);
    GroupPartition(ps);
    assert forall a | 0 <= a < |gs| :: gs[a] in gs;
    DuplicateGroupsInOrder(ps, gs);
  }

  lemma EntryMatchesHead(ps: seq<Paper>, g: seq<nat>)
    requires |g| > 0 && Within(g, 0, |ps|, {})
    requires forall k | 1 <= k < |g| :: SameAt(ps)(g[0], g[k])
    ensures forall d | d in Entry(ps, g).1 :: AreSamePaper(Entry(ps, g).0, d)
  {
    var e := Entry(ps, g);
    forall d | d in e.1
      ensures AreSamePaper(e.0, d)
    {
      var k :| 0 <= k < |e.1| && e.1[k] == d;
      assert SameAt(ps)(g[0], g[k + 1]);
    }
  }

  lemma {:induction false} DuplicateGroupsOfSingletons(ps: seq<Paper>, gs: seq<seq<nat>>)
    requires forall a | 0 <= a < |gs| :: |gs[a]| == 1 && Within(gs[a], 0, |ps|, {})
    ensures DuplicateGroups(ps, gs) == []
  {
    if |gs| > 0 {
      DuplicateGroupsOfSingletons(ps, gs[1..]);
    }
  }

  /** A list without duplicates has nothing to report. */
  lemma FindDuplicatesNone(ps: seq<Paper>)
    requires forall a, b | 0 <= a < b < |ps| :: !AreSamePaper(ps[a], ps[b])
    ensures FindDuplicates(ps) == []
  {
    GroupNoDuplicates(ps);
    var gs := Group(ps);
    assert forall a | 0 <= a < |gs| :: gs[a] == [a];
    DuplicateGroupsOfSingletons(ps, gs);
  }

  /** Records sharing one non-empty normalised DOI are reported as one
      group: the first record and all the others. */
  lemma FindDuplicatesSameDoi(ps: seq<Paper>)
    requires |ps| >= 2 && SharedDoi(ps)
    ensures FindDuplicates(ps) == [(ps[0], ps[1..])]
  {
    GroupSameDoi(ps);
    OneGroupEntry(ps);
  }

  lemma OneGroupEntry(ps: seq<Paper>)
    requires |ps| >= 2
    ensures DuplicateGroups(ps, [Range(0, |ps|)]) == [(ps[0], ps[1..])]
  {
    var e := Entry(ps, Range(0, |ps|));
    assert e.1 == ps[1..];
  }

  /** How many records the entries list as duplicates. */
  function Listed(es: seq<(Paper, seq<Paper>)>): (n: nat)
    ensures es == [] ==> n == 0
  {
    if |es| == 0 then 0 else |es[0].1| + Listed(es[1..])
  }

  lemma {:induction false} ListedOfGroups(ps: seq<Paper>, gs: seq<seq<nat>>)
    requires forall a | 0 <= a < |gs| :: |gs[a]| > 0 && Within(gs[a], 0, |ps|, {})
    ensures Listed(DuplicateGroups(ps, gs)) + |gs| == |Flatten(gs)|
  {
    if |gs| > 0 {
      assert forall a | 1 <= a < |gs| :: gs[a] == gs[1..][a - 1];
      ListedOfGroups(ps, gs[1..]);
      FlattenCons(gs[0], gs[1..]);
      assert [gs[0]] + gs[1..] == gs;
      var rest := DuplicateGroups(ps, gs[1..]);
      if |gs[0]| >= 2 {
        assert ([Entry(ps, gs[0])] + rest)[1..] == rest;
      }
    }
  }

  lemma {:induction false} DistinctElems(s: seq<nat>)
    requires Distinct(s)
    ensures |Elems(s)| == |s|
  {
    if |s| > 0 {
      DistinctElems(s[1..]);
      assert Elems(s) == {s[0]} + Elems(s[1..]);
      assert s[0] !in Elems(s[1..]);
    }
  }

  /** The indices below `n`, as a set. */
  function Below(n: nat): (r: set<nat>)
    ensures forall k: nat :: k in r <==> k < n
  {
    if n == 0 then {} else Below(n - 1) + {n - 1}
  }

  lemma {:induction false} BelowCard(n: nat)
    ensures |Below(n)| == n
  {
    if n > 0 {
      BelowCard(n - 1);
      assert n - 1 !in Below(n - 1);
    }
  }

  /** A repetition-free list of the indices below `n` that holds all of them
      has length `n`. */
  lemma CoverLength(s: seq<nat>, n: nat)
    requires Distinct(s) && (forall x | x in s :: x < n) && (forall k: nat | k < n :: k in s)
    ensures |s| == n
  {
    DistinctElems(s);
    BelowCard(n);
    assert Elems(s) == Below(n);
  }

  /** Every input record is either kept by `deduplicate_papers` or listed as
      a duplicate by `find_duplicates`, and never both. */
  lemma KeptPlusListed(ps: seq<Paper>, keep: string)
    ensures |DeduplicatePapers(ps, keep)| + Listed(FindDuplicates(ps)) == |ps|
  {
    ListedCount(ps);
  }

  lemma ListedCount(ps: seq<Paper>)
    ensures Listed(FindDuplicates(ps)) + |Group(ps)| == |ps|
  {
    var gs := Group(ps);
    GroupPartition(ps);
    assert forall a | 0 <= a < |gs| :: gs[a] in gs;
    ListedOfGroups(ps, gs);
    GroupsCover(ps);
  }

  /** The groups hold each input index exactly once. */
  lemma GroupsCover(ps: seq<Paper>)
    ensures |Flatten(Group(ps))| == |ps|
  {
    var gs := Group(ps);
    GroupPartition(ps);
    assert forall a | 0 <= a < |gs| :: gs[a] in gs;
    FlattenBelow(gs, |ps|);
    CoverLength(Flatten(gs), |ps|);
  }

  lemma FlattenBelow(gs: seq<seq<nat>>, n: nat)
    requires forall a | 0 <= a < |gs| :: Within(gs[a], 0, n, {})
    ensures forall x | x in Flatten(gs) :: x < n
  {
    forall x | x in Flatten(gs)
      ensures x < n
    {
      FlattenMember(gs, x);
    }
  }

  /** `merge_duplicate_papers` group by group: the record of a group with one
      member is that member unchanged, and the record of a larger group is
      `merge_paper_group` of its members in group order. */
  lemma MergeDuplicatePapersGroups(ps: seq<Paper>)
    ensures var r, gs := MergeDuplicatePapers(ps), Group(ps);
      && |r| == |gs|
      && (forall a | 0 <= a < |gs| && |gs[a]| == 1 :: gs[a][0] < |ps| && r[a] == ps[gs[a][0]])
      && (forall a | 0 <= a < |gs| && |gs[a]| >= 2 ::
            Within(gs[a], 0, |ps|, {}) && r[a] == MergePaperGroup(Members(ps, gs[a])))
  {
    var gs := Group(ps);
    GroupPartition(ps);
    assert forall a | 0 <= a < |gs| :: gs[a] in gs;
  }

  /** A list without duplicates is returned unchanged by the merge. */
  lemma MergeNoDuplicates(ps: seq<Paper>)
    requires forall a, b | 0 <= a < b < |ps| :: !AreSamePaper(ps[a], ps[b])
    ensures MergeDuplicatePapers(ps) == ps
  {
    GroupNoDuplicates(ps);
    var gs := Group(ps);
    assert forall a | 0 <= a < |gs| :: gs[a] == [a];
    MergeSingletons(ps, |ps|);
  }

  lemma MergeSingletons(ps: seq<Paper>, n: nat)
    requires n == |ps|
    ensures MergeGroups(ps, seq(n, k requires 0 <= k < n => [k])) == ps
  {
    var gs := seq(n, k requires 0 <= k < n => [k]);
    var r := MergeGroups(ps, gs);
    forall a | 0 <= a < n
      ensures r[a] == ps[a]
    {
      assert gs[a] == [a];
    }
  }
}
