/**
 * The author-similarity deduplication step of the screening application
 * (step type "dedup-author"). Entries are clustered as in the main
 * application, but the step really deduplicates: each cluster keeps one
 * entry in `passed` (the newest, most complete record) and every other
 * member goes to `removed`. Its extract_last_names always takes the last
 * whitespace token of an author, also for "Family, Given" authors.
 */
module ScreeningDedupAuthor {
  import opened Wrappers
  import opened Text
  import opened Bib
  import opened AuthorNames
  import opened Perm
  import DedupCluster
  import DedupUtils
  import ScreeningDedupUtils
  import DedupAuthor

  // ------------------------------------------------------------------
  // extract_last_names
  // ------------------------------------------------------------------

  /** The last name one part of the author field contributes: its last whitespace token. */
  function PartName(part: string): (r: Option<string>)
    ensures r.Some? ==> r.value != "" && NameText(r.value)
  {
    var ws := Words(Strip(part));
    if |ws| == 0 then None else DedupAuthor.Named(ws[|ws| - 1])
  }

  /** The last names of a list of parts. */
  function NamesOf(parts: seq<string>): (r: set<string>)
    ensures forall n :: n in r ==> n != "" && NameText(n)
  {
    if |parts| == 0 then {}
    else NamesOf(parts[..|parts| - 1]) + DedupAuthor.AsSet(PartName(parts[|parts| - 1]))
  }

  /** The set extract_last_names returns. */
  function LastNames(field: string): (r: set<string>)
    ensures forall n :: n in r ==> n != "" && NameText(n)
  {
    if field == "" then {} else NamesOf(SplitAuthors(field))
  }

  lemma NamesOfSnoc(parts: seq<string>, k: nat)
    requires k < |parts|
    ensures NamesOf(parts[..k + 1]) == NamesOf(parts[..k]) + DedupAuthor.AsSet(PartName(parts[k]))
  {
    assert parts[..k + 1][..k] == parts[..k];
  }

  /** Python extract_last_names: one pass over the split parts, adding names to a set. */
  method ExtractLastNames(field: string) returns (names: set<string>)
    ensures names == LastNames(field)
  {
    names := {};
    if field == "" {
      return;
    }
    var parts := SplitAuthors(field);
    for k := 0 to |parts|
      invariant names == NamesOf(parts[..k])
    {
      NamesOfSnoc(parts, k);
      var tokens := Words(Strip(parts[k]));
      if |tokens| > 0 {
        var name := NormalizeAuthorToken(tokens[|tokens| - 1]);
        if name != "" {
          names := names + {name};
        }
      }
    }
    assert parts[..|parts|] == parts;
  }

  /** A part without a comma names the same person as in the main application. */
  lemma PartNameAgrees(part: string)
    requires ',' !in part
    ensures PartName(part) == DedupAuthor.PartName(part)
  {
    var c := Strip(part);
    assert ',' !in c;
    if c == "" {
      assert Words(c) == [];
    }
  }

  lemma {:induction false} NamesOfAgrees(parts: seq<string>)
    requires forall p :: 0 <= p < |parts| ==> ',' !in parts[p]
    ensures NamesOf(parts) == DedupAuthor.NamesOf(parts)
    decreases |parts|
  {
    if |parts| > 0 {
      NamesOfAgrees(parts[..|parts| - 1]);
      PartNameAgrees(parts[|parts| - 1]);
    }
  }

  /** Without commas in the author field both applications extract the same names. */
  lemma LastNamesAgree(field: string)
    requires ',' !in field
    ensures LastNames(field) == DedupAuthor.LastNames(field)
  {
    if field != "" {
      PiecesAvoidSeparators(field, SepTable(field), 0, 0, ',');
      NamesOfAgrees(SplitAuthors(field));
    }
  }

  /**
   * For "Family, Given" the two applications disagree: the main application
   * keeps the family name, this one the given name.
   */
  lemma GivenNameLast(w: string, g: string)
    requires IsWord(w) && IsWord(g) && ',' !in w
    ensures PartName(w + ", " + g) == DedupAuthor.Named(g)
    ensures DedupAuthor.PartName(w + ", " + g) == DedupAuthor.Named(w)
  {
    var s := w + ", " + g;
    CommaPairWords(w, g);
    assert s == w + "," + (" " + g);
    DedupAuthor.FamilyFirst(w, " " + g);
  }

  /** "Family, Given" is already stripped and splits into the words "Family," and "Given". */
  lemma CommaPairWords(w: string, g: string)
    requires IsWord(w) && IsWord(g) && ',' !in w
    ensures Strip(w + ", " + g) == w + ", " + g
    ensures Words(w + ", " + g) == [w + ","] + [g]
  {
    var s := w + ", " + g;
    StripStartNone(s, Whitespace);
    StripEndNone(s, Whitespace);
    StripIsStartThenEnd(s);
    var n := WordLen(s);
    assert s[|w|] == ',' && IsSpace(s[|w| + 1]);
    assert n == |w| + 1;
    var t := s[n..];
    assert t == " " + g;
    WordsSkipSpace(t);
    assert t[1..] == g;
    DedupAuthor.WordsOfWord(g);
    assert Words(s) == [s[..n]] + Words(t);
    assert s[..n] == w + ",";
  }

  // ------------------------------------------------------------------
  // cluster_entries
  // ------------------------------------------------------------------

  /** The author set of every entry. */
  function AuthorSets(entries: seq<Entry>): (sets: seq<set<string>>)
    ensures |sets| == |entries|
  {
    seq(|entries|, i requires 0 <= i < |entries| => LastNames(Field(entries[i], "author")))
  }

  lemma AuthorSetsSnoc(entries: seq<Entry>, sets: seq<set<string>>, i: nat)
    requires i < |entries| && sets == AuthorSets(entries)[..i]
    ensures sets + [LastNames(Field(entries[i], "author"))] == AuthorSets(entries)[..i + 1]
  {
    var all := AuthorSets(entries);
    assert all[..i + 1] == all[..i] + [all[i]];
  }

  /**
   * Python cluster_entries: the connected components of "author similarity
   * at least the threshold", as a partition of the entry indices.
   */
  method ClusterEntries(entries: seq<Entry>, threshold: real) returns (clusters: seq<seq<nat>>)
    ensures DedupCluster.Partition(clusters, |entries|)
    ensures DedupCluster.Components(AuthorSets(entries), threshold, AuthorSimilarity, clusters)
  {
    var sets: seq<set<string>> := [];
    for i := 0 to |entries|
      invariant sets == AuthorSets(entries)[..i]
    {
      var names := ExtractLastNames(Field(entries[i], "author"));
      AuthorSetsSnoc(entries, sets, i);
      sets := sets + [names];
    }
    assert AuthorSets(entries)[..|entries|] == AuthorSets(entries);
    clusters := DedupCluster.ClusterByThreshold(sets, threshold, AuthorSimilarity);
  }

  // ------------------------------------------------------------------
  // run
  // ------------------------------------------------------------------

  datatype Action = Keep | Remove

  datatype Reason = UniqueAuthor | DuplicateAuthorRepresentative | DuplicateAuthor

  /** A Change record; the cluster is named by its 1-based position ("cluster-<n>"). */
  datatype Change = Change(
    key: string,
    action: Action,
    reason: Reason,
    clusterId: Option<nat>,
    representativeId: Option<string>,
    similarity: Option<real>)

  datatype StepResult = StepResult(passed: seq<Entry>, removed: seq<Entry>, changes: seq<Change>, totalClusters: nat)

  /** The member a cluster keeps: the only one, or the representative. */
  function Kept(entries: seq<Entry>, c: seq<nat>): (r: nat)
    requires |c| > 0 && DedupUtils.Indexes(c, |entries|)
    ensures r in c && r < |entries|
  {
    if |c| == 1 then c[0] else ScreeningDedupUtils.PickRepresentative(c, entries)
  }

  /** reps names one member of each cluster. */
  predicate Chosen(cs: seq<seq<nat>>, reps: seq<nat>)
  {
    |reps| == |cs| && forall k :: 0 <= k < |cs| ==> reps[k] in cs[k]
  }

  /** The kept member of every cluster. */
  function KeptMembers(entries: seq<Entry>, cs: seq<seq<nat>>): (reps: seq<nat>)
    requires DedupAuthor.Clusters(cs, |entries|)
    ensures Chosen(cs, reps)
  {
    seq(|cs|, k requires 0 <= k < |cs| => Kept(entries, cs[k]))
  }

  /** The change recorded for removing member m in favour of rep. */
  function Removal(entries: seq<Entry>, sets: seq<set<string>>, m: nat, rep: nat, cluster: nat): Change
    requires |sets| == |entries| && m < |entries| && rep < |entries|
  {
    Change(EntryKey(entries[m]), Remove, DuplicateAuthor, Some(cluster), Some(EntryKey(entries[rep])),
           Some(AuthorSimilarity(sets[rep], sets[m])))
  }

  /** The removal changes of a cluster, one per member other than rep, in member order. */
  function Removals(entries: seq<Entry>, sets: seq<set<string>>, c: seq<nat>, rep: nat, cluster: nat): (r: seq<Change>)
    requires |sets| == |entries| && DedupUtils.Indexes(c, |entries|) && rep < |entries|
    ensures forall k :: 0 <= k < |r| ==>
      && r[k].action == Remove && r[k].reason == DuplicateAuthor
      && r[k].clusterId == Some(cluster) && r[k].representativeId == Some(EntryKey(entries[rep]))
      && r[k].similarity.Some? && 0.0 <= r[k].similarity.value <= 1.0
  {
    if |c| == 0 then []
    else
      var m := c[|c| - 1];
      var rest := Removals(entries, sets, c[..|c| - 1], rep, cluster);
      AuthorSimilarityBounds(sets[rep], sets[m]);
      if m == rep then rest else rest + [Removal(entries, sets, m, rep, cluster)]
  }

  /** The change of the representative of a multi-member cluster. */
  function RepresentativeChange(entries: seq<Entry>, rep: nat, cluster: nat): Change
    requires rep < |entries|
  {
    Change(EntryKey(entries[rep]), Keep, DuplicateAuthorRepresentative, Some(cluster), None, Some(1.0))
  }

  /** The changes one cluster adds, given the member it keeps. */
  function ClusterChanges(entries: seq<Entry>, sets: seq<set<string>>, c: seq<nat>, rep: nat, cluster: nat): (r: seq<Change>)
    requires |sets| == |entries| && |c| > 0 && DedupUtils.Indexes(c, |entries|) && rep < |entries|
  {
    if |c| == 1 then [Change(EntryKey(entries[c[0]]), Keep, UniqueAuthor, None, None, None)]
    else [RepresentativeChange(entries, rep, cluster)] + Removals(entries, sets, c, rep, cluster)
  }

  /** The removed members of each cluster. */
  function RemovedBlocks(cs: seq<seq<nat>>, reps: seq<nat>): (bs: seq<seq<nat>>)
    requires |reps| == |cs|
    ensures |bs| == |cs|
  {
    seq(|cs|, k requires 0 <= k < |cs| => Others(cs[k], reps[k]))
  }

  /** The changes of each cluster, numbered from 1. */
  function ChangeBlocks(entries: seq<Entry>, sets: seq<set<string>>, cs: seq<seq<nat>>, reps: seq<nat>): (bs: seq<seq<Change>>)
    requires |sets| == |entries| && DedupAuthor.Clusters(cs, |entries|) && Chosen(cs, reps)
    ensures |bs| == |cs|
  {
    seq(|cs|, k requires 0 <= k < |cs| => ClusterChanges(entries, sets, cs[k], reps[k], k + 1))
  }

  /** The result run produces for the given clusters. */
  function Assemble(entries: seq<Entry>, cs: seq<seq<nat>>): StepResult
    requires DedupAuthor.Clusters(cs, |entries|)
  {
    var reps := KeptMembers(entries, cs);
    StepResult(
      Map(DedupAuthor.At(entries), reps),
      Map(DedupAuthor.At(entries), Concat(RemovedBlocks(cs, reps))),
      Concat(ChangeBlocks(entries, AuthorSets(entries), cs, reps)),
      DedupAuthor.MultiMember(cs))
  }

  // ------------------------------------------------------------------
  // What run guarantees
  // ------------------------------------------------------------------

  /** A cluster's removed members come in ascending index order. */
  lemma {:induction false} OthersAscending(c: seq<nat>, rep: nat)
    requires DedupCluster.Ascending(c)
    ensures DedupCluster.Ascending(Others(c, rep))
    decreases |c|
  {
    if |c| > 0 {
      var n := |c| - 1;
      OthersAscending(c[..n], rep);
      OthersFrom(c[..n], rep);
      var o := Others(c[..n], rep);
      forall k | 0 <= k < |o| ensures o[k] < c[n] {
        assert o[k] in c[..n];
      }
    }
  }

  /**
   * run loses nothing and duplicates nothing: `passed` and `removed` together
   * hold every input entry exactly once, and exactly one entry per cluster
   * is passed.
   */
  lemma AssemblePartitions(entries: seq<Entry>, cs: seq<seq<nat>>)
    requires DedupCluster.Partition(cs, |entries|)
    ensures DedupAuthor.Clusters(cs, |entries|)
    ensures var r := Assemble(entries, cs);
      && multiset(r.passed + r.removed) == multiset(entries)
      && |r.passed| == |cs|
      && |r.removed| == |entries| - |cs|
  {
    var reps := KeptMembers(entries, cs);
    var blocks := RemovedBlocks(cs, reps);
    RemovedBlocksSplit(cs, reps);
    DedupCluster.KeptRemovedIndices(cs, reps, blocks, |cs|);
    PrefixAll(cs);
    PrefixAll(reps);
    PrefixAll(blocks);
    var gone := Concat(blocks);
    MapConcat(DedupAuthor.At(entries), reps, gone);
    MapPermutation(DedupAuthor.At(entries), reps + gone, DedupCluster.Range(|entries|));
    DedupAuthor.AtRange(entries);
    assert |reps + gone| == |multiset(reps + gone)| == |entries|;
  }

  lemma RemovedBlocksSplit(cs: seq<seq<nat>>, reps: seq<nat>)
    requires Chosen(cs, reps) && forall k :: 0 <= k < |cs| ==> DedupCluster.Ascending(cs[k])
    ensures forall k :: 0 <= k < |cs| ==> multiset{reps[k]} + multiset(RemovedBlocks(cs, reps)[k]) == multiset(cs[k])
  {
    forall k | 0 <= k < |cs| ensures multiset{reps[k]} + multiset(RemovedBlocks(cs, reps)[k]) == multiset(cs[k]) {
      assert Distinct(cs[k]);
      DistinctOnce(cs[k], reps[k]);
      KeptAndOthers(cs[k], reps[k]);
    }
  }

  /** Entry p is at least as new as e and, in the same year, at least as complete. */
  predicate AtLeastAsGood(p: Entry, e: Entry)
  {
    && DedupUtils.ParseYear(e) <= DedupUtils.ParseYear(p)
    && (DedupUtils.ParseYear(e) == DedupUtils.ParseYear(p) ==> DedupUtils.CompletenessScore(e) <= DedupUtils.CompletenessScore(p))
  }

  lemma KeptIsBest(entries: seq<Entry>, c: seq<nat>, m: nat)
    requires |c| > 0 && DedupUtils.Indexes(c, |entries|) && m in c
    ensures m < |entries| && AtLeastAsGood(entries[Kept(entries, c)], entries[m])
  {
    var i :| 0 <= i < |c| && c[i] == m;
    if |c| > 1 {
      ScreeningDedupUtils.RepresentativeIsBest(c, entries, i);
    }
  }

  /**
   * The passed entry of a cluster is its newest member and, among the
   * newest, the most complete one.
   */
  lemma PassedIsBest(entries: seq<Entry>, cs: seq<seq<nat>>, k: nat, m: nat)
    requires DedupAuthor.Clusters(cs, |entries|) && k < |cs| && m in cs[k]
    ensures m < |entries| && AtLeastAsGood(Assemble(entries, cs).passed[k], entries[m])
  {
    KeptIsBest(entries, cs[k], m);
  }

  /** The number of changes with the given reason. */
  function Count(changes: seq<Change>, reason: Reason): (n: nat)
    ensures n <= |changes|
  {
    if |changes| == 0 then 0
    else Count(changes[..|changes| - 1], reason) + (if changes[|changes| - 1].reason == reason then 1 else 0)
  }

  lemma {:induction false} CountConcat(a: seq<Change>, b: seq<Change>, reason: Reason)
    ensures Count(a + b, reason) == Count(a, reason) + Count(b, reason)
    decreases |b|
  {
    if |b| == 0 {
      assert a + b == a;
    } else {
      assert (a + b)[..|a + b| - 1] == a + b[..|b| - 1];
      CountConcat(a, b[..|b| - 1], reason);
    }
  }

  lemma {:induction false} CountUniform(a: seq<Change>, given: Reason, reason: Reason)
    requires forall k :: 0 <= k < |a| ==> a[k].reason == given
    ensures Count(a, reason) == if reason == given then |a| else 0
    decreases |a|
  {
    if |a| > 0 {
      CountUniform(a[..|a| - 1], given, reason);
    }
  }

  lemma CountOne(x: Change, reason: Reason)
    ensures Count([x], reason) == if x.reason == reason then 1 else 0
  {
    assert [x][..0] == [];
  }

  /** One removal change per member other than rep. */
  lemma {:induction false} RemovalsLength(entries: seq<Entry>, sets: seq<set<string>>, c: seq<nat>, rep: nat, cluster: nat)
    requires |sets| == |entries| && DedupUtils.Indexes(c, |entries|) && rep < |entries|
    ensures |Removals(entries, sets, c, rep, cluster)| == |Others(c, rep)|
    decreases |c|
  {
    if |c| > 0 {
      RemovalsLength(entries, sets, c[..|c| - 1], rep, cluster);
    }
  }

  /** A cluster records one change per member. */
  lemma ClusterLength(entries: seq<Entry>, sets: seq<set<string>>, c: seq<nat>, rep: nat, cluster: nat)
    requires |sets| == |entries| && |c| > 0 && DedupUtils.Indexes(c, |entries|) && rep in c
    ensures |ClusterChanges(entries, sets, c, rep, cluster)| == 1 + |Others(c, rep)|
  {
    if |c| == 1 {
      SingletonOthers(c, rep);
    } else {
      RemovalsLength(entries, sets, c, rep, cluster);
    }
  }

  /** A cluster records a representative change exactly when it has several members. */
  lemma ClusterRepresentatives(entries: seq<Entry>, sets: seq<set<string>>, c: seq<nat>, rep: nat, cluster: nat)
    requires |sets| == |entries| && |c| > 0 && DedupUtils.Indexes(c, |entries|) && rep in c
    ensures Count(ClusterChanges(entries, sets, c, rep, cluster), DuplicateAuthorRepresentative) == if |c| > 1 then 1 else 0
  {
    var r := ClusterChanges(entries, sets, c, rep, cluster);
    if |c| == 1 {
      CountOne(r[0], DuplicateAuthorRepresentative);
    } else {
      var head := [RepresentativeChange(entries, rep, cluster)];
      var tail := Removals(entries, sets, c, rep, cluster);
      CountConcat(head, tail, DuplicateAuthorRepresentative);
      CountUniform(tail, DuplicateAuthor, DuplicateAuthorRepresentative);
      CountOne(head[0], DuplicateAuthorRepresentative);
    }
  }

  /** A cluster records one removal change per removed member. */
  lemma ClusterRemovals(entries: seq<Entry>, sets: seq<set<string>>, c: seq<nat>, rep: nat, cluster: nat)
    requires |sets| == |entries| && |c| > 0 && DedupUtils.Indexes(c, |entries|) && rep in c
    ensures Count(ClusterChanges(entries, sets, c, rep, cluster), DuplicateAuthor) == |Others(c, rep)|
  {
    var r := ClusterChanges(entries, sets, c, rep, cluster);
    if |c| == 1 {
      SingletonOthers(c, rep);
      CountOne(r[0], DuplicateAuthor);
    } else {
      var head := [RepresentativeChange(entries, rep, cluster)];
      var tail := Removals(entries, sets, c, rep, cluster);
      CountConcat(head, tail, DuplicateAuthor);
      CountUniform(tail, DuplicateAuthor, DuplicateAuthor);
      CountOne(head[0], DuplicateAuthor);
      RemovalsLength(entries, sets, c, rep, cluster);
    }
  }

  /** When each block has as many changes with the reason as its partner has members, so does the whole. */
  lemma {:induction false} ConcatCounts(xs: seq<seq<Change>>, ys: seq<seq<nat>>, reason: Reason, n: nat)
    requires |xs| == |ys| && n <= |xs| && forall k :: 0 <= k < |xs| ==> Count(xs[k], reason) == |ys[k]|
    ensures Count(Concat(xs[..n]), reason) == |Concat(ys[..n])|
  {
    if n > 0 {
      ConcatCounts(xs, ys, reason, n - 1);
      ConcatSnoc(xs, n);
      ConcatSnoc(ys, n);
      CountConcat(Concat(xs[..n - 1]), xs[n - 1], reason);
    }
  }

  /** When each multi-member cluster's block has one representative change, the whole has MultiMember. */
  lemma {:induction false} ConcatRepresentatives(xs: seq<seq<Change>>, cs: seq<seq<nat>>, n: nat)
    requires |xs| == |cs| && n <= |xs|
    requires forall k :: 0 <= k < |xs| ==> Count(xs[k], DuplicateAuthorRepresentative) == if |cs[k]| > 1 then 1 else 0
    ensures Count(Concat(xs[..n]), DuplicateAuthorRepresentative) == DedupAuthor.MultiMember(cs[..n])
  {
    if n > 0 {
      ConcatRepresentatives(xs, cs, n - 1);
      ConcatSnoc(xs, n);
      CountConcat(Concat(xs[..n - 1]), xs[n - 1], DuplicateAuthorRepresentative);
      DedupAuthor.MultiMemberSnoc(cs, n);
    }
  }

  /**
   * One change per passed or removed entry; total_clusters counts the
   * representative changes and every removed entry has a removal change.
   */
  lemma AssembleCounts(entries: seq<Entry>, cs: seq<seq<nat>>)
    requires DedupAuthor.Clusters(cs, |entries|)
    ensures var r := Assemble(entries, cs);
      && |r.changes| == |r.passed| + |r.removed|
      && r.totalClusters == Count(r.changes, DuplicateAuthorRepresentative)
      && |r.removed| == Count(r.changes, DuplicateAuthor)
  {
    var sets := AuthorSets(entries);
    var reps := KeptMembers(entries, cs);
    var xs := ChangeBlocks(entries, sets, cs, reps);
    var ys := RemovedBlocks(cs, reps);
    BlockCounts(entries, sets, cs, reps);
    ConcatLengths(xs, ys, |cs|);
    ConcatCounts(xs, ys, DuplicateAuthor, |cs|);
    ConcatRepresentatives(xs, cs, |cs|);
    PrefixAll(cs);
    PrefixAll(xs);
    PrefixAll(ys);
  }

  /** The per-cluster counts, for every cluster. */
  lemma BlockCounts(entries: seq<Entry>, sets: seq<set<string>>, cs: seq<seq<nat>>, reps: seq<nat>)
    requires |sets| == |entries| && DedupAuthor.Clusters(cs, |entries|) && Chosen(cs, reps)
    ensures forall k :: 0 <= k < |cs| ==>
      && |ChangeBlocks(entries, sets, cs, reps)[k]| == 1 + |RemovedBlocks(cs, reps)[k]|
      && Count(ChangeBlocks(entries, sets, cs, reps)[k], DuplicateAuthor) == |RemovedBlocks(cs, reps)[k]|
      && Count(ChangeBlocks(entries, sets, cs, reps)[k], DuplicateAuthorRepresentative) == if |cs[k]| > 1 then 1 else 0
  {
    forall k | 0 <= k < |cs|
      ensures |ChangeBlocks(entries, sets, cs, reps)[k]| == 1 + |RemovedBlocks(cs, reps)[k]|
      ensures Count(ChangeBlocks(entries, sets, cs, reps)[k], DuplicateAuthor) == |RemovedBlocks(cs, reps)[k]|
      ensures Count(ChangeBlocks(entries, sets, cs, reps)[k], DuplicateAuthorRepresentative) == if |cs[k]| > 1 then 1 else 0
    {
      ClusterCounts(entries, sets, cs[k], reps[k], k + 1);
    }
  }

  lemma ClusterCounts(entries: seq<Entry>, sets: seq<set<string>>, c: seq<nat>, rep: nat, cluster: nat)
    requires |sets| == |entries| && |c| > 0 && DedupUtils.Indexes(c, |entries|) && rep in c
    ensures var r := ClusterChanges(entries, sets, c, rep, cluster);
      && |r| == 1 + |Others(c, rep)|
      && Count(r, DuplicateAuthor) == |Others(c, rep)|
      && Count(r, DuplicateAuthorRepresentative) == if |c| > 1 then 1 else 0
  {
    ClusterLength(entries, sets, c, rep, cluster);
    ClusterRemovals(entries, sets, c, rep, cluster);
    ClusterRepresentatives(entries, sets, c, rep, cluster);
  }

  // ------------------------------------------------------------------
  // The loop of run
  // ------------------------------------------------------------------

  lemma RemovalsSnoc(entries: seq<Entry>, sets: seq<set<string>>, c: seq<nat>, j: nat, rep: nat, cluster: nat)
    requires |sets| == |entries| && DedupUtils.Indexes(c, |entries|) && rep < |entries| && j < |c|
    ensures Removals(entries, sets, c[..j + 1], rep, cluster) == Removals(entries, sets, c[..j], rep, cluster) +
      (if c[j] == rep then [] else [Removal(entries, sets, c[j], rep, cluster)])
  {
    assert c[..j + 1][..j] == c[..j];
  }

  /** The inner loop of run: one removal per member other than the representative. */
  method RemoveOthers(entries: seq<Entry>, ghost sets: seq<set<string>>, members: seq<nat>, rep: nat, cluster: nat,
                      removed: seq<Entry>, changes: seq<Change>)
    returns (removed': seq<Entry>, changes': seq<Change>)
    requires sets == AuthorSets(entries) && DedupUtils.Indexes(members, |entries|) && rep < |entries|
    ensures removed' == removed + Map(DedupAuthor.At(entries), Others(members, rep))
    ensures changes' == changes + Removals(entries, sets, members, rep, cluster)
  {
    var repKey := EntryKey(entries[rep]);
    var repAuthors := ExtractLastNames(Field(entries[rep], "author"));
    removed', changes' := removed, changes;
    for j := 0 to |members|
      invariant removed' == removed + Map(DedupAuthor.At(entries), Others(members[..j], rep))
      invariant changes' == changes + Removals(entries, sets, members[..j], rep, cluster)
    {
      OthersSnoc(members, j, rep);
      RemovalsSnoc(entries, sets, members, j, rep, cluster);
      ghost var done := Others(members[..j], rep);
      var idx := members[j];
      var authors := ExtractLastNames(Field(entries[idx], "author"));
      var similarity := AuthorSimilarity(repAuthors, authors);
      if idx != rep {
        var change := Change(EntryKey(entries[idx]), Remove, DuplicateAuthor, Some(cluster), Some(repKey), Some(similarity));
        DedupAuthor.AtSnoc(entries, done, idx);
        ConcatAssoc(removed, Map(DedupAuthor.At(entries), done), [entries[idx]]);
        ConcatAssoc(changes, Removals(entries, sets, members[..j], rep, cluster), [change]);
        removed' := removed' + [entries[idx]];
        changes' := changes' + [change];
      }
    }
    PrefixAll(members);
  }

  /** The body of run's loop for one multi-member cluster. */
  method AddCluster(entries: seq<Entry>, ghost sets: seq<set<string>>, members: seq<nat>, cluster: nat,
                    passed: seq<Entry>, removed: seq<Entry>, changes: seq<Change>)
    returns (passed': seq<Entry>, removed': seq<Entry>, changes': seq<Change>)
    requires sets == AuthorSets(entries) && |members| > 1 && DedupUtils.Indexes(members, |entries|)
    ensures passed' == passed + [entries[Kept(entries, members)]]
    ensures removed' == removed + Map(DedupAuthor.At(entries), Others(members, Kept(entries, members)))
    ensures changes' == changes + ClusterChanges(entries, sets, members, Kept(entries, members), cluster)
  {
    var rep := ScreeningDedupUtils.PickRepresentative(members, entries);
    passed' := passed + [entries[rep]];
    var head := changes + [Change(EntryKey(entries[rep]), Keep, DuplicateAuthorRepresentative, Some(cluster), None, Some(1.0))];
    removed', changes' := RemoveOthers(entries, sets, members, rep, cluster, removed, head);
    ConcatAssoc(changes, [RepresentativeChange(entries, rep, cluster)], Removals(entries, sets, members, rep, cluster));
  }

  /** The kept member, the removed members and the changes of one more cluster. */
  lemma ClusterStep(entries: seq<Entry>, cs: seq<seq<nat>>, n: nat)
    requires DedupAuthor.Clusters(cs, |entries|) && n < |cs|
    ensures var reps := KeptMembers(entries, cs);
      && reps[..n + 1] == reps[..n] + [Kept(entries, cs[n])]
      && Concat(RemovedBlocks(cs, reps)[..n + 1]) == Concat(RemovedBlocks(cs, reps)[..n]) + Others(cs[n], Kept(entries, cs[n]))
      && Concat(ChangeBlocks(entries, AuthorSets(entries), cs, reps)[..n + 1]) ==
         Concat(ChangeBlocks(entries, AuthorSets(entries), cs, reps)[..n]) + ClusterChanges(entries, AuthorSets(entries), cs[n], Kept(entries, cs[n]), n + 1)
  {
    var reps := KeptMembers(entries, cs);
    PrefixSnoc(reps, n + 1);
    ConcatSnoc(RemovedBlocks(cs, reps), n + 1);
    ConcatSnoc(ChangeBlocks(entries, AuthorSets(entries), cs, reps), n + 1);
  }

  /**
   * Python DedupAuthorHandler.run (screening); `clusters` is the
   * cluster_entries result it works from.
   */
  method Run(entries: seq<Entry>, configured: Option<real>) returns (result: StepResult, ghost clusters: seq<seq<nat>>)
    ensures DedupCluster.Partition(clusters, |entries|)
    ensures DedupCluster.Components(AuthorSets(entries), DedupAuthor.Threshold(configured), AuthorSimilarity, clusters)
    ensures DedupAuthor.Clusters(clusters, |entries|) && result == Assemble(entries, clusters)
  {
    var threshold := DedupAuthor.Threshold(configured);
    var cl := ClusterEntries(entries, threshold);
    clusters := cl;
    assert DedupAuthor.Clusters(cl, |entries|);
    ghost var sets := AuthorSets(entries);
    ghost var reps := KeptMembers(entries, cl);
    ghost var xs := ChangeBlocks(entries, sets, cl, reps);
    ghost var ys := RemovedBlocks(cl, reps);

    var passed: seq<Entry> := [];
    var removed: seq<Entry> := [];
    var changes: seq<Change> := [];
    for n := 0 to |cl|
      invariant passed == Map(DedupAuthor.At(entries), reps[..n])
      invariant removed == Map(DedupAuthor.At(entries), Concat(ys[..n]))
      invariant changes == Concat(xs[..n])
    {
      ClusterStep(entries, cl, n);
      var members := cl[n];
      DedupAuthor.AtSnoc(entries, reps[..n], Kept(entries, members));
      MapConcat(DedupAuthor.At(entries), Concat(ys[..n]), Others(members, Kept(entries, members)));
      if |members| == 1 {
        SingletonOthers(members, members[0]);
        passed := passed + [entries[members[0]]];
        changes := changes + [Change(EntryKey(entries[members[0]]), Keep, UniqueAuthor, None, None, None)];
      } else {
        passed, removed, changes := AddCluster(entries, sets, members, n + 1, passed, removed, changes);
      }
    }
    PrefixAll(reps);
    PrefixAll(xs);
    PrefixAll(ys);
    result := StepResult(passed, removed, changes, DedupAuthor.MultiMember(cl));
  }
}
