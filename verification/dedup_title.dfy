/**
 * The title-similarity deduplication step of the main application (step
 * type "dedup-title"). Normalised titles are clustered transitively by a
 * similarity function; each cluster passes one representative (latest year,
 * then database priority, then a DOI, then completeness) and every other
 * member is removed as a title duplicate, in ascending order of its
 * similarity to the representative.
 */
module DedupTitle {
  import opened Wrappers
  import opened Bib
  import opened Perm
  import DedupCluster
  import DedupUtils
  import DedupAuthor

  datatype Action = Keep | Remove

  datatype Reason = UniqueTitle | DuplicateTitleRepresentative | DuplicateTitle

  /** A Change record; the cluster is named by its 1-based position ("cluster-<n>"). */
  datatype Change = Change(
    key: string,
    action: Action,
    reason: Reason,
    clusterId: Option<nat>,
    representativeId: Option<string>,
    similarity: Option<real>)

  datatype StepResult = StepResult(
    passed: seq<Entry>,
    removed: seq<Entry>,
    changes: seq<Change>,
    totalClusters: nat,
    databasePriority: seq<string>)

  /** Title similarity (difflib's ratio in the source): any function of two normalised titles. */
  type Similarity = (string, string) -> real

  /** float(config.get("similarity_threshold", 0.9)) */
  function Threshold(configured: Option<real>): real
  {
    configured.GetOr(0.9)
  }

  /** The normalised title of every entry. */
  function Titles(entries: seq<Entry>): (titles: seq<string>)
    ensures |titles| == |entries|
    ensures forall i :: 0 <= i < |entries| ==> titles[i] == DedupUtils.NormalizeTitle(Field(entries[i], "title"))
  {
    seq(|entries|, i requires 0 <= i < |entries| => DedupUtils.NormalizeTitle(Field(entries[i], "title")))
  }

  // ------------------------------------------------------------------
  // The result of run, cluster by cluster
  // ------------------------------------------------------------------

  /** The member a cluster passes: the only one, or the representative. */
  function Kept(entries: seq<Entry>, order: map<string, nat>, c: seq<nat>): (r: nat)
    requires |c| > 0 && DedupUtils.Indexes(c, |entries|)
    ensures r in c && r < |entries|
  {
    if |c| == 1 then c[0] else DedupUtils.PickRepresentative(c, entries, order, true)
  }

  predicate Chosen(cs: seq<seq<nat>>, reps: seq<nat>)
  {
    |reps| == |cs| && forall k :: 0 <= k < |cs| ==> reps[k] in cs[k]
  }

  function KeptMembers(entries: seq<Entry>, order: map<string, nat>, cs: seq<seq<nat>>): (reps: seq<nat>)
    requires DedupAuthor.Clusters(cs, |entries|)
    ensures Chosen(cs, reps)
  {
    seq(|cs|, k requires 0 <= k < |cs| => Kept(entries, order, cs[k]))
  }

  /** The score of member idx: its similarity to the representative's title. */
  function Score(sim: Similarity, titles: seq<string>, rep: nat, idx: nat): DedupAuthor.Scored
    requires rep < |titles| && idx < |titles|
  {
    DedupAuthor.Scored(sim(titles[rep], titles[idx]), idx)
  }

  /** member_similarity before sorting: one score per member, in member order. */
  function Scores(sim: Similarity, titles: seq<string>, c: seq<nat>, rep: nat): (r: seq<DedupAuthor.Scored>)
    requires DedupUtils.Indexes(c, |titles|) && rep < |titles|
    ensures |r| == |c|
    ensures forall k :: 0 <= k < |c| ==> r[k] == Score(sim, titles, rep, c[k])
  {
    seq(|c|, k requires 0 <= k < |c| => Score(sim, titles, rep, c[k]))
  }

  /** member_similarity after its stable sort by similarity. */
  function Ranked(sim: Similarity, titles: seq<string>, c: seq<nat>, rep: nat): seq<DedupAuthor.Scored>
    requires DedupUtils.Indexes(c, |titles|) && rep < |titles|
  {
    DedupAuthor.SortBySimilarity(Scores(sim, titles, c, rep))
  }

  /** The scores of the removed members, in the order run removes them. */
  function Dropped(sim: Similarity, titles: seq<string>, c: seq<nat>, rep: nat): seq<DedupAuthor.Scored>
    requires DedupUtils.Indexes(c, |titles|) && rep < |titles|
  {
    Others(Ranked(sim, titles, c, rep), Score(sim, titles, rep, rep))
  }

  /** The change recorded for removing a scored member in favour of rep. */
  function Removal(entries: seq<Entry>, rep: nat, cluster: nat): DedupAuthor.Scored -> Change
    requires rep < |entries|
  {
    var repKey := EntryKey(entries[rep]);
    (s: DedupAuthor.Scored) => Change(EntryKey(DedupAuthor.At(entries)(s.idx)), Remove, DuplicateTitle, Some(cluster), Some(repKey), Some(s.similarity))
  }

  function RepresentativeChange(entries: seq<Entry>, rep: nat, cluster: nat): Change
    requires rep < |entries|
  {
    Change(EntryKey(entries[rep]), Keep, DuplicateTitleRepresentative, Some(cluster), None, Some(1.0))
  }

  /** The changes one cluster adds, given the member it keeps. */
  function ClusterChanges(entries: seq<Entry>, titles: seq<string>, sim: Similarity, c: seq<nat>, rep: nat, cluster: nat): seq<Change>
    requires |titles| == |entries| && |c| > 0 && DedupUtils.Indexes(c, |entries|) && rep < |entries|
  {
    if |c| == 1 then [Change(EntryKey(entries[c[0]]), Keep, UniqueTitle, None, None, None)]
    else [RepresentativeChange(entries, rep, cluster)] + Map(Removal(entries, rep, cluster), Dropped(sim, titles, c, rep))
  }

  /** The removed member indexes of each cluster. */
  function RemovedBlocks(titles: seq<string>, sim: Similarity, cs: seq<seq<nat>>, reps: seq<nat>): (bs: seq<seq<nat>>)
    requires DedupAuthor.Clusters(cs, |titles|) && Chosen(cs, reps)
    ensures |bs| == |cs|
  {
    seq(|cs|, k requires 0 <= k < |cs| => Map(DedupAuthor.ScoredIdx, Dropped(sim, titles, cs[k], reps[k])))
  }

  /** The changes of each cluster, numbered from 1. */
  function ChangeBlocks(entries: seq<Entry>, titles: seq<string>, sim: Similarity, cs: seq<seq<nat>>, reps: seq<nat>): (bs: seq<seq<Change>>)
    requires |titles| == |entries| && DedupAuthor.Clusters(cs, |entries|) && Chosen(cs, reps)
    ensures |bs| == |cs|
  {
    seq(|cs|, k requires 0 <= k < |cs| => ClusterChanges(entries, titles, sim, cs[k], reps[k], k + 1))
  }

  /** The result run produces for the given clusters and priority. */
  function Assemble(entries: seq<Entry>, sim: Similarity, order: map<string, nat>, keys: seq<string>, cs: seq<seq<nat>>): StepResult
    requires DedupAuthor.Clusters(cs, |entries|)
  {
    var reps := KeptMembers(entries, order, cs);
    var titles := Titles(entries);
    StepResult(
      Map(DedupAuthor.At(entries), reps),
      Map(DedupAuthor.At(entries), Concat(RemovedBlocks(titles, sim, cs, reps))),
      Concat(ChangeBlocks(entries, titles, sim, cs, reps)),
      DedupAuthor.MultiMember(cs),
      keys)
  }

  // ------------------------------------------------------------------
  // What run guarantees
  // ------------------------------------------------------------------

  /** Reading the indexes back off the scores gives the cluster. */
  lemma ScoresIndexes(sim: Similarity, titles: seq<string>, c: seq<nat>, rep: nat)
    requires DedupUtils.Indexes(c, |titles|) && rep < |titles|
    ensures Map(DedupAuthor.ScoredIdx, Scores(sim, titles, c, rep)) == c
  {
  }

  /** The representative's own score occurs exactly once among the ranked scores. */
  lemma RepresentativeScoredOnce(sim: Similarity, titles: seq<string>, c: seq<nat>, rep: nat)
    requires DedupUtils.Indexes(c, |titles|) && rep < |titles| && DedupCluster.Ascending(c) && rep in c
    ensures multiset(Ranked(sim, titles, c, rep))[Score(sim, titles, rep, rep)] == 1
  {
    var scores := Scores(sim, titles, c, rep);
    assert Distinct(scores) by {
      forall p, q | 0 <= p < q < |scores| ensures scores[p] != scores[q] {
        assert scores[p].idx == c[p] < c[q] == scores[q].idx;
      }
    }
    var i :| 0 <= i < |c| && c[i] == rep;
    assert scores[i] == Score(sim, titles, rep, rep);
    DistinctOnce(scores, Score(sim, titles, rep, rep));
  }

  /** The representative's score and the dropped scores are the scores again. */
  lemma OwnAndDropped(sim: Similarity, titles: seq<string>, c: seq<nat>, rep: nat)
    requires DedupUtils.Indexes(c, |titles|) && rep < |titles| && DedupCluster.Ascending(c) && rep in c
    ensures multiset([Score(sim, titles, rep, rep)] + Dropped(sim, titles, c, rep)) == multiset(Scores(sim, titles, c, rep))
  {
    RepresentativeScoredOnce(sim, titles, c, rep);
    KeptAndOthers(Ranked(sim, titles, c, rep), Score(sim, titles, rep, rep));
  }

  /** The kept member and the removed ones list the cluster again, each once. */
  lemma KeptAndDropped(sim: Similarity, titles: seq<string>, c: seq<nat>, rep: nat)
    requires DedupUtils.Indexes(c, |titles|) && rep < |titles| && DedupCluster.Ascending(c) && rep in c
    ensures multiset{rep} + multiset(Map(DedupAuthor.ScoredIdx, Dropped(sim, titles, c, rep))) == multiset(c)
  {
    var scores := Scores(sim, titles, c, rep);
    var own := Score(sim, titles, rep, rep);
    var dropped := Dropped(sim, titles, c, rep);
    OwnAndDropped(sim, titles, c, rep);
    MapPermutation(DedupAuthor.ScoredIdx, [own] + dropped, scores);
    MapConcat(DedupAuthor.ScoredIdx, [own], dropped);
    ScoresIndexes(sim, titles, c, rep);
  }

  lemma RemovedBlocksSplit(titles: seq<string>, sim: Similarity, cs: seq<seq<nat>>, reps: seq<nat>)
    requires DedupAuthor.Clusters(cs, |titles|) && Chosen(cs, reps)
    requires forall k :: 0 <= k < |cs| ==> DedupCluster.Ascending(cs[k])
    ensures forall k :: 0 <= k < |cs| ==> multiset{reps[k]} + multiset(RemovedBlocks(titles, sim, cs, reps)[k]) == multiset(cs[k])
  {
    forall k | 0 <= k < |cs| ensures multiset{reps[k]} + multiset(RemovedBlocks(titles, sim, cs, reps)[k]) == multiset(cs[k]) {
      KeptAndDropped(sim, titles, cs[k], reps[k]);
    }
  }

  /**
   * run loses nothing and duplicates nothing: `passed` and `removed` together
   * hold every input entry exactly once, and exactly one entry per cluster
   * is passed.
   */
  lemma AssemblePartitions(entries: seq<Entry>, sim: Similarity, order: map<string, nat>, keys: seq<string>, cs: seq<seq<nat>>)
    requires DedupCluster.Partition(cs, |entries|)
    ensures DedupAuthor.Clusters(cs, |entries|)
    ensures var r := Assemble(entries, sim, order, keys, cs);
      && multiset(r.passed + r.removed) == multiset(entries)
      && |r.passed| == |cs|
      && |r.removed| == |entries| - |cs|
  {
    var reps := KeptMembers(entries, order, cs);
    var blocks := RemovedBlocks(Titles(entries), sim, cs, reps);
    RemovedBlocksSplit(Titles(entries), sim, cs, reps);
    DedupCluster.KeptRemovedIndices(cs, reps, blocks, |cs|);
    PrefixAll(cs);
    PrefixAll(reps);
    PrefixAll(blocks);
    var gone := Concat(blocks);
    MapConcat(DedupAuthor.At(entries), reps, gone);
    MapPermutation(DedupAuthor.At(entries), reps + gone, DedupCluster.Range(|entries|));
    DedupAuthor.AtRange(entries);
    assert |reps + gone| == |multiset(reps + gone)| == |entries|;
  }

  /** The member a cluster keeps has the least representative key among its members. */
  lemma KeptIsBest(entries: seq<Entry>, order: map<string, nat>, c: seq<nat>, m: nat)
    requires |c| > 0 && DedupUtils.Indexes(c, |entries|) && m in c
    ensures m < |entries|
    ensures !DedupUtils.KeyLt(DedupUtils.RepresentativeKey(entries, order, true, m),
                              DedupUtils.RepresentativeKey(entries, order, true, Kept(entries, order, c)))
  {
    var i :| 0 <= i < |c| && c[i] == m;
    if |c| == 1 {
      var a := DedupUtils.RepresentativeKey(entries, order, true, m);
      assert Kept(entries, order, c) == m;
      assert !DedupUtils.KeyLt(a, a);
    }
  }

  /** The k-th passed entry is the member cluster k keeps. */
  lemma PassedAreKept(entries: seq<Entry>, sim: Similarity, order: map<string, nat>, keys: seq<string>, cs: seq<seq<nat>>)
    requires DedupAuthor.Clusters(cs, |entries|)
    ensures var r := Assemble(entries, sim, order, keys, cs);
      && |r.passed| == |cs|
      && forall k :: 0 <= k < |cs| ==> r.passed[k] == entries[Kept(entries, order, cs[k])]
  {
    var reps := KeptMembers(entries, order, cs);
    var passed := Assemble(entries, sim, order, keys, cs).passed;
    assert passed == Map(DedupAuthor.At(entries), reps);
    forall k | 0 <= k < |cs| ensures passed[k] == entries[Kept(entries, order, cs[k])] {
      assert passed[k] == DedupAuthor.At(entries)(reps[k]);
    }
  }

  /** Dropping one element keeps a list ordered. */
  lemma {:induction false} OthersOrdered(s: seq<DedupAuthor.Scored>, x: DedupAuthor.Scored)
    requires DedupAuthor.Ordered(s)
    ensures DedupAuthor.Ordered(Others(s, x))
    decreases |s|
  {
    if |s| > 0 {
      var n := |s| - 1;
      assert DedupAuthor.Ordered(s[..n]);
      OthersOrdered(s[..n], x);
      OthersFrom(s[..n], x);
      var o := Others(s[..n], x);
      forall k | 0 <= k < |o|
        ensures o[k].similarity < s[n].similarity || (o[k].similarity == s[n].similarity && o[k].idx < s[n].idx)
      {
        assert o[k] in s[..n];
      }
    }
  }

  /** The removed members come in ascending similarity, and by index among equal similarities. */
  lemma DroppedOrdered(sim: Similarity, titles: seq<string>, c: seq<nat>, rep: nat)
    requires DedupUtils.Indexes(c, |titles|) && rep < |titles| && DedupCluster.Ascending(c)
    ensures DedupAuthor.Ordered(Dropped(sim, titles, c, rep))
  {
    DedupAuthor.SortStable(Scores(sim, titles, c, rep));
    OthersOrdered(Ranked(sim, titles, c, rep), Score(sim, titles, rep, rep));
  }

  /**
   * A multi-member cluster records its representative first and then one
   * duplicate_title removal per other member, each naming the cluster and
   * the representative.
   */
  lemma ClusterChangesShape(entries: seq<Entry>, titles: seq<string>, sim: Similarity, c: seq<nat>, rep: nat, cluster: nat)
    requires |titles| == |entries| && |c| > 1 && DedupUtils.Indexes(c, |entries|) && DedupCluster.Ascending(c) && rep in c
    ensures var r := ClusterChanges(entries, titles, sim, c, rep, cluster);
      && |r| == |c|
      && r[0] == Change(EntryKey(entries[rep]), Keep, DuplicateTitleRepresentative, Some(cluster), None, Some(1.0))
      && (forall j :: 1 <= j < |r| ==>
            && r[j].action == Remove && r[j].reason == DuplicateTitle
            && r[j].clusterId == Some(cluster) && r[j].representativeId == Some(EntryKey(entries[rep]))
            && r[j].similarity.Some?)
  {
    DroppedCount(sim, titles, c, rep);
  }

  /** One member fewer is removed than the cluster has. */
  lemma DroppedCount(sim: Similarity, titles: seq<string>, c: seq<nat>, rep: nat)
    requires DedupUtils.Indexes(c, |titles|) && rep < |titles| && DedupCluster.Ascending(c) && rep in c
    ensures |Dropped(sim, titles, c, rep)| == |c| - 1
  {
    KeptAndDropped(sim, titles, c, rep);
    assert |multiset(c)| == 1 + |multiset(Map(DedupAuthor.ScoredIdx, Dropped(sim, titles, c, rep)))|;
  }

  /** The removal changes of a cluster come in ascending order of similarity to the representative. */
  lemma ClusterRemovalsAscending(entries: seq<Entry>, titles: seq<string>, sim: Similarity, c: seq<nat>, rep: nat, cluster: nat)
    requires |titles| == |entries| && |c| > 1 && DedupUtils.Indexes(c, |entries|) && DedupCluster.Ascending(c) && rep in c
    ensures var r := ClusterChanges(entries, titles, sim, c, rep, cluster);
      forall p, q :: 1 <= p < q < |r| ==> r[p].similarity.Some? && r[q].similarity.Some? && r[p].similarity.value <= r[q].similarity.value
  {
    var dropped := Dropped(sim, titles, c, rep);
    DroppedOrdered(sim, titles, c, rep);
    var r := ClusterChanges(entries, titles, sim, c, rep, cluster);
    assert r == [RepresentativeChange(entries, rep, cluster)] + Map(Removal(entries, rep, cluster), dropped);
    forall p, q | 1 <= p < q < |r| ensures r[p].similarity.Some? && r[q].similarity.Some? && r[p].similarity.value <= r[q].similarity.value {
      assert r[p].similarity == Some(dropped[p - 1].similarity);
      assert r[q].similarity == Some(dropped[q - 1].similarity);
    }
  }

  /** The number of changes with the given reason. */
  function Count(changes: seq<Change>, reason: Reason): (n: nat)
    ensures n <= |changes|
  {
    if |changes| == 0 then 0
    else Count(changes[..|changes| - 1], reason) + (if changes[|changes| - 1].reason == reason then 1 else 0)
  }

  lemma {:induction false} CountConcat(a: seq<Change>, b: seq<Change>, reason: Reason)
    ensures Count(a + b, reason) == Count(a, reason) + Count(b, reason)
    decreases |b|
  {
    if |b| == 0 {
      assert a + b == a;
    } else {
      assert (a + b)[..|a + b| - 1] == a + b[..|b| - 1];
      CountConcat(a, b[..|b| - 1], reason);
    }
  }

  lemma {:induction false} CountUniform(a: seq<Change>, given: Reason, reason: Reason)
    requires forall k :: 0 <= k < |a| ==> a[k].reason == given
    ensures Count(a, reason) == if reason == given then |a| else 0
    decreases |a|
  {
    if |a| > 0 {
      CountUniform(a[..|a| - 1], given, reason);
    }
  }

  lemma CountOne(x: Change, reason: Reason)
    ensures Count([x], reason) == if x.reason == reason then 1 else 0
  {
    assert [x][..0] == [];
  }

  /** A cluster records one change per member: its representative or only member, then its removals. */
  lemma ClusterCounts(entries: seq<Entry>, titles: seq<string>, sim: Similarity, c: seq<nat>, rep: nat, cluster: nat)
    requires |titles| == |entries| && |c| > 0 && DedupUtils.Indexes(c, |entries|) && DedupCluster.Ascending(c) && rep in c
    ensures |ClusterChanges(entries, titles, sim, c, rep, cluster)| == 1 + |Dropped(sim, titles, c, rep)|
    ensures Count(ClusterChanges(entries, titles, sim, c, rep, cluster), DuplicateTitle) == |Dropped(sim, titles, c, rep)|
    ensures Count(ClusterChanges(entries, titles, sim, c, rep, cluster), DuplicateTitleRepresentative) == if |c| > 1 then 1 else 0
  {
    var r := ClusterChanges(entries, titles, sim, c, rep, cluster);
    DroppedCount(sim, titles, c, rep);
    if |c| == 1 {
      CountOne(r[0], DuplicateTitle);
      CountOne(r[0], DuplicateTitleRepresentative);
    } else {
      var head := [RepresentativeChange(entries, rep, cluster)];
      var tail := Map(Removal(entries, rep, cluster), Dropped(sim, titles, c, rep));
      CountConcat(head, tail, DuplicateTitle);
      CountConcat(head, tail, DuplicateTitleRepresentative);
      CountUniform(tail, DuplicateTitle, DuplicateTitle);
      CountUniform(tail, DuplicateTitle, DuplicateTitleRepresentative);
      CountOne(head[0], DuplicateTitle);
      CountOne(head[0], DuplicateTitleRepresentative);
    }
  }

  /** The per-cluster counts, for every cluster. */
  lemma BlockCounts(entries: seq<Entry>, titles: seq<string>, sim: Similarity, cs: seq<seq<nat>>, reps: seq<nat>)
    requires |titles| == |entries| && DedupAuthor.Clusters(cs, |entries|) && Chosen(cs, reps)
    requires forall k :: 0 <= k < |cs| ==> DedupCluster.Ascending(cs[k])
    ensures forall k :: 0 <= k < |cs| ==>
      && |ChangeBlocks(entries, titles, sim, cs, reps)[k]| == 1 + |RemovedBlocks(titles, sim, cs, reps)[k]|
      && Count(ChangeBlocks(entries, titles, sim, cs, reps)[k], DuplicateTitle) == |RemovedBlocks(titles, sim, cs, reps)[k]|
      && Count(ChangeBlocks(entries, titles, sim, cs, reps)[k], DuplicateTitleRepresentative) == if |cs[k]| > 1 then 1 else 0
  {
    forall k | 0 <= k < |cs|
      ensures |ChangeBlocks(entries, titles, sim, cs, reps)[k]| == 1 + |RemovedBlocks(titles, sim, cs, reps)[k]|
      ensures Count(ChangeBlocks(entries, titles, sim, cs, reps)[k], DuplicateTitle) == |RemovedBlocks(titles, sim, cs, reps)[k]|
      ensures Count(ChangeBlocks(entries, titles, sim, cs, reps)[k], DuplicateTitleRepresentative) == if |cs[k]| > 1 then 1 else 0
    {
      ClusterCounts(entries, titles, sim, cs[k], reps[k], k + 1);
      assert |RemovedBlocks(titles, sim, cs, reps)[k]| == |Dropped(sim, titles, cs[k], reps[k])|;
    }
  }

  lemma {:induction false} ConcatCounts(xs: seq<seq<Change>>, ys: seq<seq<nat>>, reason: Reason, n: nat)
    requires |xs| == |ys| && n <= |xs| && forall k :: 0 <= k < |xs| ==> Count(xs[k], reason) == |ys[k]|
    ensures Count(Concat(xs[..n]), reason) == |Concat(ys[..n])|
  {
    if n > 0 {
      ConcatCounts(xs, ys, reason, n - 1);
      ConcatSnoc(xs, n);
      ConcatSnoc(ys, n);
      CountConcat(Concat(xs[..n - 1]), xs[n - 1], reason);
    }
  }

  lemma {:induction false} ConcatRepresentatives(xs: seq<seq<Change>>, cs: seq<seq<nat>>, n: nat)
    requires |xs| == |cs| && n <= |xs|
    requires forall k :: 0 <= k < |xs| ==> Count(xs[k], DuplicateTitleRepresentative) == if |cs[k]| > 1 then 1 else 0
    ensures Count(Concat(xs[..n]), DuplicateTitleRepresentative) == DedupAuthor.MultiMember(cs[..n])
  {
    if n > 0 {
      ConcatRepresentatives(xs, cs, n - 1);
      ConcatSnoc(xs, n);
      CountConcat(Concat(xs[..n - 1]), xs[n - 1], DuplicateTitleRepresentative);
      DedupAuthor.MultiMemberSnoc(cs, n);
    }
  }

  /**
   * One change per passed or removed entry; total_clusters counts the
   * representative changes, and every removed entry has a duplicate_title
   * change.
   */
  lemma AssembleCounts(entries: seq<Entry>, sim: Similarity, order: map<string, nat>, keys: seq<string>, cs: seq<seq<nat>>)
    requires DedupCluster.Partition(cs, |entries|)
    ensures DedupAuthor.Clusters(cs, |entries|)
    ensures var r := Assemble(entries, sim, order, keys, cs);
      && |r.changes| == |r.passed| + |r.removed|
      && r.totalClusters == Count(r.changes, DuplicateTitleRepresentative)
      && |r.removed| == Count(r.changes, DuplicateTitle)
  {
    var reps := KeptMembers(entries, order, cs);
    var titles := Titles(entries);
    var xs := ChangeBlocks(entries, titles, sim, cs, reps);
    var ys := RemovedBlocks(titles, sim, cs, reps);
    BlockCounts(entries, titles, sim, cs, reps);
    ConcatLengths(xs, ys, |cs|);
    ConcatCounts(xs, ys, DuplicateTitle, |cs|);
    ConcatRepresentatives(xs, cs, |cs|);
    PrefixAll(cs);
    PrefixAll(xs);
    PrefixAll(ys);
  }

  // ------------------------------------------------------------------
  // The loop of run
  // ------------------------------------------------------------------

  /** Every ranked score is some member's score against rep. */
  predicate ScoredAgainst(sim: Similarity, titles: seq<string>, rep: nat, ranked: seq<DedupAuthor.Scored>)
    requires rep < |titles|
  {
    forall k :: 0 <= k < |ranked| ==> ranked[k].idx < |titles| && ranked[k] == Score(sim, titles, rep, ranked[k].idx)
  }

  lemma RankedScored(sim: Similarity, titles: seq<string>, c: seq<nat>, rep: nat)
    requires DedupUtils.Indexes(c, |titles|) && rep < |titles|
    ensures ScoredAgainst(sim, titles, rep, Ranked(sim, titles, c, rep))
  {
    var scores := Scores(sim, titles, c, rep);
    var ranked := Ranked(sim, titles, c, rep);
    forall k | 0 <= k < |ranked| ensures ranked[k].idx < |titles| && ranked[k] == Score(sim, titles, rep, ranked[k].idx) {
      assert ranked[k] in multiset(scores);
    }
  }

  /** One more removed score: its entry and its change. */
  lemma DroppedSnoc(entries: seq<Entry>, rep: nat, cluster: nat, done: seq<DedupAuthor.Scored>, x: DedupAuthor.Scored)
    requires rep < |entries| && x.idx < |entries|
    ensures Map(DedupAuthor.At(entries), Map(DedupAuthor.ScoredIdx, done + [x])) ==
            Map(DedupAuthor.At(entries), Map(DedupAuthor.ScoredIdx, done)) + [entries[x.idx]]
    ensures Map(Removal(entries, rep, cluster), done + [x]) == Map(Removal(entries, rep, cluster), done) + [Removal(entries, rep, cluster)(x)]
  {
    MapConcat(DedupAuthor.ScoredIdx, done, [x]);
    MapConcat(DedupAuthor.At(entries), Map(DedupAuthor.ScoredIdx, done), [x.idx]);
    MapConcat(Removal(entries, rep, cluster), done, [x]);
  }

  /** The inner loop of run: remove every ranked member other than the representative. */
  method RemoveDuplicates(entries: seq<Entry>, ghost titles: seq<string>, ghost sim: Similarity,
                          ranked: seq<DedupAuthor.Scored>, rep: nat, cluster: nat,
                          removed: seq<Entry>, changes: seq<Change>)
    returns (removed': seq<Entry>, changes': seq<Change>)
    requires |titles| == |entries| && rep < |entries| && ScoredAgainst(sim, titles, rep, ranked)
    ensures removed' == removed + Map(DedupAuthor.At(entries), Map(DedupAuthor.ScoredIdx, Others(ranked, Score(sim, titles, rep, rep))))
    ensures changes' == changes + Map(Removal(entries, rep, cluster), Others(ranked, Score(sim, titles, rep, rep)))
  {
    ghost var own := Score(sim, titles, rep, rep);
    var repKey := EntryKey(entries[rep]);
    removed', changes' := removed, changes;
    for j := 0 to |ranked|
      invariant removed' == removed + Map(DedupAuthor.At(entries), Map(DedupAuthor.ScoredIdx, Others(ranked[..j], own)))
      invariant changes' == changes + Map(Removal(entries, rep, cluster), Others(ranked[..j], own))
    {
      OthersSnoc(ranked, j, own);
      ghost var done := Others(ranked[..j], own);
      var similarity := ranked[j].similarity;
      var idx := ranked[j].idx;
      if idx != rep {
        var change := Change(EntryKey(entries[idx]), Remove, DuplicateTitle, Some(cluster), Some(repKey), Some(similarity));
        DroppedSnoc(entries, rep, cluster, done, ranked[j]);
        ConcatAssoc(removed, Map(DedupAuthor.At(entries), Map(DedupAuthor.ScoredIdx, done)), [entries[idx]]);
        ConcatAssoc(changes, Map(Removal(entries, rep, cluster), done), [change]);
        removed' := removed' + [entries[idx]];
        changes' := changes' + [change];
      }
    }
    PrefixAll(ranked);
  }

  /** The body of run's loop for one multi-member cluster. */
  method AddDuplicates(entries: seq<Entry>, titles: seq<string>, sim: Similarity, order: map<string, nat>,
                    members: seq<nat>, cluster: nat, passed: seq<Entry>, removed: seq<Entry>, changes: seq<Change>)
    returns (passed': seq<Entry>, removed': seq<Entry>, changes': seq<Change>)
    requires |titles| == |entries| && |members| > 1 && DedupUtils.Indexes(members, |entries|)
    ensures passed' == passed + [entries[Kept(entries, order, members)]]
    ensures removed' == removed + Map(DedupAuthor.At(entries),
      Map(DedupAuthor.ScoredIdx, Dropped(sim, titles, members, Kept(entries, order, members))))
    ensures changes' == changes + ClusterChanges(entries, titles, sim, members, Kept(entries, order, members), cluster)
  {
    var rep := DedupUtils.PickRepresentative(members, entries, order, true);
    passed' := passed + [entries[rep]];
    var head := changes + [Change(EntryKey(entries[rep]), Keep, DuplicateTitleRepresentative, Some(cluster), None, Some(1.0))];
    var scored := Scores(sim, titles, members, rep);
    var ranked := DedupAuthor.SortBySimilarity(scored);
    RankedScored(sim, titles, members, rep);
    removed', changes' := RemoveDuplicates(entries, titles, sim, ranked, rep, cluster, removed, head);
    ConcatAssoc(changes, [RepresentativeChange(entries, rep, cluster)],
      Map(Removal(entries, rep, cluster), Dropped(sim, titles, members, rep)));
  }

  /** The body of run's loop: one cluster, given its 1-based position. */
  method AddCluster(entries: seq<Entry>, titles: seq<string>, sim: Similarity, order: map<string, nat>,
                    members: seq<nat>, cluster: nat, passed: seq<Entry>, removed: seq<Entry>, changes: seq<Change>)
    returns (passed': seq<Entry>, removed': seq<Entry>, changes': seq<Change>)
    requires |titles| == |entries| && |members| > 0 && DedupUtils.Indexes(members, |entries|)
    ensures passed' == passed + [entries[Kept(entries, order, members)]]
    ensures removed' == removed + Map(DedupAuthor.At(entries),
      Map(DedupAuthor.ScoredIdx, Dropped(sim, titles, members, Kept(entries, order, members))))
    ensures changes' == changes + ClusterChanges(entries, titles, sim, members, Kept(entries, order, members), cluster)
  {
    if |members| == 1 {
      SingletonDropped(sim, titles, members);
      passed' := passed + [entries[members[0]]];
      removed' := removed;
      changes' := changes + [Change(EntryKey(entries[members[0]]), Keep, UniqueTitle, None, None, None)];
    } else {
      passed', removed', changes' := AddDuplicates(entries, titles, sim, order, members, cluster, passed, removed, changes);
    }
  }

  /** The kept member, the removed members and the changes of one more cluster. */
  lemma ClusterStep(entries: seq<Entry>, titles: seq<string>, sim: Similarity, order: map<string, nat>, cs: seq<seq<nat>>, n: nat)
    requires |titles| == |entries| && DedupAuthor.Clusters(cs, |entries|) && n < |cs|
    ensures var reps := KeptMembers(entries, order, cs);
      && reps[..n + 1] == reps[..n] + [Kept(entries, order, cs[n])]
      && Concat(RemovedBlocks(titles, sim, cs, reps)[..n + 1]) == Concat(RemovedBlocks(titles, sim, cs, reps)[..n]) +
           Map(DedupAuthor.ScoredIdx, Dropped(sim, titles, cs[n], Kept(entries, order, cs[n])))
      && Concat(ChangeBlocks(entries, titles, sim, cs, reps)[..n + 1]) == Concat(ChangeBlocks(entries, titles, sim, cs, reps)[..n]) +
           ClusterChanges(entries, titles, sim, cs[n], Kept(entries, order, cs[n]), n + 1)
  {
    var reps := KeptMembers(entries, order, cs);
    PrefixSnoc(reps, n + 1);
    ConcatSnoc(RemovedBlocks(titles, sim, cs, reps), n + 1);
    ConcatSnoc(ChangeBlocks(entries, titles, sim, cs, reps), n + 1);
  }

  /** A singleton cluster removes nothing. */
  lemma SingletonDropped(sim: Similarity, titles: seq<string>, c: seq<nat>)
    requires |c| == 1 && c[0] < |titles|
    ensures Dropped(sim, titles, c, c[0]) == []
  {
    assert DedupCluster.Ascending(c);
    DroppedCount(sim, titles, c, c[0]);
  }

  /** The members counted after n clusters. */
  lemma ProcessedSnoc(cs: seq<seq<nat>>, n: nat)
    requires n < |cs|
    ensures |DedupCluster.Flatten(cs[..n + 1])| == |DedupCluster.Flatten(cs[..n])| + |cs[n]|
  {
    assert cs[..n + 1] == cs[..n] + [cs[n]];
    DedupCluster.FlattenSnoc(cs[..n], cs[n]);
    assert |multiset(DedupCluster.Flatten(cs[..n + 1]))| == |multiset(DedupCluster.Flatten(cs[..n]))| + |multiset(cs[n])|;
  }

  /** A partition of 0..n-1 lists n members. */
  lemma FlattenLength(cs: seq<seq<nat>>, n: nat)
    requires DedupCluster.Partition(cs, n)
    ensures |DedupCluster.Flatten(cs)| == n
  {
    assert |multiset(DedupCluster.Flatten(cs))| == |multiset(DedupCluster.Range(n))|;
  }

  /**
   * Python DedupTitleHandler.run; `order` is the parsed database priority
   * and `clusters` the cluster_by_threshold result it works from.
   * `processed` is the processed_entries counter reported to the progress
   * callback.
   */
  method Run(entries: seq<Entry>, configured: Option<real>, priority: DedupUtils.PriorityInput, sim: Similarity)
    returns (result: StepResult, processed: nat, ghost order: map<string, nat>, ghost clusters: seq<seq<nat>>)
    ensures result.databasePriority == DedupUtils.Firsts(DedupUtils.Normalized(DedupUtils.PriorityTokens(priority)))
    ensures DedupUtils.Ranked(order, result.databasePriority)
    ensures DedupCluster.Partition(clusters, |entries|)
    ensures DedupCluster.Components(Titles(entries), Threshold(configured), sim, clusters)
    ensures DedupAuthor.Clusters(clusters, |entries|)
    ensures result == Assemble(entries, sim, order, result.databasePriority, clusters)
    ensures processed == |entries|
  {
    var threshold := Threshold(configured);
    var ord, keys := DedupUtils.ParseDatabasePriority(priority);
    order := ord;
    var titles := Titles(entries);
    var cl := DedupCluster.ClusterByThreshold(titles, threshold, sim);
    clusters := cl;
    assert DedupAuthor.Clusters(cl, |entries|);
    ghost var reps := KeptMembers(entries, ord, cl);
    ghost var xs := ChangeBlocks(entries, titles, sim, cl, reps);
    ghost var ys := RemovedBlocks(titles, sim, cl, reps);

    var passed: seq<Entry> := [];
    var removed: seq<Entry> := [];
    var changes: seq<Change> := [];
    processed := 0;
    for n := 0 to |cl|
      invariant passed == Map(DedupAuthor.At(entries), reps[..n])
      invariant removed == Map(DedupAuthor.At(entries), Concat(ys[..n]))
      invariant changes == Concat(xs[..n])
      invariant processed == |DedupCluster.Flatten(cl[..n])|
    {
      ClusterStep(entries, titles, sim, ord, cl, n);
      ProcessedSnoc(cl, n);
      var members := cl[n];
      ghost var kept := Kept(entries, ord, members);
      DedupAuthor.AtSnoc(entries, reps[..n], kept);
      MapConcat(DedupAuthor.At(entries), Concat(ys[..n]), Map(DedupAuthor.ScoredIdx, Dropped(sim, titles, members, kept)));
      passed, removed, changes := AddCluster(entries, titles, sim, ord, members, n + 1, passed, removed, changes);
      processed := processed + |members|;
    }
    PrefixAll(reps);
    PrefixAll(xs);
    PrefixAll(ys);
    PrefixAll(cl);
    FlattenLength(cl, |entries|);
    result := StepResult(passed, removed, changes, DedupAuthor.MultiMember(cl), keys);
  }
}
