/**
 * The author-similarity deduplication step of the main application (step
 * type "dedup-author"). Each entry's author field is reduced to a set of
 * normalised last names; entries whose sets are similar enough (Jaccard
 * ratio at least the threshold) are clustered transitively. The step only
 * annotates: every entry is kept, the representative of each cluster first,
 * and nothing is removed.
 */
module DedupAuthor {
  import opened Wrappers
  import opened Text
  import opened Bib
  import opened AuthorNames
  import opened Perm
  import DedupCluster
  import DedupUtils

  // ------------------------------------------------------------------
  // extract_last_names
  // ------------------------------------------------------------------

  /** The normalised token, unless nothing is left of it. */
  function Named(token: string): (r: Option<string>)
    ensures r.Some? ==> r.value != "" && NameText(r.value)
  {
    var n := NormalizeAuthorToken(token);
    if n == "" then None else Some(n)
  }

  /**
   * The last name one part of the author field contributes: the text before
   * the first comma ("Family, Given"), else the last whitespace token.
   */
  function PartName(part: string): (r: Option<string>)
    ensures r.Some? ==> r.value != "" && NameText(r.value)
  {
    var c := Strip(part);
    if c == "" then None
    else if ',' in c then Named(Strip(Before(c, ',')))
    else
      var ws := Words(c);
      if |ws| == 0 then None else Named(ws[|ws| - 1])
  }

  function AsSet(o: Option<string>): set<string>
  {
    match o
    case None => {}
    case Some(n) => {n}
  }

  /** The last names of a list of parts. */
  function NamesOf(parts: seq<string>): (r: set<string>)
    ensures forall n :: n in r ==> n != "" && NameText(n)
  {
    if |parts| == 0 then {}
    else NamesOf(parts[..|parts| - 1]) + AsSet(PartName(parts[|parts| - 1]))
  }

  /** The set extract_last_names returns. */
  function LastNames(field: string): (r: set<string>)
    ensures forall n :: n in r ==> n != "" && NameText(n)
  {
    if field == "" then {} else NamesOf(SplitAuthors(field))
  }

  /** Python extract_last_names: one pass over the split parts, adding names to a set. */
  method ExtractLastNames(field: string) returns (names: set<string>)
    ensures names == LastNames(field)
  {
    names := {};
    if field == "" {
      return;
    }
    var parts := SplitAuthors(field);
    for k := 0 to |parts|
      invariant names == NamesOf(parts[..k])
    {
      assert parts[..k + 1][..k] == parts[..k];
      match PartName(parts[k]) {
        case Some(n) => names := names + {n};
        case None =>
      }
    }
    assert parts[..|parts|] == parts;
  }

  lemma {:induction false} NamesOfConcat(p: seq<string>, q: seq<string>)
    ensures NamesOf(p + q) == NamesOf(p) + NamesOf(q)
    decreases |q|
  {
    if |q| == 0 {
      assert p + q == p;
    } else {
      assert (p + q)[..|p + q| - 1] == p + q[..|q| - 1];
      NamesOfConcat(p, q[..|q| - 1]);
    }
  }

  /** The empty-field shortcut agrees with splitting the empty field. */
  lemma LastNamesSplit(field: string)
    ensures LastNames(field) == NamesOf(SplitAuthors(field))
  {
    if field == "" {
      assert SplitAuthors(field) == [""];
      assert NamesOf([""]) == NamesOf([]) + AsSet(PartName(""));
    }
  }

  /** Joining two author lists with ";" unites their last names. */
  lemma LastNamesJoin(a: string, b: string)
    ensures LastNames(a + ";" + b) == LastNames(a) + LastNames(b)
  {
    LastNamesSplit(a);
    LastNamesSplit(b);
    LastNamesSplit(a + ";" + b);
    SplitAuthorsSemicolon(a, b);
    NamesOfConcat(SplitAuthors(a), SplitAuthors(b));
  }

  lemma {:induction false} WordLenOfWord(w: string)
    requires forall i :: 0 <= i < |w| ==> !IsSpace(w[i])
    ensures WordLen(w) == |w|
    decreases |w|
  {
    if |w| > 0 {
      WordLenOfWord(w[1..]);
    }
  }

  /** A single word is its own only whitespace token. */
  lemma WordsOfWord(w: string)
    requires IsWord(w)
    ensures Words(w) == [w]
  {
    StripStartNone(w, Whitespace);
    var n := WordLen(w);
    WordLenOfWord(w);
    assert w[..n] == w;
    assert Words(w[n..]) == [];
  }

  /** "Family, Given" yields the same last name as the bare family name. */
  lemma FamilyFirst(w: string, g: string)
    requires IsWord(w) && ',' !in w
    ensures PartName(w + "," + g) == PartName(w) == Named(w)
  {
    var s := w + "," + g;
    StripStartNone(s, Whitespace);
    StripEndFacts(s, Whitespace);
    var c := Strip(s);
    assert c == StripEnd(s, Whitespace);
    assert s[|w|] == ',';
    assert |c| > |w|;
    assert c[..|w|] == w && c[|w|] == ',';
    IndexOfAt(c, ',', |w|);
    assert Before(c, ',') == w;
    assert Strip(w) == w;
    WordsOfWord(w);
  }

  // ------------------------------------------------------------------
  // The stable sort of members by similarity
  // ------------------------------------------------------------------

  /** (similarity to the representative, member index) */
  datatype Scored = Scored(similarity: real, idx: nat)

  predicate SortedBySimilarity(s: seq<Scored>)
  {
    forall p, q :: 0 <= p < q < |s| ==> s[p].similarity <= s[q].similarity
  }

  /** Insert x after every element whose similarity is not greater. */
  function Insert(x: Scored, s: seq<Scored>): (r: seq<Scored>)
    ensures multiset(r) == multiset(s) + multiset{x}
  {
    if |s| == 0 then [x]
    else if x.similarity < s[0].similarity then [x] + s
    else
      assert s == [s[0]] + s[1..];
      [s[0]] + Insert(x, s[1..])
  }

  lemma {:induction false} InsertSorted(x: Scored, s: seq<Scored>)
    requires SortedBySimilarity(s)
    ensures SortedBySimilarity(Insert(x, s))
    decreases |s|
  {
    if |s| > 0 && x.similarity >= s[0].similarity {
      InsertSorted(x, s[1..]);
      var t := Insert(x, s[1..]);
      forall q | 0 <= q < |t| ensures s[0].similarity <= t[q].similarity
      {
        assert t[q] in multiset(t);
        assert t[q] in multiset(s[1..]) || t[q] == x;
      }
    }
  }

  /** list.sort(key=similarity): a stable insertion sort. */
  function SortBySimilarity(s: seq<Scored>): (r: seq<Scored>)
    ensures multiset(r) == multiset(s)
    ensures SortedBySimilarity(r)
  {
    if |s| == 0 then []
    else
      assert s == s[..|s| - 1] + [s[|s| - 1]];
      var t := SortBySimilarity(s[..|s| - 1]);
      InsertSorted(s[|s| - 1], t);
      Insert(s[|s| - 1], t)
  }

  /** Ordered by similarity, and by index among equal similarities. */
  predicate Ordered(s: seq<Scored>)
  {
    forall p, q :: 0 <= p < q < |s| ==>
      s[p].similarity < s[q].similarity || (s[p].similarity == s[q].similarity && s[p].idx < s[q].idx)
  }

  lemma {:induction false} InsertOrdered(x: Scored, s: seq<Scored>)
    requires Ordered(s) && forall k :: 0 <= k < |s| ==> s[k].idx < x.idx
    ensures Ordered(Insert(x, s))
    decreases |s|
  {
    if |s| > 0 && x.similarity >= s[0].similarity {
      InsertOrdered(x, s[1..]);
      var t := Insert(x, s[1..]);
      forall e: Scored | e in multiset(t) ensures e.similarity > s[0].similarity || (e.similarity == s[0].similarity && e.idx > s[0].idx)
      {
        assert e in multiset(s[1..]) || e == x;
      }
    }
  }

  /**
   * Stability: members listed in ascending index order come out ordered by
   * similarity and, among equal similarities, still by index.
   */
  lemma {:induction false} SortStable(s: seq<Scored>)
    requires forall p, q :: 0 <= p < q < |s| ==> s[p].idx < s[q].idx
    ensures Ordered(SortBySimilarity(s))
    decreases |s|
  {
    if |s| > 0 {
      var n := |s| - 1;
      SortStable(s[..n]);
      var t := SortBySimilarity(s[..n]);
      forall k | 0 <= k < |t| ensures t[k].idx < s[n].idx
      {
        assert t[k] in multiset(s[..n]);
      }
      InsertOrdered(s[n], t);
    }
  }

  // ------------------------------------------------------------------
  // run
  // ------------------------------------------------------------------

  datatype Action = Keep | Remove

  datatype Reason = UniqueAuthor | DuplicateAuthorRepresentative | DuplicateAuthorMember

  /** A Change record; the cluster is named by its 1-based position ("cluster-<n>"). */
  datatype Change = Change(
    key: string,
    action: Action,
    reason: Reason,
    clusterId: Option<nat>,
    representativeId: Option<string>,
    similarity: Option<real>)

  datatype StepResult = StepResult(passed: seq<Entry>, removed: seq<Entry>, changes: seq<Change>, totalClusters: nat)

  /** An entry appended to `passed`, with the change recorded for it. */
  datatype Row = Row(idx: nat, change: Change)

  /** The author set of every entry. */
  function AuthorSets(entries: seq<Entry>): (sets: seq<set<string>>)
    ensures |sets| == |entries|
  {
    seq(|entries|, i requires 0 <= i < |entries| => LastNames(Field(entries[i], "author")))
  }

  /** (author_similarity(rep_authors, author_sets[idx]), idx) for each member. */
  function Scores(rep: set<string>, sets: seq<set<string>>, members: seq<nat>): (r: seq<Scored>)
    requires DedupUtils.Indexes(members, |sets|)
  {
    seq(|members|, m requires 0 <= m < |members| => Scored(AuthorSimilarity(rep, sets[members[m]]), members[m]))
  }

  function ScoredIdx(x: Scored): nat { x.idx }

  function RowIdx(r: Row): nat { r.idx }

  function RowChange(r: Row): Change { r.change }

  /** The rows of the non-representative members, in sorted order. */
  function MemberRows(entries: seq<Entry>, scored: seq<Scored>, rep: nat, cluster: nat): (r: seq<Row>)
    requires rep < |entries| && forall k :: 0 <= k < |scored| ==> scored[k].idx < |entries|
    ensures forall k :: 0 <= k < |r| ==>
      && r[k].idx < |entries| && r[k].idx != rep
      && r[k].change == Change(EntryKey(entries[r[k].idx]), Keep, DuplicateAuthorMember, Some(cluster),
                               Some(EntryKey(entries[rep])), r[k].change.similarity)
  {
    if |scored| == 0 then []
    else
      var x := scored[|scored| - 1];
      var rest := MemberRows(entries, scored[..|scored| - 1], rep, cluster);
      if x.idx == rep then rest
      else
        var change := Change(EntryKey(entries[x.idx]), Keep, DuplicateAuthorMember, Some(cluster),
                             Some(EntryKey(entries[rep])), Some(x.similarity));
        rest + [Row(x.idx, change)]
  }

  /** The multiset m with every copy of y taken out. */
  function Without(m: multiset<nat>, y: nat): (r: multiset<nat>)
    ensures r[y] == 0 && forall z :: z != y ==> r[z] == m[z]
  {
    m[y := 0]
  }

  /** Clearing y after adding x. */
  lemma WithoutAdd(m: multiset<nat>, x: nat, y: nat)
    ensures Without(m + multiset{x}, y) == if x == y then Without(m, y) else Without(m, y) + multiset{x}
  {
    var l := Without(m + multiset{x}, y);
    var r := if x == y then Without(m, y) else Without(m, y) + multiset{x};
    forall z ensures l[z] == r[z] {
    }
    assert l == r;
  }

  lemma ScoredIdxLast(scored: seq<Scored>)
    requires |scored| > 0
    ensures multiset(Map(ScoredIdx, scored)) == multiset(Map(ScoredIdx, scored[..|scored| - 1])) + multiset{scored[|scored| - 1].idx}
  {
    var n := |scored| - 1;
    assert scored == scored[..n] + [scored[n]];
    MapConcat(ScoredIdx, scored[..n], [scored[n]]);
  }

  lemma MemberRowsLast(entries: seq<Entry>, scored: seq<Scored>, rep: nat, cluster: nat)
    requires rep < |entries| && |scored| > 0 && forall k :: 0 <= k < |scored| ==> scored[k].idx < |entries|
    ensures var n := |scored| - 1;
      multiset(Map(RowIdx, MemberRows(entries, scored, rep, cluster))) ==
      multiset(Map(RowIdx, MemberRows(entries, scored[..n], rep, cluster))) + (if scored[n].idx == rep then multiset{} else multiset{scored[n].idx})
  {
    var n := |scored| - 1;
    var rest := MemberRows(entries, scored[..n], rep, cluster);
    var all := MemberRows(entries, scored, rep, cluster);
    if scored[n].idx != rep {
      assert all == rest + [all[|rest|]];
      MapConcat(RowIdx, rest, [all[|rest|]]);
    }
  }

  /** Every member except the representative gets a row, each once. */
  lemma {:induction false} MemberRowsIndices(entries: seq<Entry>, scored: seq<Scored>, rep: nat, cluster: nat)
    requires rep < |entries| && forall k :: 0 <= k < |scored| ==> scored[k].idx < |entries|
    ensures multiset(Map(RowIdx, MemberRows(entries, scored, rep, cluster))) == Without(multiset(Map(ScoredIdx, scored)), rep)
    decreases |scored|
  {
    if |scored| > 0 {
      var n := |scored| - 1;
      MemberRowsIndices(entries, scored[..n], rep, cluster);
      ScoredIdxLast(scored);
      MemberRowsLast(entries, scored, rep, cluster);
      WithoutAdd(multiset(Map(ScoredIdx, scored[..n])), scored[n].idx, rep);
    }
  }

  /** Clusters over the entries: non-empty lists of entry indexes. */
  predicate Clusters(cs: seq<seq<nat>>, n: nat)
  {
    forall k :: 0 <= k < |cs| ==> |cs[k]| > 0 && DedupUtils.Indexes(cs[k], n)
  }

  /** The member scores of a cluster, sorted as the handler sorts them. */
  function SortedMembers(sets: seq<set<string>>, c: seq<nat>, rep: nat): (r: seq<Scored>)
    requires DedupUtils.Indexes(c, |sets|) && rep < |sets|
    ensures forall k :: 0 <= k < |r| ==> r[k].idx < |sets|
  {
    var r := SortBySimilarity(Scores(sets[rep], sets, c));
    assert forall k :: 0 <= k < |r| ==> r[k] in multiset(Scores(sets[rep], sets, c));
    r
  }

  /** The rows of a multi-member cluster: its representative, then the other members by similarity. */
  function RepresentedRows(entries: seq<Entry>, sets: seq<set<string>>, c: seq<nat>, rep: nat, cluster: nat): (r: seq<Row>)
    requires |sets| == |entries| && DedupUtils.Indexes(c, |entries|) && rep < |entries|
  {
    [Row(rep, Change(EntryKey(entries[rep]), Keep, DuplicateAuthorRepresentative, Some(cluster), None, Some(1.0)))]
    + MemberRows(entries, SortedMembers(sets, c, rep), rep, cluster)
  }

  /** The rows one cluster adds: a unique entry, or the representative then the other members. */
  function ClusterRows(entries: seq<Entry>, sets: seq<set<string>>, c: seq<nat>, cluster: nat): (r: seq<Row>)
    requires |sets| == |entries| && |c| > 0 && DedupUtils.Indexes(c, |entries|)
    ensures |r| > 0 && r[0].idx in c
    ensures forall k :: 0 <= k < |r| ==>
      r[k].idx < |entries| && r[k].change.key == EntryKey(entries[r[k].idx]) && r[k].change.action == Keep
  {
    if |c| == 1 then
      [Row(c[0], Change(EntryKey(entries[c[0]]), Keep, UniqueAuthor, None, None, None))]
    else
      RepresentedRows(entries, sets, c, DedupUtils.PickRepresentative(c, entries, map[], true), cluster)
  }

  /** The rows of the first n clusters, numbered from 1. */
  function Rows(entries: seq<Entry>, sets: seq<set<string>>, cs: seq<seq<nat>>, n: nat): (r: seq<Row>)
    requires |sets| == |entries| && Clusters(cs, |entries|) && n <= |cs|
    ensures forall k :: 0 <= k < |r| ==>
      r[k].idx < |entries| && r[k].change.key == EntryKey(entries[r[k].idx]) && r[k].change.action == Keep
  {
    if n == 0 then [] else Rows(entries, sets, cs, n - 1) + ClusterRows(entries, sets, cs[n - 1], n)
  }

  /** The entries the rows name, in order. */
  function EntriesAt(entries: seq<Entry>, rows: seq<Row>): (r: seq<Entry>)
    requires forall k :: 0 <= k < |rows| ==> rows[k].idx < |entries|
    ensures |r| == |rows|
  {
    seq(|rows|, k requires 0 <= k < |rows| => entries[rows[k].idx])
  }

  /** len([c for c in clusters if len(c) > 1]) */
  function MultiMember(cs: seq<seq<nat>>): (n: nat)
    ensures n <= |cs|
  {
    if |cs| == 0 then 0 else MultiMember(cs[..|cs| - 1]) + (if |cs[|cs| - 1]| > 1 then 1 else 0)
  }

  lemma MultiMemberSnoc(cs: seq<seq<nat>>, n: nat)
    requires 0 < n <= |cs|
    ensures MultiMember(cs[..n]) == MultiMember(cs[..n - 1]) + (if |cs[n - 1]| > 1 then 1 else 0)
  {
    assert cs[..n][..n - 1] == cs[..n - 1];
  }

  /** The result run produces for the given clusters. */
  function Assemble(entries: seq<Entry>, cs: seq<seq<nat>>): StepResult
    requires Clusters(cs, |entries|)
  {
    var rows := Rows(entries, AuthorSets(entries), cs, |cs|);
    StepResult(EntriesAt(entries, rows), [], Map(RowChange, rows), MultiMember(cs))
  }

  // ------------------------------------------------------------------
  // What run guarantees
  // ------------------------------------------------------------------

  /** Put back the single copy of y. */
  lemma WithoutOnce(m: multiset<nat>, y: nat)
    requires m[y] == 1
    ensures multiset{y} + Without(m, y) == m
  {
    var l := multiset{y} + Without(m, y);
    forall z ensures l[z] == m[z] {
    }
    assert l == m;
  }

  /** Sorting and dropping the representative, then putting it first, lists the cluster again. */
  lemma PutBackRepresentative(c: seq<nat>, rep: nat, sorted: seq<Scored>, scores: seq<Scored>)
    requires DedupCluster.Ascending(c) && rep in c
    requires multiset(sorted) == multiset(scores) && Map(ScoredIdx, scores) == c
    ensures multiset{rep} + Without(multiset(Map(ScoredIdx, sorted)), rep) == multiset(c)
  {
    MapPermutation(ScoredIdx, sorted, scores);
    DistinctOnce(c, rep);
    WithoutOnce(multiset(c), rep);
  }

  lemma RepresentedRowsIndices(entries: seq<Entry>, sets: seq<set<string>>, c: seq<nat>, rep: nat, cluster: nat)
    requires |sets| == |entries| && DedupUtils.Indexes(c, |entries|) && rep in c && DedupCluster.Ascending(c)
    ensures multiset(Map(RowIdx, RepresentedRows(entries, sets, c, rep, cluster))) == multiset(c)
  {
    var sorted := SortedMembers(sets, c, rep);
    var rows := RepresentedRows(entries, sets, c, rep, cluster);
    var others := MemberRows(entries, sorted, rep, cluster);
    MemberRowsIndices(entries, sorted, rep, cluster);
    var scores := Scores(sets[rep], sets, c);
    assert Map(ScoredIdx, scores) == c;
    PutBackRepresentative(c, rep, sorted, scores);
    RowsFromParts(rows, others, rep, c, multiset(Map(ScoredIdx, sorted)));
  }

  /** The representative's row followed by the member rows covers the cluster once. */
  lemma RowsFromParts(rows: seq<Row>, others: seq<Row>, rep: nat, c: seq<nat>, sortedIdx: multiset<nat>)
    requires |rows| > 0 && rows[0].idx == rep && rows == [rows[0]] + others
    requires multiset(Map(RowIdx, others)) == Without(sortedIdx, rep)
    requires multiset{rep} + Without(sortedIdx, rep) == multiset(c)
    ensures multiset(Map(RowIdx, rows)) == multiset(c)
  {
    MapConcat(RowIdx, [rows[0]], others);
  }

  /** Each member of a cluster gets exactly one row. */
  lemma ClusterRowsIndices(entries: seq<Entry>, sets: seq<set<string>>, c: seq<nat>, cluster: nat)
    requires |sets| == |entries| && |c| > 0 && DedupUtils.Indexes(c, |entries|) && DedupCluster.Ascending(c)
    ensures multiset(Map(RowIdx, ClusterRows(entries, sets, c, cluster))) == multiset(c)
  {
    if |c| > 1 {
      RepresentedRowsIndices(entries, sets, c, DedupUtils.PickRepresentative(c, entries, map[], true), cluster);
    } else {
      assert c == [c[0]];
    }
  }

  lemma {:induction false} RowsIndices(entries: seq<Entry>, sets: seq<set<string>>, cs: seq<seq<nat>>, n: nat)
    requires |sets| == |entries| && Clusters(cs, |entries|) && n <= |cs|
    requires forall k :: 0 <= k < |cs| ==> DedupCluster.Ascending(cs[k])
    ensures multiset(Map(RowIdx, Rows(entries, sets, cs, n))) == multiset(DedupCluster.Flatten(cs[..n]))
  {
    if n > 0 {
      RowsIndices(entries, sets, cs, n - 1);
      ClusterRowsIndices(entries, sets, cs[n - 1], n);
      MapConcat(RowIdx, Rows(entries, sets, cs, n - 1), ClusterRows(entries, sets, cs[n - 1], n));
      PrefixSnoc(cs, n);
      DedupCluster.FlattenSnoc(cs[..n - 1], cs[n - 1]);
    }
  }

  /** entries[i], with a filler outside the list. */
  function At(entries: seq<Entry>): nat -> Entry
  {
    (i: nat) => if i < |entries| then entries[i] else map[]
  }

  /** Appending entry i to the entries read at idxs. */
  lemma AtSnoc(entries: seq<Entry>, idxs: seq<nat>, i: nat)
    requires i < |entries|
    ensures Map(At(entries), idxs + [i]) == Map(At(entries), idxs) + [entries[i]]
  {
    MapConcat(At(entries), idxs, [i]);
  }

  /** Reading the entries at 0..n-1 gives the entries back. */
  lemma AtRange(entries: seq<Entry>)
    ensures Map(At(entries), DedupCluster.Range(|entries|)) == entries
  {
  }

  /**
   * run never removes anything: `removed` is empty, `passed` is a
   * rearrangement of the input holding every entry exactly once, and the
   * k-th change is a keep for the k-th passed entry.
   */
  lemma AssembleKeepsEverything(entries: seq<Entry>, cs: seq<seq<nat>>)
    requires DedupCluster.Partition(cs, |entries|)
    ensures Clusters(cs, |entries|)
    ensures var r := Assemble(entries, cs);
      && r.removed == []
      && multiset(r.passed) == multiset(entries)
      && |r.changes| == |r.passed| == |entries|
      && forall k :: 0 <= k < |r.changes| ==> r.changes[k].action == Keep && r.changes[k].key == EntryKey(r.passed[k])
  {
    RowsCoverEntries(entries, AuthorSets(entries), cs);
  }

  /** The rows of all clusters name every entry exactly once. */
  lemma RowsCoverEntries(entries: seq<Entry>, sets: seq<set<string>>, cs: seq<seq<nat>>)
    requires |sets| == |entries| && DedupCluster.Partition(cs, |entries|)
    ensures Clusters(cs, |entries|)
    ensures multiset(EntriesAt(entries, Rows(entries, sets, cs, |cs|))) == multiset(entries)
    ensures |Rows(entries, sets, cs, |cs|)| == |entries|
  {
    var rows := Rows(entries, sets, cs, |cs|);
    var idxs := Map(RowIdx, rows);
    RowsIndices(entries, sets, cs, |cs|);
    PrefixAll(cs);
    MapPermutation(At(entries), idxs, DedupCluster.Range(|entries|));
    assert Map(At(entries), idxs) == EntriesAt(entries, rows);
    AtRange(entries);
    assert |idxs| == |multiset(idxs)| == |entries|;
  }

  /** The number of changes recording a cluster representative. */
  function Representatives(changes: seq<Change>): (n: nat)
    ensures n <= |changes|
  {
    if |changes| == 0 then 0
    else Representatives(changes[..|changes| - 1]) + (if changes[|changes| - 1].reason == DuplicateAuthorRepresentative then 1 else 0)
  }

  lemma {:induction false} RepresentativesConcat(a: seq<Change>, b: seq<Change>)
    ensures Representatives(a + b) == Representatives(a) + Representatives(b)
    decreases |b|
  {
    if |b| == 0 {
      assert a + b == a;
    } else {
      assert (a + b)[..|a + b| - 1] == a + b[..|b| - 1];
      RepresentativesConcat(a, b[..|b| - 1]);
    }
  }

  lemma {:induction false} RepresentativesNone(a: seq<Change>)
    requires forall k :: 0 <= k < |a| ==> a[k].reason != DuplicateAuthorRepresentative
    ensures Representatives(a) == 0
    decreases |a|
  {
    if |a| > 0 {
      RepresentativesNone(a[..|a| - 1]);
    }
  }

  lemma RepresentedRowsRepresentatives(entries: seq<Entry>, sets: seq<set<string>>, c: seq<nat>, rep: nat, cluster: nat)
    requires |sets| == |entries| && DedupUtils.Indexes(c, |entries|) && rep < |entries|
    ensures Representatives(Map(RowChange, RepresentedRows(entries, sets, c, rep, cluster))) == 1
  {
    var rows := RepresentedRows(entries, sets, c, rep, cluster);
    var others := MemberRows(entries, SortedMembers(sets, c, rep), rep, cluster);
    MapConcat(RowChange, [rows[0]], others);
    RepresentativesConcat(Map(RowChange, [rows[0]]), Map(RowChange, others));
    RepresentativesNone(Map(RowChange, others));
    assert Representatives(Map(RowChange, [rows[0]])) == 1;
  }

  /** One representative change per multi-member cluster, none for a unique entry. */
  lemma ClusterRepresentatives(entries: seq<Entry>, sets: seq<set<string>>, c: seq<nat>, cluster: nat)
    requires |sets| == |entries| && |c| > 0 && DedupUtils.Indexes(c, |entries|)
    ensures Representatives(Map(RowChange, ClusterRows(entries, sets, c, cluster))) == if |c| > 1 then 1 else 0
  {
    if |c| > 1 {
      RepresentedRowsRepresentatives(entries, sets, c, DedupUtils.PickRepresentative(c, entries, map[], true), cluster);
    } else {
      assert Representatives(Map(RowChange, ClusterRows(entries, sets, c, cluster))) == Representatives([]) + 0;
    }
  }

  lemma {:induction false} RowsRepresentatives(entries: seq<Entry>, sets: seq<set<string>>, cs: seq<seq<nat>>, n: nat)
    requires |sets| == |entries| && Clusters(cs, |entries|) && n <= |cs|
    ensures Representatives(Map(RowChange, Rows(entries, sets, cs, n))) == MultiMember(cs[..n])
  {
    if n > 0 {
      RowsRepresentatives(entries, sets, cs, n - 1);
      ClusterRepresentatives(entries, sets, cs[n - 1], n);
      MapConcat(RowChange, Rows(entries, sets, cs, n - 1), ClusterRows(entries, sets, cs[n - 1], n));
      RepresentativesConcat(Map(RowChange, Rows(entries, sets, cs, n - 1)), Map(RowChange, ClusterRows(entries, sets, cs[n - 1], n)));
      MultiMemberSnoc(cs, n);
    }
  }

  /** total_clusters is the number of representatives recorded among the changes. */
  lemma TotalClustersCountsRepresentatives(entries: seq<Entry>, cs: seq<seq<nat>>)
    requires Clusters(cs, |entries|)
    ensures Assemble(entries, cs).totalClusters == Representatives(Assemble(entries, cs).changes)
  {
    RowsRepresentatives(entries, AuthorSets(entries), cs, |cs|);
    assert cs[..|cs|] == cs;
  }

  /** No member row records a similarity above the bound its scores stay under. */
  lemma {:induction false} MemberRowsBelow(entries: seq<Entry>, scored: seq<Scored>, rep: nat, cluster: nat, bound: real)
    requires rep < |entries| && forall k :: 0 <= k < |scored| ==> scored[k].idx < |entries|
    requires forall k :: 0 <= k < |scored| ==> scored[k].similarity <= bound
    ensures forall k :: 0 <= k < |MemberRows(entries, scored, rep, cluster)| ==>
      MemberRows(entries, scored, rep, cluster)[k].change.similarity.Some? &&
      MemberRows(entries, scored, rep, cluster)[k].change.similarity.value <= bound
    decreases |scored|
  {
    if |scored| > 0 {
      MemberRowsBelow(entries, scored[..|scored| - 1], rep, cluster, bound);
    }
  }

  /** Every row records a similarity, and they never decrease. */
  predicate AscendingSimilarity(r: seq<Row>)
  {
    forall p, q :: 0 <= p < q < |r| ==>
      r[p].change.similarity.Some? && r[q].change.similarity.Some? &&
      r[p].change.similarity.value <= r[q].change.similarity.value
  }

  /** The member changes of a cluster come in ascending order of similarity. */
  lemma {:induction false} MemberRowsAscending(entries: seq<Entry>, scored: seq<Scored>, rep: nat, cluster: nat)
    requires rep < |entries| && forall k :: 0 <= k < |scored| ==> scored[k].idx < |entries|
    requires SortedBySimilarity(scored)
    ensures AscendingSimilarity(MemberRows(entries, scored, rep, cluster))
    decreases |scored|
  {
    if |scored| > 0 {
      var n := |scored| - 1;
      MemberRowsAscending(entries, scored[..n], rep, cluster);
      MemberRowsBelow(entries, scored[..n], rep, cluster, scored[n].similarity);
      var rest := MemberRows(entries, scored[..n], rep, cluster);
      var r := MemberRows(entries, scored, rep, cluster);
      if scored[n].idx != rep {
        assert r == rest + [r[|rest|]];
        assert r[|rest|].change.similarity == Some(scored[n].similarity);
        forall p, q | 0 <= p < q < |r|
          ensures r[p].change.similarity.Some? && r[q].change.similarity.Some?
          ensures r[p].change.similarity.value <= r[q].change.similarity.value
        {
          assert r[p] == rest[p];
          if q < |rest| {
            assert r[q] == rest[q];
          }
        }
      } else {
        assert r == rest;
      }
    }
  }

  /** In a multi-member cluster the members after the representative come by ascending similarity. */
  lemma RepresentedRowsAscending(entries: seq<Entry>, sets: seq<set<string>>, c: seq<nat>, rep: nat, cluster: nat)
    requires |sets| == |entries| && DedupUtils.Indexes(c, |entries|) && rep < |entries|
    ensures AscendingSimilarity(RepresentedRows(entries, sets, c, rep, cluster)[1..])
  {
    var rows := RepresentedRows(entries, sets, c, rep, cluster);
    MemberRowsAscending(entries, SortedMembers(sets, c, rep), rep, cluster);
    assert rows[1..] == MemberRows(entries, SortedMembers(sets, c, rep), rep, cluster);
  }

  /** float(config.get("similarity_threshold", 0.8)) */
  function Threshold(configured: Option<real>): real
  {
    configured.GetOr(0.8)
  }

  lemma EntriesAtSnoc(entries: seq<Entry>, rows: seq<Row>, row: Row)
    requires forall k :: 0 <= k < |rows| ==> rows[k].idx < |entries|
    requires row.idx < |entries|
    ensures EntriesAt(entries, rows + [row]) == EntriesAt(entries, rows) + [entries[row.idx]]
  {
  }

  /** The rows of one more sorted member. */
  lemma MemberRowsSnoc(entries: seq<Entry>, scored: seq<Scored>, j: nat, rep: nat, cluster: nat)
    requires rep < |entries| && j < |scored| && forall k :: 0 <= k < |scored| ==> scored[k].idx < |entries|
    ensures MemberRows(entries, scored[..j + 1], rep, cluster) == MemberRows(entries, scored[..j], rep, cluster) +
      (if scored[j].idx == rep then []
       else [Row(scored[j].idx, Change(EntryKey(entries[scored[j].idx]), Keep, DuplicateAuthorMember, Some(cluster),
                                       Some(EntryKey(entries[rep])), Some(scored[j].similarity)))])
  {
    assert scored[..j + 1][..j] == scored[..j];
  }

  /** Appending rows to both outputs keeps them in step with the row list. */
  predicate Tracks(entries: seq<Entry>, rows: seq<Row>, passed: seq<Entry>, changes: seq<Change>)
  {
    && (forall k :: 0 <= k < |rows| ==> rows[k].idx < |entries|)
    && passed == EntriesAt(entries, rows)
    && changes == Map(RowChange, rows)
  }

  lemma TracksSnoc(entries: seq<Entry>, rows: seq<Row>, passed: seq<Entry>, changes: seq<Change>, row: Row)
    requires Tracks(entries, rows, passed, changes) && row.idx < |entries|
    ensures Tracks(entries, rows + [row], passed + [entries[row.idx]], changes + [row.change])
  {
    EntriesAtSnoc(entries, rows, row);
    MapConcat(RowChange, rows, [row]);
  }

  /** The inner loop of run: a row for every sorted member except the representative. */
  method AddMembers(entries: seq<Entry>, scored: seq<Scored>, rep: nat, cluster: nat,
                    passed: seq<Entry>, changes: seq<Change>, ghost rows: seq<Row>)
    returns (passed': seq<Entry>, changes': seq<Change>, ghost rows': seq<Row>)
    requires rep < |entries| && forall k :: 0 <= k < |scored| ==> scored[k].idx < |entries|
    requires Tracks(entries, rows, passed, changes)
    ensures rows' == rows + MemberRows(entries, scored, rep, cluster)
    ensures Tracks(entries, rows', passed', changes')
    ensures passed' == passed + EntriesAt(entries, MemberRows(entries, scored, rep, cluster))
    ensures changes' == changes + Map(RowChange, MemberRows(entries, scored, rep, cluster))
  {
    var repKey := EntryKey(entries[rep]);
    passed', changes', rows' := passed, changes, rows;
    for j := 0 to |scored|
      invariant rows' == rows + MemberRows(entries, scored[..j], rep, cluster)
      invariant Tracks(entries, rows', passed', changes')
    {
      MemberRowsSnoc(entries, scored, j, rep, cluster);
      ghost var done := MemberRows(entries, scored[..j], rep, cluster);
      var x := scored[j];
      if x.idx != rep {
        var change := Change(EntryKey(entries[x.idx]), Keep, DuplicateAuthorMember, Some(cluster), Some(repKey), Some(x.similarity));
        TracksSnoc(entries, rows', passed', changes', Row(x.idx, change));
        ConcatAssoc(rows, done, [Row(x.idx, change)]);
        passed', changes', rows' := passed' + [entries[x.idx]], changes' + [change], rows' + [Row(x.idx, change)];
      }
    }
    assert scored[..|scored|] == scored;
    TracksAppend(entries, rows, passed, changes, MemberRows(entries, scored, rep, cluster));
  }

  /** Appending rows appends their entries to `passed` and their changes to `changes`. */
  lemma TracksAppend(entries: seq<Entry>, rows: seq<Row>, passed: seq<Entry>, changes: seq<Change>, more: seq<Row>)
    requires Tracks(entries, rows, passed, changes)
    requires forall k :: 0 <= k < |more| ==> more[k].idx < |entries|
    ensures forall k :: 0 <= k < |rows + more| ==> (rows + more)[k].idx < |entries|
    ensures EntriesAt(entries, rows + more) == passed + EntriesAt(entries, more)
    ensures Map(RowChange, rows + more) == changes + Map(RowChange, more)
  {
    MapConcat(RowChange, rows, more);
  }

  /** The body of run's loop for one multi-member cluster. */
  method AddCluster(entries: seq<Entry>, sets: seq<set<string>>, members: seq<nat>, cluster: nat, passed: seq<Entry>, changes: seq<Change>, ghost rows: seq<Row>)
    returns (passed': seq<Entry>, changes': seq<Change>, ghost rows': seq<Row>)
    requires |sets| == |entries| && |members| > 1 && DedupUtils.Indexes(members, |entries|)
    requires Tracks(entries, rows, passed, changes)
    ensures rows' == rows + ClusterRows(entries, sets, members, cluster)
    ensures Tracks(entries, rows', passed', changes')
    ensures passed' == passed + EntriesAt(entries, ClusterRows(entries, sets, members, cluster))
    ensures changes' == changes + Map(RowChange, ClusterRows(entries, sets, members, cluster))
  {
    var rep := DedupUtils.PickRepresentative(members, entries, map[], true);
    var row := Row(rep, Change(EntryKey(entries[rep]), Keep, DuplicateAuthorRepresentative, Some(cluster), None, Some(1.0)));
    TracksSnoc(entries, rows, passed, changes, row);
    var memberSimilarity := SortedMembers(sets, members, rep);
    ghost var others := MemberRows(entries, memberSimilarity, rep, cluster);
    assert ClusterRows(entries, sets, members, cluster) == RepresentedRows(entries, sets, members, rep, cluster) == [row] + others;
    passed', changes', rows' := AddMembers(entries, memberSimilarity, rep, cluster, passed + [entries[rep]], changes + [row.change], rows + [row]);
    ConcatAssoc(rows, [row], others);
    TracksAppend(entries, rows, passed, changes, ClusterRows(entries, sets, members, cluster));
  }

  lemma AuthorSetsSnoc(entries: seq<Entry>, sets: seq<set<string>>, i: nat)
    requires i < |entries| && sets == AuthorSets(entries)[..i]
    ensures sets + [LastNames(Field(entries[i], "author"))] == AuthorSets(entries)[..i + 1]
  {
    var all := AuthorSets(entries);
    assert all[..i + 1] == all[..i] + [all[i]];
  }

  /** Python DedupAuthorHandler.run; `clusters` is the cluster_by_threshold result it works from. */
  method Run(entries: seq<Entry>, configured: Option<real>) returns (result: StepResult, ghost clusters: seq<seq<nat>>)
    ensures DedupCluster.Partition(clusters, |entries|)
    ensures DedupCluster.Components(AuthorSets(entries), Threshold(configured), AuthorSimilarity, clusters)
    ensures Clusters(clusters, |entries|) && result == Assemble(entries, clusters)
  {
    var threshold := Threshold(configured);
    var sets: seq<set<string>> := [];
    for i := 0 to |entries|
      invariant sets == AuthorSets(entries)[..i]
    {
      var names := ExtractLastNames(Field(entries[i], "author"));
      AuthorSetsSnoc(entries, sets, i);
      sets := sets + [names];
    }
    assert AuthorSets(entries)[..|entries|] == AuthorSets(entries);
    var cl := DedupCluster.ClusterByThreshold(sets, threshold, AuthorSimilarity);
    clusters := cl;
    assert Clusters(cl, |entries|);

    var passed: seq<Entry> := [];
    var changes: seq<Change> := [];
    ghost var rows: seq<Row> := [];
    for n := 0 to |cl|
      invariant rows == Rows(entries, sets, cl, n)
      invariant Tracks(entries, rows, passed, changes)
    {
      var members := cl[n];
      if |members| == 1 {
        var row := Row(members[0], Change(EntryKey(entries[members[0]]), Keep, UniqueAuthor, None, None, None));
        TracksSnoc(entries, rows, passed, changes, row);
        passed, changes, rows := passed + [entries[members[0]]], changes + [row.change], rows + [row];
      } else {
        passed, changes, rows := AddCluster(entries, sets, members, n + 1, passed, changes, rows);
      }
    }
    result := StepResult(passed, [], changes, MultiMember(cl));
  }
}
