/**
 * The DOI deduplication step: the first entry carrying a DOI passes, later
 * entries with the same (normalised) DOI are removed, and entries without a
 * DOI pass or are removed depending on the configuration.
 */
module DedupDoi {
  import opened Wrappers
  import opened Text
  import opened Bib

  datatype Action = Keep | Remove

  /** The reasons `no_doi`, `no_doi_removed`, `duplicate_doi` and `unique_doi`. */
  datatype Reason = NoDoi | NoDoiRemoved | DuplicateDoi | UniqueDoi

  /** A Change; `doi` and `originalKey` are the detail fields ("" where the source sets none). */
  datatype Change = Change(key: string, action: Action, reason: Reason, doi: string, originalKey: string)

  datatype Stats = Stats(totalInput: nat, uniqueCount: nat, duplicateCount: nat, uniqueDois: nat, entriesWithoutDoi: nat)

  datatype StepResult = StepResult(passed: seq<Entry>, removed: seq<Entry>, changes: seq<Change>, stats: Stats)

  /** entry.get("doi", "").strip() */
  function Doi(e: Entry): string
  {
    Strip(Field(e, "doi"))
  }

  /** The DOI as compared: lower-cased unless the comparison is case-sensitive. */
  function DoiKey(e: Entry, caseSensitive: bool): (k: string)
    ensures |k| == |Doi(e)|
  {
    if caseSensitive then Doi(e) else LowerStr(Doi(e))
  }

  /** Entry e has a DOI and compares equal to k. */
  predicate Carries(e: Entry, k: string, caseSensitive: bool)
  {
    Doi(e) != "" && DoiKey(e, caseSensitive) == k
  }

  /** The index of the first entry carrying DOI key k. */
  function FirstWith(es: seq<Entry>, k: string, caseSensitive: bool): (r: Option<nat>)
    ensures r.Some? ==> r.value < |es| && Carries(es[r.value], k, caseSensitive)
    ensures r.Some? ==> forall j :: 0 <= j < r.value ==> !Carries(es[j], k, caseSensitive)
    ensures r.None? ==> forall j :: 0 <= j < |es| ==> !Carries(es[j], k, caseSensitive)
  {
    if |es| == 0 then None
    else
      var init := es[..|es| - 1];
      var p := FirstWith(init, k, caseSensitive);
      assert forall j :: 0 <= j < |init| ==> init[j] == es[j];
      if p.Some? then p
      else if Carries(es[|es| - 1], k, caseSensitive) then Some(|es| - 1)
      else None
  }

  /** The Change the step records for entry i, read off the entries before it. */
  function Verdict(entries: seq<Entry>, i: nat, caseSensitive: bool, keepNoDoi: bool): (c: Change)
    requires i < |entries|
  {
    var e := entries[i];
    if Doi(e) == "" then
      if keepNoDoi then Change(EntryKey(e), Keep, NoDoi, "", "")
      else Change(EntryKey(e), Remove, NoDoiRemoved, "", "")
    else
      match FirstWith(entries[..i], DoiKey(e, caseSensitive), caseSensitive)
      case Some(j) => Change(EntryKey(e), Remove, DuplicateDoi, Doi(e), EntryKey(entries[j]))
      case None => Change(EntryKey(e), Keep, UniqueDoi, Doi(e), "")
  }

  /** The entries whose action is a, in input order. */
  function Select<T>(es: seq<T>, acts: seq<Action>, a: Action): (r: seq<T>)
    requires |es| == |acts|
    ensures |r| <= |es|
  {
    if |es| == 0 then []
    else
      Select(es[..|es| - 1], acts[..|acts| - 1], a) + (if acts[|acts| - 1] == a then [es[|es| - 1]] else [])
  }

  /** The actions of the first n verdicts. */
  function Actions(entries: seq<Entry>, n: nat, caseSensitive: bool, keepNoDoi: bool): (r: seq<Action>)
    requires n <= |entries|
    ensures |r| == n
  {
    if n == 0 then [] else Actions(entries, n - 1, caseSensitive, keepNoDoi) + [Verdict(entries, n - 1, caseSensitive, keepNoDoi).action]
  }

  /** The first n entries whose verdict has the given action, in input order. */
  function WithAction(entries: seq<Entry>, n: nat, caseSensitive: bool, keepNoDoi: bool, a: Action): (r: seq<Entry>)
    requires n <= |entries|
    ensures |r| <= n
  {
    Select(entries[..n], Actions(entries, n, caseSensitive, keepNoDoi), a)
  }

  /** One more entry appends its verdict's action. */
  lemma ActionsSnoc(entries: seq<Entry>, m: nat, cs: bool, keep: bool)
    requires m < |entries|
    ensures Actions(entries, m + 1, cs, keep) == Actions(entries, m, cs, keep) + [Verdict(entries, m, cs, keep).action]
  {
  }

  lemma WithActionStep(entries: seq<Entry>, n: nat, cs: bool, keep: bool, a: Action)
    requires n < |entries|
    ensures WithAction(entries, n + 1, cs, keep, a) ==
      WithAction(entries, n, cs, keep, a) + (if Verdict(entries, n, cs, keep).action == a then [entries[n]] else [])
  {
    assert entries[..n + 1][..n] == entries[..n];
    assert Actions(entries, n + 1, cs, keep)[..n] == Actions(entries, n, cs, keep);
  }

  /** The number of changes with reason `no_doi` or `no_doi_removed`. */
  function CountWithoutDoi(changes: seq<Change>): (r: nat)
    ensures r <= |changes|
  {
    if |changes| == 0 then 0
    else
      var last := changes[|changes| - 1];
      CountWithoutDoi(changes[..|changes| - 1]) + (if last.reason == NoDoi || last.reason == NoDoiRemoved then 1 else 0)
  }

  /** The changes recorded for the first t entries are their verdicts. */
  ghost predicate ChangesMatch(entries: seq<Entry>, t: nat, cs: bool, keep: bool, changes: seq<Change>)
    requires t <= |entries|
  {
    |changes| == t && forall i :: 0 <= i < t ==> changes[i] == Verdict(entries, i, cs, keep)
  }

  /** The seen-DOI dict after t entries: each new DOI key maps to the entry that first carried it. */
  function SeenAfter(entries: seq<Entry>, t: nat, cs: bool): map<string, Entry>
    requires t <= |entries|
  {
    if t == 0 then map[]
    else
      var seen := SeenAfter(entries, t - 1, cs);
      var e := entries[t - 1];
      if Doi(e) != "" && DoiKey(e, cs) !in seen then seen[DoiKey(e, cs) := e] else seen
  }

  lemma SeenAfterStep(entries: seq<Entry>, t: nat, cs: bool)
    requires t < |entries|
    ensures var seen := SeenAfter(entries, t, cs); var e := entries[t];
      SeenAfter(entries, t + 1, cs) == if Doi(e) != "" && DoiKey(e, cs) !in seen then seen[DoiKey(e, cs) := e] else seen
  {
  }

  lemma FirstWithStep(entries: seq<Entry>, t: nat, k: string, cs: bool)
    requires t < |entries|
    ensures FirstWith(entries[..t + 1], k, cs) ==
      if FirstWith(entries[..t], k, cs).Some? then FirstWith(entries[..t], k, cs)
      else if Carries(entries[t], k, cs) then Some(t) else None
  {
    assert entries[..t + 1][..t] == entries[..t];
  }

  /** A key is in the seen-DOI dict exactly when some earlier entry carried it, and it maps to the first such entry. */
  lemma {:induction false} SeenAfterFirst(entries: seq<Entry>, t: nat, cs: bool, k: string)
    requires t <= |entries|
    ensures k in SeenAfter(entries, t, cs) <==> FirstWith(entries[..t], k, cs).Some?
    ensures k in SeenAfter(entries, t, cs) ==> SeenAfter(entries, t, cs)[k] == entries[FirstWith(entries[..t], k, cs).value]
  {
    if t > 0 {
      SeenAfterFirst(entries, t - 1, cs, k);
      FirstWithStep(entries, t - 1, k, cs);
    }
  }

  /** The verdict on entry t, read off the seen-DOI dict as the loop does. */
  lemma VerdictNow(entries: seq<Entry>, t: nat, cs: bool, keep: bool)
    requires t < |entries|
    ensures var e := entries[t]; var k := DoiKey(e, cs); var seen := SeenAfter(entries, t, cs);
      Verdict(entries, t, cs, keep) ==
        if Doi(e) == "" then
          (if keep then Change(EntryKey(e), Keep, NoDoi, "", "") else Change(EntryKey(e), Remove, NoDoiRemoved, "", ""))
        else if k in seen then Change(EntryKey(e), Remove, DuplicateDoi, Doi(e), EntryKey(seen[k]))
        else Change(EntryKey(e), Keep, UniqueDoi, Doi(e), "")
  {
    SeenAfterFirst(entries, t, cs, DoiKey(entries[t], cs));
  }

  lemma ChangesAppend(entries: seq<Entry>, t: nat, cs: bool, keep: bool, changes: seq<Change>)
    requires t < |entries| && ChangesMatch(entries, t, cs, keep, changes)
    ensures ChangesMatch(entries, t + 1, cs, keep, changes + [Verdict(entries, t, cs, keep)])
  {
    var next := changes + [Verdict(entries, t, cs, keep)];
    forall i | 0 <= i < t ensures next[i] == Verdict(entries, i, cs, keep) {
      assert next[i] == changes[i];
    }
  }

  /** One more entry joins the passed or the removed list, as the seen-DOI dict decides. */
  lemma OutputsAppend(entries: seq<Entry>, t: nat, cs: bool, keep: bool)
    requires t < |entries|
    ensures var e := entries[t]; var k := DoiKey(e, cs);
      var kept := if Doi(e) == "" then keep else k !in SeenAfter(entries, t, cs);
      && WithAction(entries, t + 1, cs, keep, Keep) ==
           (if kept then WithAction(entries, t, cs, keep, Keep) + [e] else WithAction(entries, t, cs, keep, Keep))
      && WithAction(entries, t + 1, cs, keep, Remove) ==
           (if kept then WithAction(entries, t, cs, keep, Remove) else WithAction(entries, t, cs, keep, Remove) + [e])
  {
    VerdictNow(entries, t, cs, keep);
    WithActionStep(entries, t, cs, keep, Keep);
    WithActionStep(entries, t, cs, keep, Remove);
  }

  /** Python DedupDoiHandler.run. */
  method Run(entries: seq<Entry>, caseSensitive: bool, keepNoDoi: bool) returns (result: StepResult)
    ensures |result.changes| == |entries|
    ensures forall i :: 0 <= i < |entries| ==> result.changes[i] == Verdict(entries, i, caseSensitive, keepNoDoi)
    ensures result.passed == WithAction(entries, |entries|, caseSensitive, keepNoDoi, Keep)
    ensures result.removed == WithAction(entries, |entries|, caseSensitive, keepNoDoi, Remove)
    ensures result.stats.totalInput == |entries|
    ensures result.stats.uniqueCount == |result.passed| && result.stats.duplicateCount == |result.removed|
    ensures result.stats.uniqueDois == |SeenAfter(entries, |entries|, caseSensitive)|
    ensures result.stats.uniqueDois + (if keepNoDoi then result.stats.entriesWithoutDoi else 0) == result.stats.uniqueCount
    ensures result.stats.entriesWithoutDoi == CountWithoutDoi(result.changes)
  {
    var passed: seq<Entry> := [];
    var removed: seq<Entry> := [];
    var changes: seq<Change> := [];
    var seen: map<string, Entry> := map[];
    for t := 0 to |entries|
      invariant ChangesMatch(entries, t, caseSensitive, keepNoDoi, changes)
      invariant passed == WithAction(entries, t, caseSensitive, keepNoDoi, Keep)
      invariant removed == WithAction(entries, t, caseSensitive, keepNoDoi, Remove)
      invariant seen == SeenAfter(entries, t, caseSensitive)
    {
      var entry := entries[t];
      var key := EntryKey(entry);
      var doi := Doi(entry);
      var normalized := if caseSensitive then doi else LowerStr(doi);
      VerdictNow(entries, t, caseSensitive, keepNoDoi);
      ChangesAppend(entries, t, caseSensitive, keepNoDoi, changes);
      OutputsAppend(entries, t, caseSensitive, keepNoDoi);
      SeenAfterStep(entries, t, caseSensitive);
      if doi == "" {
        if keepNoDoi {
          passed := passed + [entry];
          changes := changes + [Change(key, Keep, NoDoi, "", "")];
        } else {
          removed := removed + [entry];
          changes := changes + [Change(key, Remove, NoDoiRemoved, "", "")];
        }
      } else if normalized in seen {
        var original := seen[normalized];
        removed := removed + [entry];
        changes := changes + [Change(key, Remove, DuplicateDoi, doi, EntryKey(original))];
      } else {
        seen := seen[normalized := entry];
        passed := passed + [entry];
        changes := changes + [Change(key, Keep, UniqueDoi, doi, "")];
      }
    }
    StatsBalance(entries, |entries|, caseSensitive, keepNoDoi, changes);
    var stats := Stats(|entries|, |passed|, |removed|, |seen|, CountWithoutDoi(changes));
    result := StepResult(passed, removed, changes, stats);
  }

  /** Appending one entry with its action extends exactly one of the selections. */
  lemma SelectSnoc<T>(es: seq<T>, acts: seq<Action>, e: T, b: Action, a: Action)
    requires |es| == |acts|
    ensures Select(es + [e], acts + [b], a) == Select(es, acts, a) + (if b == a then [e] else [])
  {
    assert (es + [e])[..|es|] == es;
    assert (acts + [b])[..|acts|] == acts;
  }

  /** The two selections split the input: together they hold each entry exactly once. */
  lemma {:induction false} SelectPartition<T>(es: seq<T>, acts: seq<Action>)
    requires |es| == |acts|
    ensures multiset(Select(es, acts, Keep)) + multiset(Select(es, acts, Remove)) == multiset(es)
  {
    if |es| > 0 {
      var n := |es| - 1;
      var pe, pa := es[..n], acts[..n];
      assert es == pe + [es[n]];
      SelectPartition(pe, pa);
      var keep, remove := Select(pe, pa, Keep), Select(pe, pa, Remove);
      if acts[n] == Keep {
        assert Select(es, acts, Keep) == keep + [es[n]] && Select(es, acts, Remove) == remove;
      } else {
        assert Select(es, acts, Keep) == keep && Select(es, acts, Remove) == remove + [es[n]];
      }
    }
  }

  /** Every selected entry is an input entry with that action: the index it came from. */
  lemma {:induction false} SelectFrom<T>(es: seq<T>, acts: seq<Action>, a: Action, x: T) returns (j: nat)
    requires |es| == |acts| && x in Select(es, acts, a)
    ensures j < |es| && es[j] == x && acts[j] == a
  {
    var n := |es| - 1;
    if acts[n] == a && x == es[n] {
      j := n;
    } else {
      j := SelectFrom(es[..n], acts[..n], a, x);
    }
  }

  /** When every action is a, the selection is the whole input and the other selection is empty. */
  lemma {:induction false} SelectAll<T>(es: seq<T>, acts: seq<Action>, a: Action, b: Action)
    requires |es| == |acts| && a != b && forall i :: 0 <= i < |acts| ==> acts[i] == a
    ensures Select(es, acts, a) == es && Select(es, acts, b) == []
  {
    if |es| > 0 {
      var n := |es| - 1;
      SelectAll(es[..n], acts[..n], a, b);
      assert es == es[..n] + [es[n]];
    }
  }

  /** The passed and removed outputs split the input: together they hold each entry exactly once. */
  lemma WithActionPartition(entries: seq<Entry>, n: nat, cs: bool, keep: bool)
    requires n <= |entries|
    ensures multiset(WithAction(entries, n, cs, keep, Keep)) + multiset(WithAction(entries, n, cs, keep, Remove))
      == multiset(entries[..n])
  {
    SelectPartition(entries[..n], Actions(entries, n, cs, keep));
  }

  /** No two entries with a DOI compare equal. */
  predicate DistinctDois(es: seq<Entry>, cs: bool)
  {
    forall i, j :: 0 <= i < j < |es| && Doi(es[i]) != "" && Doi(es[j]) != "" ==> DoiKey(es[i], cs) != DoiKey(es[j], cs)
  }

  lemma DistinctSnoc(p: seq<Entry>, e: Entry, cs: bool)
    requires DistinctDois(p, cs)
    requires Doi(e) != "" ==> forall i :: 0 <= i < |p| ==> !Carries(p[i], DoiKey(e, cs), cs)
    ensures DistinctDois(p + [e], cs)
  {
    var q := p + [e];
    forall i, j | 0 <= i < j < |q| && Doi(q[i]) != "" && Doi(q[j]) != "" ensures DoiKey(q[i], cs) != DoiKey(q[j], cs)
    {
      if j == |p| {
        assert !Carries(p[i], DoiKey(e, cs), cs);
      } else {
        assert q[i] == p[i] && q[j] == p[j];
      }
    }
  }

  /** A DOI key no input entry carries is carried by no output entry. */
  lemma NoCarrierInOutput(entries: seq<Entry>, n: nat, cs: bool, keep: bool, a: Action, k: string)
    requires n <= |entries| && FirstWith(entries[..n], k, cs).None?
    ensures forall i :: 0 <= i < |WithAction(entries, n, cs, keep, a)| ==> !Carries(WithAction(entries, n, cs, keep, a)[i], k, cs)
  {
    var p := WithAction(entries, n, cs, keep, a);
    forall i | 0 <= i < |p| ensures !Carries(p[i], k, cs)
    {
      var j := SelectFrom(entries[..n], Actions(entries, n, cs, keep), a, p[i]);
    }
  }

  lemma PassedDistinctStep(entries: seq<Entry>, n: nat, cs: bool, keep: bool)
    requires n < |entries| && DistinctDois(WithAction(entries, n, cs, keep, Keep), cs)
    ensures DistinctDois(WithAction(entries, n + 1, cs, keep, Keep), cs)
  {
    WithActionStep(entries, n, cs, keep, Keep);
    var e := entries[n];
    if Verdict(entries, n, cs, keep).action == Keep {
      if Doi(e) != "" {
        NoCarrierInOutput(entries, n, cs, keep, Keep, DoiKey(e, cs));
      }
      DistinctSnoc(WithAction(entries, n, cs, keep, Keep), e, cs);
    }
  }

  /** The passed output never holds two entries with the same DOI. */
  lemma {:induction false} PassedDistinct(entries: seq<Entry>, n: nat, cs: bool, keep: bool)
    requires n <= |entries|
    ensures DistinctDois(WithAction(entries, n, cs, keep, Keep), cs)
  {
    if n > 0 {
      var m := n - 1;
      PassedDistinct(entries, m, cs, keep);
      PassedDistinctStep(entries, m, cs, keep);
      assert m + 1 == n;
    }
  }

  lemma NoDuplicateWhenDistinct(es: seq<Entry>, i: nat, cs: bool, keep: bool)
    requires i < |es| && DistinctDois(es, cs)
    ensures Verdict(es, i, cs, keep).action == Remove <==> Doi(es[i]) == "" && !keep
  {
    assert forall l :: 0 <= l < i ==> es[..i][l] == es[l];
  }

  /** On input with distinct DOIs, with entries without a DOI kept, every verdict keeps. */
  lemma {:induction false} AllKept(es: seq<Entry>, n: nat, cs: bool)
    requires n <= |es| && DistinctDois(es, cs)
    ensures forall i :: 0 <= i < n ==> Actions(es, n, cs, true)[i] == Keep
  {
    if n > 0 {
      var m := n - 1;
      AllKept(es, m, cs);
      NoDuplicateWhenDistinct(es, m, cs, true);
      ActionsSnoc(es, m, cs, true);
      assert m + 1 == n;
    }
  }

  /** On input with distinct DOIs, with entries without a DOI kept, every entry passes. */
  lemma DistinctAllPass(es: seq<Entry>, cs: bool)
    requires DistinctDois(es, cs)
    ensures WithAction(es, |es|, cs, true, Keep) == es
    ensures WithAction(es, |es|, cs, true, Remove) == []
  {
    var acts := Actions(es, |es|, cs, true);
    AllKept(es, |es|, cs);
    assert es[..|es|] == es;
    SelectAll(es, acts, Keep, Remove);
  }

  /** Running the step again on its passed output (keeping entries without a DOI) removes nothing. */
  lemma DedupDoiIdempotent(entries: seq<Entry>, cs: bool)
    ensures var p := WithAction(entries, |entries|, cs, true, Keep);
      WithAction(p, |p|, cs, true, Keep) == p && WithAction(p, |p|, cs, true, Remove) == []
  {
    PassedDistinct(entries, |entries|, cs, true);
    DistinctAllPass(WithAction(entries, |entries|, cs, true, Keep), cs);
  }

  /** A duplicate names the earlier entry that first carried its DOI, and that entry was kept as unique. */
  lemma DuplicateHasOriginal(entries: seq<Entry>, j: nat, cs: bool, keep: bool)
    requires j < |entries| && Verdict(entries, j, cs, keep).reason == DuplicateDoi
    ensures exists i :: (0 <= i < j && Verdict(entries, i, cs, keep).reason == UniqueDoi
      && DoiKey(entries[i], cs) == DoiKey(entries[j], cs)
      && Verdict(entries, j, cs, keep).originalKey == EntryKey(entries[i]))
  {
    var k := DoiKey(entries[j], cs);
    var i := FirstWith(entries[..j], k, cs).value;
    assert entries[..j][i] == entries[i];
    assert forall l :: 0 <= l < i ==> entries[..i][l] == entries[..j][l];
    assert FirstWith(entries[..i], k, cs).None?;
  }

  /** One entry adds to the passed entries exactly what it adds to the seen DOIs or, when kept, to the entries without a DOI. */
  lemma BalanceStep(entries: seq<Entry>, n: nat, cs: bool, keep: bool)
    requires n < |entries|
    ensures var r := Verdict(entries, n, cs, keep).reason;
      |SeenAfter(entries, n + 1, cs)| + (if keep && (r == NoDoi || r == NoDoiRemoved) then 1 else 0)
        == |SeenAfter(entries, n, cs)| + |WithAction(entries, n + 1, cs, keep, Keep)| - |WithAction(entries, n, cs, keep, Keep)|
  {
    VerdictNow(entries, n, cs, keep);
    WithActionStep(entries, n, cs, keep, Keep);
    SeenAfterStep(entries, n, cs);
  }

  /** The stats agree: unique DOIs, plus the entries without a DOI when those are kept, are the passed entries. */
  lemma {:induction false} StatsBalance(entries: seq<Entry>, n: nat, cs: bool, keep: bool, changes: seq<Change>)
    requires n <= |entries| && ChangesMatch(entries, n, cs, keep, changes)
    ensures |SeenAfter(entries, n, cs)| + (if keep then CountWithoutDoi(changes) else 0)
      == |WithAction(entries, n, cs, keep, Keep)|
  {
    if n > 0 {
      var prev := changes[..n - 1];
      assert ChangesMatch(entries, n - 1, cs, keep, prev);
      StatsBalance(entries, n - 1, cs, keep, prev);
      BalanceStep(entries, n - 1, cs, keep);
      assert changes[n - 1] == Verdict(entries, n - 1, cs, keep);
    }
  }
}
