/**
 * The deduplication helpers of the screening application. Title
 * normalisation, the completeness score, year parsing and clustering are the
 * same code as in the main application and are shared with DedupUtils and
 * DedupCluster; only pick_representative differs: it knows no database
 * priority and no DOI preference.
 */
module ScreeningDedupUtils {
  import opened Bib
  import opened DedupUtils

  /** The key (-year, -completeness, idx) the screening pick_representative sorts by. */
  function ScreeningKey(entries: seq<Entry>, idx: nat): RankKey
    requires idx < |entries|
  {
    RankKey(-ParseYear(entries[idx]), 0, 0, -(CompletenessScore(entries[idx]) as int), idx)
  }

  function ScreeningKeys(entries: seq<Entry>): (ks: seq<RankKey>)
    ensures |ks| == |entries|
    ensures forall i :: 0 <= i < |entries| ==> ks[i] == ScreeningKey(entries, i)
  {
    seq(|entries|, i requires 0 <= i < |entries| => ScreeningKey(entries, i))
  }

  /** Python pick_representative (screening) over a non-empty member list. */
  function PickRepresentative(members: seq<nat>, entries: seq<Entry>): (r: nat)
    requires |members| > 0 && Indexes(members, |entries|)
    ensures r in members && r < |entries|
    ensures forall i :: 0 <= i < |members| ==> !KeyLt(ScreeningKey(entries, members[i]), ScreeningKey(entries, r))
  {
    ArgMin(members, ScreeningKeys(entries))
  }

  /**
   * What the key means: the representative has the latest year, among those
   * the most complete record, and among full ties the smallest index.
   */
  lemma RepresentativeIsBest(members: seq<nat>, entries: seq<Entry>, i: nat)
    requires |members| > 0 && Indexes(members, |entries|) && i < |members|
    ensures var r := PickRepresentative(members, entries);
      var m := members[i];
      && ParseYear(entries[m]) <= ParseYear(entries[r])
      && (ParseYear(entries[m]) == ParseYear(entries[r]) ==>
            CompletenessScore(entries[m]) <= CompletenessScore(entries[r]))
      && (ParseYear(entries[m]) == ParseYear(entries[r]) && CompletenessScore(entries[m]) == CompletenessScore(entries[r])
          ==> r <= m)
  {
    var r := PickRepresentative(members, entries);
    assert !KeyLt(ScreeningKey(entries, members[i]), ScreeningKey(entries, r));
  }

  /** The representative is the only member no other member's key beats. */
  lemma RepresentativeUnique(members: seq<nat>, entries: seq<Entry>, m: nat)
    requires |members| > 0 && Indexes(members, |entries|) && m in members
    requires forall i :: 0 <= i < |members| ==> !KeyLt(ScreeningKey(entries, members[i]), ScreeningKey(entries, m))
    ensures PickRepresentative(members, entries) == m
  {
    var r := PickRepresentative(members, entries);
    KeyLtTotal(ScreeningKey(entries, m), ScreeningKey(entries, r));
  }

  /**
   * Without a database priority and without the DOI preference, the main
   * application's pick_representative chooses the same member.
   */
  lemma AgreesWithMainApplication(members: seq<nat>, entries: seq<Entry>)
    requires |members| > 0 && Indexes(members, |entries|)
    ensures PickRepresentative(members, entries) == DedupUtils.PickRepresentative(members, entries, map[], false)
  {
    var m := PickRepresentative(members, entries);
    forall i | 0 <= i < |members|
      ensures !KeyLt(RepresentativeKey(entries, map[], false, members[i]), RepresentativeKey(entries, map[], false, m))
    {
      assert !KeyLt(ScreeningKey(entries, members[i]), ScreeningKey(entries, m));
    }
    DedupUtils.RepresentativeUnique(members, entries, map[], false, m);
  }
}
