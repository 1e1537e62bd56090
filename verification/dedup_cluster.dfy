/**
 * cluster_by_threshold (and the identical cluster_entries of the screening
 * author step): compare every pair i < j once, join the two when their
 * similarity reaches the threshold, and return the groups of joined indices.
 *
 * The source keeps a union-find forest with path halving in a `parent` list;
 * here the same list holds, for every index, the owner naming its group, and a
 * union relabels one group to the other. Both produce the same partition, and
 * the returned lists depend only on the partition: each group in ascending
 * order, groups in the order of their smallest member.
 */
module DedupCluster {
  import opened Perm

  // ------------------------------------------------------------------
  // The similarity graph and its components
  // ------------------------------------------------------------------

  /** values[i] and values[j], i < j, are compared once and joined when the similarity reaches the threshold. */
  predicate Edge<T>(values: seq<T>, threshold: real, sim: (T, T) -> real, i: int, j: int)
  {
    0 <= i < j < |values| && sim(values[i], values[j]) >= threshold
  }

  /** S contains both ends of every edge or neither. */
  ghost predicate Closed<T>(values: seq<T>, threshold: real, sim: (T, T) -> real, S: set<int>)
  {
    forall i, j :: Edge(values, threshold, sim, i, j) ==> (i in S <==> j in S)
  }

  /** x and y lie in one connected component: every edge-closed set that holds x holds y. */
  ghost predicate Connected<T>(values: seq<T>, threshold: real, sim: (T, T) -> real, x: int, y: int)
  {
    forall S: set<int> :: Closed(values, threshold, sim, S) && x in S ==> y in S
  }

  lemma ConnectedSymmetric<T>(values: seq<T>, threshold: real, sim: (T, T) -> real, x: int, y: int)
    requires Connected(values, threshold, sim, x, y)
    ensures Connected(values, threshold, sim, y, x)
  {
    forall S: set<int> | Closed(values, threshold, sim, S) && y in S
      ensures x in S
    {
      if x !in S {
        if 0 <= x < |values| {
          // The indices outside S form a closed set holding x but not y.
          var rest := set z | 0 <= z < |values| && z !in S;
          assert Closed(values, threshold, sim, rest);
        } else {
          // No edge touches x, so {x} is closed.
          assert Closed(values, threshold, sim, {x});
        }
      }
    }
  }

  /** Two components joined by an edge are one: x ~ a, a - b an edge, b ~ y. */
  lemma ConnectedThroughEdge<T>(values: seq<T>, threshold: real, sim: (T, T) -> real, x: int, a: int, b: int, y: int)
    requires Connected(values, threshold, sim, x, a)
    requires Edge(values, threshold, sim, a, b) || Edge(values, threshold, sim, b, a)
    requires Connected(values, threshold, sim, b, y)
    ensures Connected(values, threshold, sim, x, y)
  {
  }

  // ------------------------------------------------------------------
  // Group owners (the relabelled parent list)
  // ------------------------------------------------------------------

  /** Equal owners only for connected indices. */
  ghost predicate Sound<T>(values: seq<T>, threshold: real, sim: (T, T) -> real, owner: seq<nat>)
    requires |owner| == |values|
  {
    forall x, y :: 0 <= x < |owner| && 0 <= y < |owner| && owner[x] == owner[y] ==>
      Connected(values, threshold, sim, x, y)
  }

  /** Every edge (a, b) compared before the pair (i, j) has equal owners at its ends. */
  ghost predicate Merged<T>(values: seq<T>, threshold: real, sim: (T, T) -> real, owner: seq<nat>, i: int, j: int)
    requires |owner| == |values|
  {
    forall a, b :: Edge(values, threshold, sim, a, b) && (a < i || (a == i && b < j)) ==> owner[a] == owner[b]
  }

  /** union(a, b): every index labelled like b takes a's owner. */
  function Relabel(owner: seq<nat>, a: nat, b: nat): (r: seq<nat>)
    requires a < |owner| && b < |owner|
    ensures |r| == |owner|
    ensures r[b] == owner[a] && r[a] == owner[a]
    ensures forall z :: 0 <= z < |owner| && owner[z] != owner[b] ==> r[z] == owner[z]
  {
    seq(|owner|, z requires 0 <= z < |owner| => if owner[z] == owner[b] then owner[a] else owner[z])
  }

  /** Relabelling two owners into one keeps every equality it finds. */
  lemma RelabelKeepsEqual(owner: seq<nat>, a: nat, b: nat, x: nat, y: nat)
    requires a < |owner| && b < |owner| && x < |owner| && y < |owner|
    requires owner[x] == owner[y]
    ensures Relabel(owner, a, b)[x] == Relabel(owner, a, b)[y]
  {
  }

  /** Joining the owners at the ends of an edge keeps owners sound. */
  lemma UnionSound<T>(values: seq<T>, threshold: real, sim: (T, T) -> real, owner: seq<nat>, a: nat, b: nat)
    requires |owner| == |values|
    requires Edge(values, threshold, sim, a, b)
    requires Sound(values, threshold, sim, owner)
    ensures Sound(values, threshold, sim, Relabel(owner, a, b))
  {
    var r := Relabel(owner, a, b);
    forall x, y | 0 <= x < |r| && 0 <= y < |r| && r[x] == r[y]
      ensures Connected(values, threshold, sim, x, y)
    {
      var xb := owner[x] == owner[b];
      var yb := owner[y] == owner[b];
      if xb && yb {
      } else if xb {
        // y kept its owner, which is a's.
        assert Connected(values, threshold, sim, x, b);
        assert Connected(values, threshold, sim, a, y);
        ConnectedSymmetric(values, threshold, sim, x, b);
        ConnectedSymmetric(values, threshold, sim, b, x);
        ConnectedThroughEdge(values, threshold, sim, x, b, a, y);
      } else if yb {
        assert Connected(values, threshold, sim, x, a);
        assert Connected(values, threshold, sim, b, y);
        ConnectedThroughEdge(values, threshold, sim, x, a, b, y);
      } else {
      }
    }
  }

  /** Joining the owners of the pair (i, j) extends the merged prefix of pairs by that pair. */
  lemma UnionMerged<T>(values: seq<T>, threshold: real, sim: (T, T) -> real, owner: seq<nat>, i: nat, j: nat)
    requires |owner| == |values| && i < j < |values|
    requires Merged(values, threshold, sim, owner, i, j)
    ensures Merged(values, threshold, sim, Relabel(owner, i, j), i, j + 1)
  {
    var r := Relabel(owner, i, j);
    forall a, b | Edge(values, threshold, sim, a, b) && (a < i || (a == i && b < j + 1))
      ensures r[a] == r[b]
    {
      if a == i && b == j {
      } else {
        RelabelKeepsEqual(owner, i, j, a, b);
      }
    }
  }

  /** Once every edge is merged, connected indices carry equal owners. */
  lemma Complete<T>(values: seq<T>, threshold: real, sim: (T, T) -> real, owner: seq<nat>, x: nat, y: nat)
    requires |owner| == |values| && x < |owner|
    requires Merged(values, threshold, sim, owner, |values|, 0)
    requires Connected(values, threshold, sim, x, y)
    ensures 0 <= y < |owner| && owner[y] == owner[x]
  {
    var S := set z | 0 <= z < |owner| && owner[z] == owner[x];
    assert Closed(values, threshold, sim, S);
    assert x in S;
  }

  // ------------------------------------------------------------------
  // The returned groups
  // ------------------------------------------------------------------

  function Flatten(groups: seq<seq<nat>>): (r: seq<nat>)
  {
    if |groups| == 0 then [] else groups[0] + Flatten(groups[1..])
  }

  /** 0, 1, ..., n - 1 */
  function Range(n: nat): (r: seq<nat>)
    ensures |r| == n
    ensures forall i :: 0 <= i < n ==> r[i] == i
  {
    seq(n, i requires 0 <= i < n => i)
  }

  lemma {:induction false} FlattenSnoc(groups: seq<seq<nat>>, g: seq<nat>)
    ensures multiset(Flatten(groups + [g])) == multiset(Flatten(groups)) + multiset(g)
    decreases |groups|
  {
    if |groups| > 0 {
      assert (groups + [g])[1..] == groups[1..] + [g];
      FlattenSnoc(groups[1..], g);
    }
  }

  lemma {:induction false} FlattenAppendAt(groups: seq<seq<nat>>, p: nat, x: nat)
    requires p < |groups|
    ensures multiset(Flatten(groups[p := groups[p] + [x]])) == multiset(Flatten(groups)) + multiset{x}
    decreases |groups|
  {
    if p > 0 {
      assert groups[p := groups[p] + [x]][1..] == groups[1..][p - 1 := groups[p] + [x]];
      FlattenAppendAt(groups[1..], p - 1, x);
    }
  }

  /** One kept member per group and the rest of each group list the groups' members again. */
  lemma {:induction false} KeptRemovedIndices(cs: seq<seq<nat>>, reps: seq<nat>, gone: seq<seq<nat>>, n: nat)
    requires |reps| == |cs| == |gone| && n <= |cs|
    requires forall k :: 0 <= k < |cs| ==> multiset{reps[k]} + multiset(gone[k]) == multiset(cs[k])
    ensures multiset(reps[..n]) + multiset(Concat(gone[..n])) == multiset(Flatten(cs[..n]))
  {
    if n > 0 {
      KeptRemovedIndices(cs, reps, gone, n - 1);
      PrefixSnoc(cs, n);
      PrefixSnoc(reps, n);
      ConcatSnoc(gone, n);
      FlattenSnoc(cs[..n - 1], cs[n - 1]);
    }
  }

  predicate Ascending(s: seq<nat>)
  {
    forall p, q :: 0 <= p < q < |s| ==> s[p] < s[q]
  }

  /**
   * The groups list the indices 0..n-1, each exactly once; every group is
   * non-empty and ascending, and groups come in order of their first member.
   */
  ghost predicate Partition(groups: seq<seq<nat>>, n: nat)
  {
    && multiset(Flatten(groups)) == multiset(Range(n))
    && (forall k :: 0 <= k < |groups| ==> |groups[k]| > 0 && Ascending(groups[k]))
    && (forall k, l :: 0 <= k < l < |groups| ==> groups[k][0] < groups[l][0])
    && (forall k, m :: 0 <= k < |groups| && 0 <= m < |groups[k]| ==> groups[k][m] < n)
  }

  /** Two listed indices share a group exactly when they are connected. */
  ghost predicate Components<T>(values: seq<T>, threshold: real, sim: (T, T) -> real, groups: seq<seq<nat>>)
  {
    forall k, m, l, p :: 0 <= k < |groups| && 0 <= m < |groups[k]| && 0 <= l < |groups| && 0 <= p < |groups[l]| ==>
      (k == l <==> Connected(values, threshold, sim, groups[k][m], groups[l][p]))
  }

  // ------------------------------------------------------------------
  // cluster_by_threshold
  // ------------------------------------------------------------------

  /** union(a, b) on the owner list. */
  method Union(owner: array<nat>, a: nat, b: nat)
    requires a < owner.Length && b < owner.Length
    modifies owner
    ensures owner[..] == Relabel(old(owner[..]), a, b)
  {
    var la := owner[a];
    var lb := owner[b];
    if la != lb {
      for z := 0 to owner.Length
        invariant forall y :: 0 <= y < z ==> owner[y] == (if old(owner[y]) == lb then la else old(owner[y]))
        invariant forall y :: z <= y < owner.Length ==> owner[y] == old(owner[y])
      {
        if owner[z] == lb {
          owner[z] := la;
        }
      }
    }
  }

  /** The pair loop: compare every i < j and join the similar ones. */
  method JoinSimilar<T>(values: seq<T>, threshold: real, sim: (T, T) -> real) returns (owner: array<nat>)
    ensures owner.Length == |values|
    ensures Sound(values, threshold, sim, owner[..])
    ensures Merged(values, threshold, sim, owner[..], |values|, 0)
  {
    var n := |values|;
    owner := new nat[n](z => z);
    for i := 0 to n
      invariant Sound(values, threshold, sim, owner[..])
      invariant Merged(values, threshold, sim, owner[..], i, i + 1)
    {
      for j := i + 1 to n
        invariant Sound(values, threshold, sim, owner[..])
        invariant Merged(values, threshold, sim, owner[..], i, j)
      {
        var similarity := sim(values[i], values[j]);
        ghost var before := owner[..];
        if similarity >= threshold {
          Union(owner, i, j);
          UnionSound(values, threshold, sim, before, i, j);
          UnionMerged(values, threshold, sim, before, i, j);
        } else {
          assert !Edge(values, threshold, sim, i, j);
        }
      }
    }
  }

  /** slot gives the position of each root in roots, and roots lists the keys of slot. */
  ghost predicate Slots(roots: seq<nat>, slot: map<nat, nat>)
  {
    && (forall r :: r in slot ==> slot[r] < |roots| && roots[slot[r]] == r)
    && (forall k :: 0 <= k < |roots| ==> roots[k] in slot && slot[roots[k]] == k)
  }

  /** Every grouped index is below idx and its owner is its group's root. */
  ghost predicate Owned(owner: seq<nat>, groups: seq<seq<nat>>, roots: seq<nat>, idx: nat)
  {
    forall k, m :: 0 <= k < |groups| && 0 <= m < |groups[k]| && k < |roots| ==>
      groups[k][m] < idx && groups[k][m] < |owner| && owner[groups[k][m]] == roots[k]
  }

  /** Groups are non-empty and ascending, and come in order of their first members. */
  ghost predicate Shaped(groups: seq<seq<nat>>)
  {
    && (forall k :: 0 <= k < |groups| ==> |groups[k]| > 0 && Ascending(groups[k]))
    && (forall k, l :: 0 <= k < l < |groups| ==> groups[k][0] < groups[l][0])
  }

  /** Every grouped index is below idx. */
  ghost predicate Below(groups: seq<seq<nat>>, idx: nat)
  {
    forall k, m :: 0 <= k < |groups| && 0 <= m < |groups[k]| ==> groups[k][m] < idx
  }

  /** The dict built by the grouping loop after the indices below idx: groups in key order, roots its keys, slot the key positions. */
  ghost predicate Grouped(owner: seq<nat>, groups: seq<seq<nat>>, roots: seq<nat>, slot: map<nat, nat>, idx: nat)
  {
    && idx <= |owner|
    && |groups| == |roots|
    && Slots(roots, slot)
    && Owned(owner, groups, roots, idx)
    && Shaped(groups)
    && Below(groups, idx)
    && multiset(Flatten(groups)) == multiset(Range(idx))
  }

  lemma OwnedAppend(owner: seq<nat>, groups: seq<seq<nat>>, roots: seq<nat>, p: nat, idx: nat)
    requires Owned(owner, groups, roots, idx) && p < |groups| && p < |roots| && idx < |owner| && owner[idx] == roots[p]
    ensures Owned(owner, groups[p := groups[p] + [idx]], roots, idx + 1)
  {
    var g := groups[p := groups[p] + [idx]];
    forall k, m | 0 <= k < |g| && 0 <= m < |g[k]| && k < |roots|
      ensures g[k][m] < idx + 1 && g[k][m] < |owner| && owner[g[k][m]] == roots[k]
    {
      if k == p && m == |groups[p]| {
        assert g[k][m] == idx;
      } else {
        assert g[k][m] == groups[k][m];
      }
    }
  }

  lemma ShapedAppend(groups: seq<seq<nat>>, p: nat, idx: nat)
    requires Shaped(groups) && p < |groups|
    requires forall m :: 0 <= m < |groups[p]| ==> groups[p][m] < idx
    ensures Shaped(groups[p := groups[p] + [idx]])
  {
    var g := groups[p := groups[p] + [idx]];
    forall k | 0 <= k < |g| ensures |g[k]| > 0 && Ascending(g[k]) {
      if k == p {
        forall a, b | 0 <= a < b < |g[k]| ensures g[k][a] < g[k][b] {
          assert g[k][a] == groups[p][a];
          if b < |groups[p]| {
            assert g[k][b] == groups[p][b];
          }
        }
      }
    }
    forall k, l | 0 <= k < l < |g| ensures g[k][0] < g[l][0] {
      assert g[k][0] == groups[k][0] && g[l][0] == groups[l][0];
    }
  }

  lemma BelowAppend(groups: seq<seq<nat>>, p: nat, idx: nat)
    requires p < |groups|
    requires Below(groups, idx)
    ensures Below(groups[p := groups[p] + [idx]], idx + 1)
  {
    var g := groups[p := groups[p] + [idx]];
    forall k, m | 0 <= k < |g| && 0 <= m < |g[k]| ensures g[k][m] < idx + 1 {
      if k != p || m < |groups[p]| {
        assert g[k][m] == groups[k][m];
      }
    }
  }

  /** Appending idx to the group of an already seen root. */
  lemma GroupedAppend(owner: seq<nat>, groups: seq<seq<nat>>, roots: seq<nat>, slot: map<nat, nat>, idx: nat)
    requires Grouped(owner, groups, roots, slot, idx) && idx < |owner| && owner[idx] in slot
    ensures Grouped(owner, groups[slot[owner[idx]] := groups[slot[owner[idx]]] + [idx]], roots, slot, idx + 1)
  {
    var p := slot[owner[idx]];
    assert Range(idx + 1) == Range(idx) + [idx];
    FlattenAppendAt(groups, p, idx);
    OwnedAppend(owner, groups, roots, p, idx);
    ShapedAppend(groups, p, idx);
    BelowAppend(groups, p, idx);
  }

  lemma SlotsOpen(roots: seq<nat>, slot: map<nat, nat>, r: nat)
    requires Slots(roots, slot) && r !in slot
    ensures Slots(roots + [r], slot[r := |roots|])
  {
    var rs := roots + [r];
    var sl := slot[r := |roots|];
    forall q | q in sl ensures sl[q] < |rs| && rs[sl[q]] == q {
      if q != r {
        assert rs[sl[q]] == roots[slot[q]];
      }
    }
    forall k | 0 <= k < |rs| ensures rs[k] in sl && sl[rs[k]] == k {
      if k < |roots| {
        assert rs[k] == roots[k] && rs[k] != r;
      }
    }
  }

  lemma OwnedOpen(owner: seq<nat>, groups: seq<seq<nat>>, roots: seq<nat>, idx: nat)
    requires Owned(owner, groups, roots, idx) && |groups| == |roots| && idx < |owner|
    ensures Owned(owner, groups + [[idx]], roots + [owner[idx]], idx + 1)
  {
    var g := groups + [[idx]];
    var rs := roots + [owner[idx]];
    forall k, m | 0 <= k < |g| && 0 <= m < |g[k]| && k < |rs|
      ensures g[k][m] < idx + 1 && g[k][m] < |owner| && owner[g[k][m]] == rs[k]
    {
      if k < |groups| {
        assert g[k][m] == groups[k][m];
      }
    }
  }

  lemma ShapedOpen(groups: seq<seq<nat>>, idx: nat)
    requires Shaped(groups)
    requires Below(groups, idx)
    ensures Shaped(groups + [[idx]])
    ensures Below(groups + [[idx]], idx + 1)
  {
    var g := groups + [[idx]];
    forall k, l | 0 <= k < l < |g| ensures g[k][0] < g[l][0] {
      assert g[k][0] == groups[k][0];
    }
    forall k, m | 0 <= k < |g| && 0 <= m < |g[k]| ensures g[k][m] < idx + 1 {
      if k < |groups| {
        assert g[k][m] == groups[k][m];
      }
    }
  }

  /** Opening a new group [idx] for a root not seen before. */
  lemma GroupedOpen(owner: seq<nat>, groups: seq<seq<nat>>, roots: seq<nat>, slot: map<nat, nat>, idx: nat)
    requires Grouped(owner, groups, roots, slot, idx) && idx < |owner| && owner[idx] !in slot
    ensures Grouped(owner, groups + [[idx]], roots + [owner[idx]], slot[owner[idx] := |groups|], idx + 1)
  {
    assert Range(idx + 1) == Range(idx) + [idx];
    FlattenSnoc(groups, [idx]);
    SlotsOpen(roots, slot, owner[idx]);
    OwnedOpen(owner, groups, roots, idx);
    ShapedOpen(groups, idx);
  }

  /** After the last index the dict's values are the partition the method promises. */
  lemma GroupedDone(owner: seq<nat>, groups: seq<seq<nat>>, roots: seq<nat>, slot: map<nat, nat>)
    requires Grouped(owner, groups, roots, slot, |owner|)
    ensures |groups| == |roots|
    ensures Partition(groups, |owner|)
    ensures forall k, m :: 0 <= k < |groups| && 0 <= m < |groups[k]| ==> owner[groups[k][m]] == roots[k]
    ensures forall k, l :: 0 <= k < l < |roots| ==> roots[k] != roots[l]
  {
    forall k, l | 0 <= k < l < |roots| ensures roots[k] != roots[l] {
      assert slot[roots[k]] == k && slot[roots[l]] == l;
    }
  }

  /** The grouping loop: clusters.setdefault(find(idx), []).append(idx), then the dict's values in insertion order. */
  method GroupByLabel(owner: seq<nat>) returns (groups: seq<seq<nat>>, roots: seq<nat>)
    ensures |groups| == |roots|
    ensures Partition(groups, |owner|)
    ensures forall k, m :: 0 <= k < |groups| && 0 <= m < |groups[k]| ==> owner[groups[k][m]] == roots[k]
    ensures forall k, l :: 0 <= k < l < |roots| ==> roots[k] != roots[l]
  {
    groups := [];
    roots := [];
    var slot: map<nat, nat> := map[];
    for idx := 0 to |owner|
      invariant Grouped(owner, groups, roots, slot, idx)
    {
      var root := owner[idx];
      if root in slot {
        GroupedAppend(owner, groups, roots, slot, idx);
        var p := slot[root];
        groups := groups[p := groups[p] + [idx]];
      } else {
        GroupedOpen(owner, groups, roots, slot, idx);
        slot := slot[root := |groups|];
        groups := groups + [[idx]];
        roots := roots + [root];
      }
    }
    GroupedDone(owner, groups, roots, slot);
  }

  /**
   * cluster_by_threshold(values, threshold, similarity_fn): the connected
   * components of "similarity >= threshold", as a partition of 0..n-1.
   */
  method ClusterByThreshold<T>(values: seq<T>, threshold: real, sim: (T, T) -> real) returns (groups: seq<seq<nat>>)
    ensures Partition(groups, |values|)
    ensures Components(values, threshold, sim, groups)
  {
    var owner := JoinSimilar(values, threshold, sim);
    var roots;
    groups, roots := GroupByLabel(owner[..]);
    forall k, m, l, p | 0 <= k < |groups| && 0 <= m < |groups[k]| && 0 <= l < |groups| && 0 <= p < |groups[l]|
      ensures k == l <==> Connected(values, threshold, sim, groups[k][m], groups[l][p])
    {
      var x, y := groups[k][m], groups[l][p];
      if Connected(values, threshold, sim, x, y) {
        Complete(values, threshold, sim, owner[..], x, y);
        assert owner[x] == roots[k] && owner[y] == roots[l];
      }
    }
  }
}
