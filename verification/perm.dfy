/**
 * Element-wise images of sequences and the permutation facts the
 * deduplication handlers share: reordering the inputs of a projection
 * reorders its outputs the same way.
 */
module Perm {

  /** [f(x) for x in s] */
  function Map<A, B>(f: A -> B, s: seq<A>): (r: seq<B>)
    ensures |r| == |s|
    ensures forall k :: 0 <= k < |s| ==> r[k] == f(s[k])
  {
    seq(|s|, k requires 0 <= k < |s| => f(s[k]))
  }

  lemma MapConcat<A, B>(f: A -> B, a: seq<A>, b: seq<A>)
    ensures Map(f, a + b) == Map(f, a) + Map(f, b)
  {
  }

  lemma ConcatAssoc<T>(a: seq<T>, b: seq<T>, c: seq<T>)
    ensures a + b + c == a + (b + c)
  {
  }

  lemma PrefixAll<T>(s: seq<T>)
    ensures s[..|s|] == s
  {
  }

  lemma PrefixSnoc<T>(s: seq<T>, n: nat)
    requires 0 < n <= |s|
    ensures s[..n] == s[..n - 1] + [s[n - 1]]
  {
  }

  /** The blocks one after another. */
  function Concat<T>(bs: seq<seq<T>>): (r: seq<T>)
  {
    if |bs| == 0 then [] else Concat(bs[..|bs| - 1]) + bs[|bs| - 1]
  }

  lemma ConcatSnoc<T>(bs: seq<seq<T>>, n: nat)
    requires 0 < n <= |bs|
    ensures Concat(bs[..n]) == Concat(bs[..n - 1]) + bs[n - 1]
  {
    assert bs[..n][..n - 1] == bs[..n - 1];
  }

  lemma {:induction false} ConcatAppend<T>(a: seq<seq<T>>, b: seq<seq<T>>)
    ensures Concat(a + b) == Concat(a) + Concat(b)
    decreases |b|
  {
    if |b| > 0 {
      var n := |b| - 1;
      assert (a + b)[..|a + b| - 1] == a + b[..n];
      ConcatAppend(a, b[..n]);
    } else {
      assert a + b == a;
    }
  }

  /** Mapping one more element adds its block. */
  lemma ConcatMapSnoc<A, B>(f: A -> seq<B>, s: seq<A>, i: nat)
    requires i < |s|
    ensures Concat(Map(f, s[..i + 1])) == Concat(Map(f, s[..i])) + f(s[i])
  {
    assert s[..i + 1] == s[..i] + [s[i]];
    MapConcat(f, s[..i], [s[i]]);
    ConcatAppend(Map(f, s[..i]), Map(f, [s[i]]));
    assert Concat(Map(f, [s[i]])) == [] + f(s[i]);
  }

  /** When each block of xs is one longer than its partner in ys, n blocks add n. */
  lemma {:induction false} ConcatLengths<A, B>(xs: seq<seq<A>>, ys: seq<seq<B>>, n: nat)
    requires |xs| == |ys| && n <= |xs| && forall k :: 0 <= k < |xs| ==> |xs[k]| == 1 + |ys[k]|
    ensures |Concat(xs[..n])| == n + |Concat(ys[..n])|
  {
    if n > 0 {
      ConcatLengths(xs, ys, n - 1);
      ConcatSnoc(xs, n);
      ConcatSnoc(ys, n);
    }
  }

  /** Permuting the input of Map permutes its output. */
  lemma {:induction false} MapPermutation<A, B>(f: A -> B, a: seq<A>, b: seq<A>)
    requires multiset(a) == multiset(b)
    ensures multiset(Map(f, a)) == multiset(Map(f, b))
    decreases |a|
  {
    if |a| > 0 {
      var n := |a| - 1;
      var x := a[n];
      assert x in multiset(b);
      var j :| 0 <= j < |b| && b[j] == x;
      var b' := b[..j] + b[j + 1..];
      assert b == b[..j] + [x] + b[j + 1..];
      assert a == a[..n] + [x];
      calc {
        multiset(a[..n]) + multiset{x};
        multiset(a);
        multiset(b);
        multiset(b[..j]) + multiset{x} + multiset(b[j + 1..]);
        multiset(b') + multiset{x};
      }
      assert multiset(a[..n]) == (multiset(a[..n]) + multiset{x}) - multiset{x};
      assert multiset(b') == (multiset(b') + multiset{x}) - multiset{x};
      MapPermutation(f, a[..n], b');
      MapConcat(f, a[..n], [x]);
      MapConcat(f, b[..j] + [x], b[j + 1..]);
      MapConcat(f, b[..j], [x]);
      MapConcat(f, b[..j], b[j + 1..]);
    }
  }

  /** No element repeats. */
  predicate Distinct<T(==)>(s: seq<T>)
  {
    forall p, q :: 0 <= p < q < |s| ==> s[p] != s[q]
  }

  /** In a sequence without repeats every element occurs exactly once. */
  lemma {:induction false} DistinctOnce<T>(s: seq<T>, x: T)
    requires Distinct(s)
    ensures multiset(s)[x] == if x in s then 1 else 0
    decreases |s|
  {
    if |s| > 0 {
      var n := |s| - 1;
      assert s == s[..n] + [s[n]];
      assert Distinct(s[..n]);
      DistinctOnce(s[..n], x);
      assert s[n] !in s[..n];
    }
  }

  /** s with every occurrence of x dropped, the rest in order. */
  function Others<T(==)>(s: seq<T>, x: T): (r: seq<T>)
  {
    if |s| == 0 then []
    else Others(s[..|s| - 1], x) + (if s[|s| - 1] == x then [] else [s[|s| - 1]])
  }

  lemma {:induction false} OthersAbsent<T>(s: seq<T>, x: T)
    requires x !in s
    ensures Others(s, x) == s
    decreases |s|
  {
    if |s| > 0 {
      OthersAbsent(s[..|s| - 1], x);
    }
  }

  /** An element present once, and the others, list s again. */
  lemma {:induction false} KeptAndOthers<T>(s: seq<T>, x: T)
    requires multiset(s)[x] == 1
    ensures multiset{x} + multiset(Others(s, x)) == multiset(s)
    decreases |s|
  {
    var n := |s| - 1;
    assert s == s[..n] + [s[n]];
    if s[n] == x {
      assert x !in multiset(s[..n]);
      OthersAbsent(s[..n], x);
    } else {
      KeptAndOthers(s[..n], x);
    }
  }

  lemma {:induction false} OthersFrom<T>(s: seq<T>, x: T)
    ensures forall k :: 0 <= k < |Others(s, x)| ==> Others(s, x)[k] in s && Others(s, x)[k] != x
    decreases |s|
  {
    if |s| > 0 {
      var n := |s| - 1;
      OthersFrom(s[..n], x);
      var o := Others(s, x);
      forall k | 0 <= k < |o| ensures o[k] in s && o[k] != x {
        if k < |Others(s[..n], x)| {
          assert o[k] in s[..n];
        }
      }
    }
  }

  lemma SingletonOthers<T>(s: seq<T>, x: T)
    requires |s| == 1 && x in s
    ensures Others(s, x) == []
  {
    assert s[..0] == [];
  }

  lemma OthersSnoc<T>(s: seq<T>, j: nat, x: T)
    requires j < |s|
    ensures Others(s[..j + 1], x) == Others(s[..j], x) + (if s[j] == x then [] else [s[j]])
  {
    assert s[..j + 1][..j] == s[..j];
  }

  /** The elements of s that pass the test, in order. */
  function Filter<T>(f: T -> bool, s: seq<T>): (r: seq<T>)
    ensures |r| <= |s|
  {
    if |s| == 0 then [] else Filter(f, s[..|s| - 1]) + (if f(s[|s| - 1]) then [s[|s| - 1]] else [])
  }

  lemma {:induction false} FilterMembers<T>(f: T -> bool, s: seq<T>, x: T)
    ensures x in Filter(f, s) <==> x in s && f(x)
    decreases |s|
  {
    if |s| > 0 {
      var n := |s| - 1;
      FilterMembers(f, s[..n], x);
      assert s == s[..n] + [s[n]];
    }
  }

  lemma FilterSnoc<T>(f: T -> bool, s: seq<T>, i: nat)
    requires i < |s|
    ensures Filter(f, s[..i + 1]) == Filter(f, s[..i]) + (if f(s[i]) then [s[i]] else [])
  {
    assert s[..i + 1][..i] == s[..i];
  }

  /** A subset is no larger than the set that holds it. */
  lemma {:induction false} SubsetSize<T>(a: set<T>, b: set<T>)
    requires a <= b
    ensures |a| <= |b|
    decreases b
  {
    if a != {} {
      var x :| x in a;
      SubsetSize(a - {x}, b - {x});
    }
  }
}
