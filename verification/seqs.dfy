/**
  Order-preserving filters, subsequences and first-occurrence deduplication on
  sequences: the shapes that a boolean mask (`df[mask]`) and `Series.unique()`
  take once a table is an ordered sequence of rows.
*/
module Seqs {

  /** `a` is `b` with some elements left out and the rest in their original order. */
  predicate Subseq<T(==,!new)>(a: seq<T>, b: seq<T>)
    decreases |b|
  {
    if |a| == 0 then true
    else if |b| == 0 then false
    else (a[0] == b[0] && Subseq(a[1..], b[1..])) || Subseq(a, b[1..])
  }

  ghost predicate Distinct<T>(s: seq<T>)
  {
    forall i, j :: 0 <= i < j < |s| ==> s[i] != s[j]
  }

  /** A subsequence of a sequence without repeats has none either. */
  lemma {:induction false} SubseqDistinct<T(!new)>(a: seq<T>, b: seq<T>)
    requires Subseq(a, b) && Distinct(b)
    ensures Distinct(a)
    ensures forall x :: x in a ==> x in b
    decreases |b|
  {
    if |a| > 0 {
      assert |b| > 0;
      if a[0] == b[0] && Subseq(a[1..], b[1..]) {
        SubseqDistinct(a[1..], b[1..]);
        assert forall x :: x in a[1..] ==> x in b[1..];
        assert a[0] !in b[1..];
        assert a == [a[0]] + a[1..];
      } else {
        SubseqDistinct(a, b[1..]);
      }
    }
  }

  /** Keeps the elements satisfying `p`, in their order, each as often as it
      occurs in `s`: what indexing a table with a boolean mask does. */
  function Filter<T(==,!new)>(s: seq<T>, p: T -> bool): (r: seq<T>)
    ensures |r| <= |s|
    ensures forall i :: 0 <= i < |r| ==> p(r[i])
    ensures forall x :: x in r <==> x in s && p(x)
    ensures forall x :: multiset(r)[x] == if p(x) then multiset(s)[x] else 0
  {
    if |s| == 0 then []
    else
      var rest := Filter(s[1..], p);
      assert s == [s[0]] + s[1..];
      if p(s[0]) then [s[0]] + rest else rest
  }

  lemma {:induction false} FilterIsSubseq<T(!new)>(s: seq<T>, p: T -> bool)
    ensures Subseq(Filter(s, p), s)
  {
    if |s| > 0 {
      FilterIsSubseq(s[1..], p);
      if !p(s[0]) {
        SubseqDropHead(Filter(s[1..], p), s);
      }
    }
  }

  lemma SubseqDropHead<T(!new)>(a: seq<T>, b: seq<T>)
    requires |b| > 0 && Subseq(a, b[1..])
    ensures Subseq(a, b)
  {
  }

  /** A mask that holds on every row keeps the whole table, and only such a
      mask does. */
  lemma FilterKeepsAll<T(!new)>(s: seq<T>, p: T -> bool)
    ensures Filter(s, p) == s <==> forall i :: 0 <= i < |s| ==> p(s[i])
  {
    if forall i :: 0 <= i < |s| ==> p(s[i]) {
      FilterAll(s, p);
    }
  }

  lemma {:induction false} FilterAll<T(!new)>(s: seq<T>, p: T -> bool)
    requires forall i :: 0 <= i < |s| ==> p(s[i])
    ensures Filter(s, p) == s
  {
    if |s| > 0 {
      assert forall i :: 0 <= i < |s[1..]| ==> p(s[1..][i]) by {
        forall i | 0 <= i < |s[1..]| ensures p(s[1..][i]) {
          assert s[1..][i] == s[i + 1];
        }
      }
      FilterAll(s[1..], p);
      assert p(s[0]);
      assert s == [s[0]] + s[1..];
    }
  }

  /** A mask keeps every row exactly when it holds on every row, and keeps
      none exactly when it holds on none. */
  lemma FilterCount<T(!new)>(s: seq<T>, p: T -> bool)
    ensures |Filter(s, p)| == |s| <==> forall i :: 0 <= i < |s| ==> p(s[i])
    ensures |Filter(s, p)| == 0 <==> forall i :: 0 <= i < |s| ==> !p(s[i])
  {
    FilterKeepsAll(s, p);
    if |Filter(s, p)| == |s| {
      FilterIsSubseq(s, p);
      SubseqSameLength(Filter(s, p), s);
    }
    if |Filter(s, p)| == 0 {
      forall i | 0 <= i < |s| ensures !p(s[i]) {
        assert s[i] in s;
      }
    } else {
      var x := Filter(s, p)[0];
      assert x in Filter(s, p);
    }
  }

  lemma {:induction false} SubseqSameLength<T(!new)>(a: seq<T>, b: seq<T>)
    requires Subseq(a, b) && |a| == |b|
    ensures a == b
    decreases |b|
  {
    if |a| > 0 {
      if a[0] == b[0] && Subseq(a[1..], b[1..]) {
        SubseqSameLength(a[1..], b[1..]);
        assert a == [a[0]] + a[1..];
        assert b == [b[0]] + b[1..];
      } else {
        SubseqLength(a, b[1..]);
        assert false;
      }
    }
  }

  lemma {:induction false} SubseqLength<T(!new)>(a: seq<T>, b: seq<T>)
    requires Subseq(a, b)
    ensures |a| <= |b|
    decreases |b|
  {
    if |a| > 0 {
      if a[0] == b[0] && Subseq(a[1..], b[1..]) {
        SubseqLength(a[1..], b[1..]);
      } else {
        SubseqLength(a, b[1..]);
      }
    }
  }

  /** Two masks applied one after the other keep what their conjunction keeps. */
  lemma {:induction false} FilterFilter<T(!new)>(s: seq<T>, p: T -> bool, q: T -> bool, pq: T -> bool)
    requires forall x :: pq(x) == (p(x) && q(x))
    ensures Filter(Filter(s, p), q) == Filter(s, pq)
  {
    if |s| > 0 {
      FilterFilter(s[1..], p, q, pq);
    }
  }

  /** `f` applied to every element, in order. */
  function Map<A, B>(s: seq<A>, f: A --> B): (r: seq<B>)
    requires forall x :: x in s ==> f.requires(x)
    ensures |r| == |s|
    ensures forall i :: 0 <= i < |s| ==> r[i] == f(s[i])
  {
    seq(|s|, i requires 0 <= i < |s| => f(s[i]))
  }

  /** Filtering after a map is mapping after the filter, when the two
      predicates agree through `f`. */
  lemma {:induction false} FilterMap<A(!new), B(!new)>(s: seq<A>, f: A --> B, p: A -> bool, q: B -> bool)
    requires forall x :: x in s ==> f.requires(x)
    requires forall x :: x in s ==> (q(f(x)) <==> p(x))
    ensures Filter(Map(s, f), q) == Map(Filter(s, p), f)
  {
    if |s| > 0 {
      var m := Map(s, f);
      MapTail(s, f);
      FilterMap(s[1..], f, p, q);
      assert s[0] in s;
      var rest := Filter(s[1..], p);
      if p(s[0]) {
        assert Filter(m, q) == [m[0]] + Filter(m[1..], q);
        assert Filter(s, p) == [s[0]] + rest;
        MapCons(s[0], rest, f);
      } else {
        assert Filter(m, q) == Filter(m[1..], q);
        assert Filter(s, p) == rest;
      }
    }
  }

  lemma MapTail<A, B>(s: seq<A>, f: A --> B)
    requires |s| > 0 && forall x :: x in s ==> f.requires(x)
    ensures Map(s, f)[1..] == Map(s[1..], f)
  {
  }

  lemma MapCons<A, B>(x: A, s: seq<A>, f: A --> B)
    requires f.requires(x) && forall y :: y in s ==> f.requires(y)
    ensures Map([x] + s, f) == [f(x)] + Map(s, f)
  {
  }

  /** Position of the first occurrence of `x`. */
  function FirstIndex<T(==,!new)>(s: seq<T>, x: T): (i: nat)
    requires x in s
    ensures i < |s| && s[i] == x
    ensures forall k :: 0 <= k < i ==> s[k] != x
  {
    if s[0] == x then 0 else 1 + FirstIndex(s[1..], x)
  }

  lemma {:induction false} FirstIndexCharacterized<T(!new)>(s: seq<T>, x: T, n: nat)
    requires n < |s| && s[n] == x
    requires forall k :: 0 <= k < n ==> s[k] != x
    ensures FirstIndex(s, x) == n
  {
    if n > 0 {
      FirstIndexCharacterized(s[1..], x, n - 1);
    }
  }

  /** The distinct elements of `s`, each where it first occurs (what
      `Series.unique()` returns). */
  function Unique<T(==,!new)>(s: seq<T>): (r: seq<T>)
    ensures Distinct(r)
    ensures forall x :: x in r <==> x in s
  {
    if |s| == 0 then []
    else
      var u := Unique(s[..|s| - 1]);
      assert s == s[..|s| - 1] + [s[|s| - 1]];
      if s[|s| - 1] in u then u else u + [s[|s| - 1]]
  }

  lemma FirstIndexPrefix<T(!new)>(s: seq<T>, x: T)
    requires |s| > 0 && x in s[..|s| - 1]
    ensures FirstIndex(s, x) == FirstIndex(s[..|s| - 1], x)
  {
    var init := s[..|s| - 1];
    var n := FirstIndex(init, x);
    assert forall k :: 0 <= k < n ==> s[k] == init[k];
    FirstIndexCharacterized(s, x, n);
  }

  /** `Unique` lists each value once, in the order of first appearance. */
  lemma {:induction false} UniqueFirstAppearanceOrder<T(!new)>(s: seq<T>)
    ensures forall i, j :: 0 <= i < j < |Unique(s)| ==>
      FirstIndex(s, Unique(s)[i]) < FirstIndex(s, Unique(s)[j])
  {
    if |s| > 0 {
      var init := s[..|s| - 1];
      var last := s[|s| - 1];
      UniqueFirstAppearanceOrder(init);
      var u := Unique(init);
      forall x | x in u ensures FirstIndex(s, x) == FirstIndex(init, x) < |s| - 1 {
        FirstIndexPrefix(s, x);
      }
      if last !in u {
        assert last !in init;
        assert FirstIndex(s, last) == |s| - 1;
      }
    }
  }

  /** Each value of `s` occurs exactly once in `Unique(s)`. */
  lemma UniqueOnce<T(!new)>(s: seq<T>, x: T)
    requires x in s
    ensures multiset(Unique(s))[x] == 1
  {
    DistinctCount(Unique(s), x);
  }

  lemma {:induction false} DistinctCount<T(!new)>(s: seq<T>, x: T)
    requires Distinct(s) && x in s
    ensures multiset(s)[x] == 1
  {
    assert s == [s[0]] + s[1..];
    if s[0] == x {
      assert x !in s[1..];
    } else {
      DistinctCount(s[1..], x);
    }
  }

  /** A value at two positions occurs at least twice. */
  lemma RepeatCount<T>(s: seq<T>, i: int, j: int)
    requires 0 <= i < j < |s| && s[i] == s[j]
    ensures multiset(s)[s[i]] >= 2
  {
    assert s == s[..j] + s[j..];
    assert s[i] in s[..j] && s[j] in s[j..];
  }

  /** Taking elements of a sequence without repeats, none more often than it
      occurs there, gives a sequence without repeats. */
  lemma SubMultisetDistinct<T(!new)>(a: seq<T>, b: seq<T>)
    requires multiset(a) <= multiset(b) && Distinct(b)
    ensures Distinct(a)
  {
    forall i, j | 0 <= i < j < |a| ensures a[i] != a[j] {
      if a[i] == a[j] {
        RepeatCount(a, i, j);
        assert a[i] in multiset(b);
        DistinctCount(b, a[i]);
      }
    }
  }

  /** A sequence without repeats is its own `Unique`, and only such a one. */
  lemma {:induction false} UniqueOfDistinct<T(!new)>(s: seq<T>)
    ensures Unique(s) == s <==> Distinct(s)
  {
    if |s| > 0 {
      var init := s[..|s| - 1];
      UniqueOfDistinct(init);
      if Distinct(s) {
        assert Distinct(init);
        assert s[|s| - 1] !in init;
        assert s == init + [s[|s| - 1]];
      } else if Unique(s) == s {
        assert false;
      }
    }
  }
}
