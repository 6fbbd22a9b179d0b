/**
  `groupby(keys).size()` and the "largest n groups" ranking
  (`sort_values('Quantidade', ascending=False).head(n)`).

  pandas groups with `dropna=True` and `sort=True` by default: a row whose key
  has a missing part is in no group, and the groups come in ascending key
  order. The ranking's order among equal sizes is left open (the default sort
  is not stable); `TopN` states what every admissible ranking satisfies and
  computes one of them.
*/
module Grouping {
  import opened Order
  import opened Seqs
  import opened Frames

  /** One line of a `size()` table: a key and the number of rows carrying it. */
  datatype Group = Group(key: Key, size: nat)

  /** A key with no missing part, i.e. one that `groupby` does not drop. */
  predicate Complete(k: Key)
  {
    Null !in k
  }

  function GroupSizes(keys: seq<Key>): (gs: seq<Group>)
    ensures forall i, j :: 0 <= i < j < |gs| ==> KeyLess(gs[i].key, gs[j].key)
    ensures forall i :: 0 <= i < |gs| ==> gs[i].key in keys && Complete(gs[i].key)
    ensures forall k :: k in keys && Complete(k) ==> exists i :: 0 <= i < |gs| && gs[i].key == k
    ensures forall i :: 0 <= i < |gs| ==> gs[i].size == multiset(keys)[gs[i].key] > 0
  {
    KeyLessStrictTotal();
    var ks := SortedSet(Filter(keys, Complete), KeyLess);
    SizesOf(ks, keys)
  }

  /** Pairs each key with its number of occurrences. */
  function SizesOf(ks: seq<Key>, keys: seq<Key>): (gs: seq<Group>)
    ensures |gs| == |ks|
    ensures forall i :: 0 <= i < |gs| ==> gs[i].key == ks[i] && gs[i].size == multiset(keys)[ks[i]]
  {
    seq(|ks|, i requires 0 <= i < |ks| => Group(ks[i], multiset(keys)[ks[i]]))
  }

  function SumSizes(gs: seq<Group>): nat
  {
    if |gs| == 0 then 0 else gs[0].size + SumSizes(gs[1..])
  }

  /** Sum over the distinct keys `ks` of how often each occurs in `s`. */
  function CountOver(ks: seq<Key>, s: seq<Key>): nat
  {
    if |ks| == 0 then 0 else multiset(s)[ks[0]] + CountOver(ks[1..], s)
  }

  lemma {:induction false} CountOverAppend(ks: seq<Key>, s: seq<Key>, x: Key)
    requires Distinct(ks)
    ensures CountOver(ks, s + [x]) == CountOver(ks, s) + (if x in ks then 1 else 0)
  {
    if |ks| > 0 {
      CountOverAppend(ks[1..], s, x);
      assert x in ks <==> x == ks[0] || x in ks[1..];
      assert ks[0] !in ks[1..];
    }
  }

  /** Counting each of a set of distinct keys, when every element of `s`
      is one of them, counts all of `s`. */
  lemma {:induction false} CountOverAll(ks: seq<Key>, s: seq<Key>)
    requires Distinct(ks)
    requires forall x :: x in s ==> x in ks
    ensures CountOver(ks, s) == |s|
  {
    if |s| == 0 {
      CountOverEmpty(ks, s);
    } else {
      var init := s[..|s| - 1];
      assert s == init + [s[|s| - 1]];
      CountOverAll(ks, init);
      CountOverAppend(ks, init, s[|s| - 1]);
    }
  }

  lemma {:induction false} CountOverEmpty(ks: seq<Key>, s: seq<Key>)
    requires |s| == 0
    ensures CountOver(ks, s) == 0
  {
    if |ks| > 0 {
      CountOverEmpty(ks[1..], s);
    }
  }

  lemma {:induction false} SumSizesCountOver(gs: seq<Group>, keys: seq<Key>, s: seq<Key>)
    requires forall i :: 0 <= i < |gs| ==> gs[i].size == multiset(keys)[gs[i].key]
    requires forall i :: 0 <= i < |gs| ==> multiset(keys)[gs[i].key] == multiset(s)[gs[i].key]
    ensures SumSizes(gs) == CountOver(KeysOfGroups(gs), s)
  {
    if |gs| > 0 {
      var ks := KeysOfGroups(gs);
      SumSizesCountOver(gs[1..], keys, s);
      assert ks[1..] == KeysOfGroups(gs[1..]);
    }
  }

  /** Every row with a complete key is counted in exactly one group. */
  lemma GroupSizesTotal(keys: seq<Key>)
    ensures SumSizes(GroupSizes(keys)) == |Filter(keys, Complete)|
  {
    var gs := GroupSizes(keys);
    var complete := Filter(keys, Complete);
    var ks := KeysOfGroups(gs);
    SortedKeysDistinct(gs);
    GroupsCoverComplete(keys, gs);
    SumSizesCountOver(gs, keys, complete);
    CountOverAll(ks, complete);
  }

  function KeysOfGroups(gs: seq<Group>): (ks: seq<Key>)
    ensures |ks| == |gs| && forall i :: 0 <= i < |gs| ==> ks[i] == gs[i].key
  {
    seq(|gs|, i requires 0 <= i < |gs| => gs[i].key)
  }

  lemma SortedKeysDistinct(gs: seq<Group>)
    requires forall i, j :: 0 <= i < j < |gs| ==> KeyLess(gs[i].key, gs[j].key)
    ensures Distinct(KeysOfGroups(gs))
  {
    var ks := KeysOfGroups(gs);
    KeyLessStrictTotal();
    forall i, j | 0 <= i < j < |ks| ensures ks[i] != ks[j] {
      assert KeyLess(ks[i], ks[j]);
    }
  }

  lemma GroupsCoverComplete(keys: seq<Key>, gs: seq<Group>)
    requires forall k :: k in keys && Complete(k) ==> exists i :: 0 <= i < |gs| && gs[i].key == k
    ensures forall x :: x in Filter(keys, Complete) ==> x in KeysOfGroups(gs)
  {
    var ks := KeysOfGroups(gs);
    forall x | x in Filter(keys, Complete) ensures x in ks {
      var i :| 0 <= i < |gs| && gs[i].key == x;
      assert ks[i] == x;
    }
  }

  /** Groups with distinct keys are distinct groups, and a top-n ranking of
      them (a sub-multiset) again has distinct keys. */
  lemma TopNDistinctKeys(gs: seq<Group>, n: nat)
    requires Distinct(KeysOfGroups(gs))
    ensures Distinct(KeysOfGroups(TopN(gs, n)))
  {
    var top := TopN(gs, n);
    var ks := KeysOfGroups(gs);
    assert Distinct(gs) by {
      forall a, b | 0 <= a < b < |gs| ensures gs[a] != gs[b] {
        assert ks[a] != ks[b];
      }
    }
    SubMultisetDistinct(top, gs);
    var tks := KeysOfGroups(top);
    forall i, j | 0 <= i < j < |top| ensures tks[i] != tks[j] {
      assert top[i] in multiset(gs) && top[j] in multiset(gs);
      var a :| 0 <= a < |gs| && gs[a] == top[i];
      var b :| 0 <= b < |gs| && gs[b] == top[j];
      assert ks[a] == top[i].key && ks[b] == top[j].key;
    }
  }

  ghost predicate NonIncreasing(gs: seq<Group>)
  {
    forall i, j :: 0 <= i < j < |gs| ==> gs[i].size >= gs[j].size
  }

  /** Places `g` after every group at least as large and before the first
      smaller one. */
  function InsertBySize(s: seq<Group>, g: Group): (r: seq<Group>)
    requires NonIncreasing(s)
    ensures NonIncreasing(r)
    ensures multiset(r) == multiset(s) + multiset{g}
  {
    if |s| == 0 then [g]
    else if g.size > s[0].size then
      ConsNonIncreasing(g, s);
      [g] + s
    else
      TailNonIncreasing(s);
      var rest := InsertBySize(s[1..], g);
      InsertBehind(s, g, rest);
      [s[0]] + rest
  }

  lemma TailNonIncreasing(s: seq<Group>)
    requires |s| > 0 && NonIncreasing(s)
    ensures NonIncreasing(s[1..])
  {
    forall i, j | 0 <= i < j < |s[1..]| ensures s[1..][i].size >= s[1..][j].size {
      assert s[1..][i] == s[i + 1] && s[1..][j] == s[j + 1];
    }
  }

  /** Inserting behind the head keeps the order when `g` is no larger than it. */
  lemma InsertBehind(s: seq<Group>, g: Group, rest: seq<Group>)
    requires |s| > 0 && NonIncreasing(s) && g.size <= s[0].size
    requires NonIncreasing(rest) && multiset(rest) == multiset(s[1..]) + multiset{g}
    ensures NonIncreasing([s[0]] + rest)
    ensures multiset([s[0]] + rest) == multiset(s) + multiset{g}
  {
    assert s == [s[0]] + s[1..];
    InsertedFrom(rest, s[1..], g);
    ConsNonIncreasing(s[0], rest);
    assert multiset([s[0]] + rest) == multiset{s[0]} + multiset(rest);
  }

  lemma ConsNonIncreasing(x: Group, s: seq<Group>)
    requires NonIncreasing(s)
    requires forall y :: y in s ==> y.size <= x.size
    ensures NonIncreasing([x] + s)
  {
    var r := [x] + s;
    forall i, j | 0 <= i < j < |r| ensures r[i].size >= r[j].size {
      assert r[j] == s[j - 1];
      if i > 0 {
        assert r[i] == s[i - 1];
      }
    }
  }

  lemma InsertedFrom(rest: seq<Group>, s: seq<Group>, g: Group)
    requires multiset(rest) == multiset(s) + multiset{g}
    ensures forall x :: x in rest ==> x in s || x == g
  {
    forall x | x in rest ensures x in s || x == g {
      assert x in multiset(rest);
    }
  }

  /** Groups by decreasing size (an insertion sort, keeping equal sizes in
      their original order). */
  function SortBySizeDesc(gs: seq<Group>): (r: seq<Group>)
    ensures NonIncreasing(r)
    ensures multiset(r) == multiset(gs)
  {
    if |gs| == 0 then []
    else
      assert gs == gs[..|gs| - 1] + [gs[|gs| - 1]];
      InsertBySize(SortBySizeDesc(gs[..|gs| - 1]), gs[|gs| - 1])
  }

  function Min(a: int, b: int): int
  {
    if a <= b then a else b
  }

  lemma PrefixOfSorted(sorted: seq<Group>, m: nat)
    requires NonIncreasing(sorted) && m <= |sorted|
    ensures multiset(sorted[..m]) <= multiset(sorted)
    ensures NonIncreasing(sorted[..m])
    ensures forall g :: g in sorted && g !in sorted[..m] ==>
      m < |sorted| && forall t :: t in sorted[..m] ==> g.size <= t.size
  {
    assert sorted == sorted[..m] + sorted[m..];
    assert multiset(sorted) == multiset(sorted[..m]) + multiset(sorted[m..]);
    forall g | g in sorted && g !in sorted[..m]
      ensures m < |sorted| && forall t :: t in sorted[..m] ==> g.size <= t.size
    {
      var j :| 0 <= j < |sorted| && sorted[j] == g;
      assert j >= m;
      forall t | t in sorted[..m] ensures g.size <= t.size {
        var i :| 0 <= i < m && sorted[i] == t;
      }
    }
  }

  /** The `n` largest groups, largest first: at most `n` of them, each one of
      the input groups with its true size, and no group left out is larger
      than one kept. */
  function TopN(gs: seq<Group>, n: nat): (top: seq<Group>)
    ensures |top| == Min(n, |gs|) && |top| <= n
    ensures multiset(top) <= multiset(gs)
    ensures NonIncreasing(top)
    ensures forall g :: g in gs && g !in top ==>
      |top| == n && forall t :: t in top ==> g.size <= t.size
  {
    var sorted := SortBySizeDesc(gs);
    var m := Min(n, |sorted|);
    PrefixOfSorted(sorted, m);
    assert forall g :: g in gs ==> g in sorted by {
      forall g | g in gs ensures g in sorted {
        assert g in multiset(gs);
      }
    }
    sorted[..m]
  }
}
