/**
  Strict total orders and the lexicographic order on sequences.

  pandas sorts group keys and strings by Python's comparison operators. On
  strings that is the lexicographic order on code points, with a proper prefix
  smaller than the longer string; `Lex` states it once for any element order.
*/
module Order {

  ghost predicate Irreflexive<T(!new)>(less: (T, T) -> bool)
  {
    forall x :: !less(x, x)
  }

  ghost predicate Transitive<T(!new)>(less: (T, T) -> bool)
  {
    forall x, y, z :: less(x, y) && less(y, z) ==> less(x, z)
  }

  ghost predicate Trichotomous<T(!new)>(less: (T, T) -> bool)
  {
    forall x, y :: x != y ==> less(x, y) || less(y, x)
  }

  ghost predicate StrictTotalOrder<T(!new)>(less: (T, T) -> bool)
  {
    Irreflexive(less) && Transitive(less) && Trichotomous(less)
  }

  /** Lexicographic comparison: the first differing element decides, and a
      proper prefix comes first. */
  predicate Lex<T(==)>(a: seq<T>, b: seq<T>, less: (T, T) -> bool)
  {
    if |a| == 0 then |b| > 0
    else if |b| == 0 then false
    else less(a[0], b[0]) || (a[0] == b[0] && Lex(a[1..], b[1..], less))
  }

  lemma {:induction false} LexIrreflexive<T(!new)>(a: seq<T>, less: (T, T) -> bool)
    requires Irreflexive(less)
    ensures !Lex(a, a, less)
  {
    if |a| > 0 {
      LexIrreflexive(a[1..], less);
    }
  }

  lemma {:induction false} LexTransitive<T(!new)>(a: seq<T>, b: seq<T>, c: seq<T>, less: (T, T) -> bool)
    requires Transitive(less)
    requires Lex(a, b, less) && Lex(b, c, less)
    ensures Lex(a, c, less)
  {
    if |a| > 0 && |b| > 0 && |c| > 0 && a[0] == b[0] && b[0] == c[0]
       && Lex(a[1..], b[1..], less) && Lex(b[1..], c[1..], less)
    {
      LexTransitive(a[1..], b[1..], c[1..], less);
    }
  }

  lemma {:induction false} LexTrichotomous<T(!new)>(a: seq<T>, b: seq<T>, less: (T, T) -> bool)
    requires Trichotomous(less)
    requires a != b
    ensures Lex(a, b, less) || Lex(b, a, less)
  {
    if |a| > 0 && |b| > 0 && a[0] == b[0] {
      assert a == [a[0]] + a[1..] && b == [b[0]] + b[1..];
      LexTrichotomous(a[1..], b[1..], less);
    }
  }

  /** The lexicographic extension of a strict total order is a strict total order. */
  lemma LexStrictTotal<T(!new)>(less: (T, T) -> bool)
    requires StrictTotalOrder(less)
    ensures forall a: seq<T> :: !Lex(a, a, less)
    ensures forall a: seq<T>, b, c :: Lex(a, b, less) && Lex(b, c, less) ==> Lex(a, c, less)
    ensures forall a: seq<T>, b :: a != b ==> Lex(a, b, less) || Lex(b, a, less)
  {
    forall a: seq<T> ensures !Lex(a, a, less) {
      LexIrreflexive(a, less);
    }
    forall a: seq<T>, b, c | Lex(a, b, less) && Lex(b, c, less) ensures Lex(a, c, less) {
      LexTransitive(a, b, c, less);
    }
    forall a: seq<T>, b | a != b ensures Lex(a, b, less) || Lex(b, a, less) {
      LexTrichotomous(a, b, less);
    }
  }

  predicate CharLess(a: char, b: char)
  {
    a < b
  }

  /** Python's `<` on str: code-point lexicographic order. */
  predicate StrLess(a: string, b: string)
  {
    Lex(a, b, CharLess)
  }

  lemma StrLessStrictTotal()
    ensures StrictTotalOrder(StrLess)
  {
    LexStrictTotal(CharLess);
  }

  /** Every pair of positions is in order. For a strict order this also makes
      the elements pairwise distinct. */
  ghost predicate StrictlySorted<T>(s: seq<T>, less: (T, T) -> bool)
  {
    forall i, j :: 0 <= i < j < |s| ==> less(s[i], s[j])
  }

  lemma Witness<T>(s: seq<T>) returns (x: T)
    requires |s| > 0
    ensures x in s
  {
    x := s[0];
  }

  lemma FirstIsLeast<T>(s: seq<T>, x: T, less: (T, T) -> bool)
    requires StrictlySorted(s, less)
    requires x in s
    ensures x == s[0] || less(s[0], x)
  {
  }

  /** Two strictly sorted sequences holding the same elements are equal: the
      order alone fixes the layout of a set. */
  lemma {:induction false} StrictlySortedUnique<T(!new)>(a: seq<T>, b: seq<T>, less: (T, T) -> bool)
    requires Irreflexive(less) && Transitive(less)
    requires StrictlySorted(a, less) && StrictlySorted(b, less)
    requires forall x :: x in a <==> x in b
    ensures a == b
  {
    if |a| == 0 {
      if |b| > 0 {
        var x := Witness(b);
        assert false;
      }
    } else {
      assert a[0] in a;
      if a[0] != b[0] {
        FirstIsLeast(a, b[0], less);
        FirstIsLeast(b, a[0], less);
        assert false;
      }
      forall x ensures x in a[1..] <==> x in b[1..] {
        if x in a[1..] {
          var i :| 1 <= i < |a| && a[i] == x;
          assert less(a[0], x);
          assert x != b[0];
          assert x in b;
        }
        if x in b[1..] {
          var j :| 1 <= j < |b| && b[j] == x;
          assert less(b[0], x);
          assert x != a[0];
          assert x in a;
        }
      }
      StrictlySortedUnique(a[1..], b[1..], less);
      assert a == [a[0]] + a[1..];
      assert b == [b[0]] + b[1..];
    }
  }

  /** Inserts `x` into a strictly sorted sequence, leaving it unchanged when
      `x` is already present. */
  function Insert<T(==,!new)>(s: seq<T>, x: T, less: (T, T) -> bool): (r: seq<T>)
    requires StrictTotalOrder(less)
    requires StrictlySorted(s, less)
    ensures StrictlySorted(r, less)
    ensures forall y :: y in r <==> y in s || y == x
  {
    if |s| == 0 then [x]
    else if x == s[0] then s
    else if less(x, s[0]) then [x] + s
    else
      var rest := Insert(s[1..], x, less);
      assert forall y :: y in rest ==> less(s[0], y) by {
        forall y | y in rest ensures less(s[0], y) {
          if y != x {
            var i :| 1 <= i < |s| && s[i] == y;
          }
        }
      }
      [s[0]] + rest
  }

  /** The distinct elements of `s` in ascending order (what `groupby` with its
      default `sort=True` uses as group keys). */
  function SortedSet<T(==,!new)>(s: seq<T>, less: (T, T) -> bool): (r: seq<T>)
    requires StrictTotalOrder(less)
    ensures StrictlySorted(r, less)
    ensures forall y :: y in r <==> y in s
  {
    if |s| == 0 then []
    else
      var r := Insert(SortedSet(s[..|s| - 1], less), s[|s| - 1], less);
      assert s == s[..|s| - 1] + [s[|s| - 1]];
      r
  }
}
