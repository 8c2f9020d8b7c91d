/**
 * Whole-column selection on tables, as pandas does it: a boolean mask chooses
 * which rows of a frame survive (`df[mask]`), in their original order.
 * Filtering by a row predicate and dropping duplicate keys are both masks.
 */
module Seqs {

  /** Concatenation regroups freely. */
  lemma AppendAssoc<T>(a: seq<T>, b: seq<T>, c: seq<T>)
    ensures a + b + c == a + (b + c)
  {
  }

  /** The rows of `s` whose mask bit is set, in order: pandas' `df[mask]`. */
  function Select<T>(s: seq<T>, mask: seq<bool>): (r: seq<T>)
    requires |mask| == |s|
    ensures |r| <= |s|
  {
    if s == [] then []
    else Select(s[..|s| - 1], mask[..|s| - 1]) + (if mask[|s| - 1] then [s[|s| - 1]] else [])
  }

  /** `a` is `s` with some elements removed and the rest left in order. */
  ghost predicate IsSubsequence<T>(a: seq<T>, s: seq<T>) {
    exists mask: seq<bool> :: |mask| == |s| && Select(s, mask) == a
  }

  /** The column of values `f` gives to each row of `s`. */
  function Column<T, K>(s: seq<T>, f: T -> K): (c: seq<K>)
    ensures |c| == |s| && forall i :: 0 <= i < |s| ==> c[i] == f(s[i])
  {
    seq(|s|, i requires 0 <= i < |s| => f(s[i]))
  }

  /** Pairwise distinct elements. */
  predicate Distinct<K(==)>(s: seq<K>) {
    forall i, j :: 0 <= i < j < |s| ==> s[i] != s[j]
  }

  /** A new value in front of distinct values keeps them distinct. */
  lemma DistinctCons<K>(x: K, s: seq<K>)
    ensures Distinct(s) && x !in s ==> Distinct([x] + s)
  {
    if Distinct(s) && x !in s {
      var r := [x] + s;
      forall i, j | 0 <= i < j < |r|
        ensures r[i] != r[j]
      {
        assert r[j] == s[j - 1];
      }
    }
  }

  lemma SelectSnoc<T>(s: seq<T>, mask: seq<bool>, x: T, b: bool)
    requires |mask| == |s|
    ensures Select(s + [x], mask + [b]) == Select(s, mask) + (if b then [x] else [])
  {
    assert (s + [x])[..|s|] == s;
    assert (mask + [b])[..|s|] == mask;
  }

  /** Every selected element sits at a set position of the mask, and vice versa. */
  lemma {:induction false} SelectMembers<T>(s: seq<T>, mask: seq<bool>)
    requires |mask| == |s|
    ensures forall x :: x in Select(s, mask) ==> exists i :: 0 <= i < |s| && mask[i] && s[i] == x
    ensures forall i :: 0 <= i < |s| && mask[i] ==> s[i] in Select(s, mask)
  {
    if s != [] {
      var n := |s| - 1;
      SelectMembers(s[..n], mask[..n]);
      assert s == s[..n] + [s[n]];
    }
  }

  /** Selecting with an all-true mask keeps everything. */
  lemma {:induction false} SelectAll<T>(s: seq<T>, mask: seq<bool>)
    requires |mask| == |s| && forall i :: 0 <= i < |s| ==> mask[i]
    ensures Select(s, mask) == s
  {
    if s != [] {
      var n := |s| - 1;
      SelectAll(s[..n], mask[..n]);
      assert s == s[..n] + [s[n]];
    }
  }

  /**
   * The rows satisfying `p`, in order: `df[p(df)]`, where the mask
   * `Column(s, p)` is `df[col].notna()` or `df[col] > 0`. Exactly the rows that
   * satisfy `p` are kept, and what is kept is a subsequence of the input;
   * `FilterMultiplicity` adds that each is kept as often as it occurs.
   */
  function Filter<T(==)>(s: seq<T>, p: T -> bool): (r: seq<T>)
    ensures IsSubsequence(r, s)
    ensures forall x :: x in r ==> x in s && p(x)
    ensures forall i :: 0 <= i < |s| && p(s[i]) ==> s[i] in r
  {
    SelectMembers(s, Column(s, p));
    Select(s, Column(s, p))
  }

  lemma FilterSnoc<T>(s: seq<T>, x: T, p: T -> bool)
    ensures Filter(s + [x], p) == Filter(s, p) + (if p(x) then [x] else [])
  {
    assert Column(s + [x], p) == Column(s, p) + [p(x)];
    SelectSnoc(s, Column(s, p), x, p(x));
  }

  /**
   * A mask keeps every copy of a row that passes it and no copy of one that
   * does not, so the number of rows kept is the number that pass.
   */
  lemma {:induction false} FilterMultiplicity<T>(s: seq<T>, p: T -> bool)
    ensures forall x :: multiset(Filter(s, p))[x] == (if p(x) then multiset(s)[x] else 0)
    decreases |s|
  {
    if s != [] {
      var n := |s| - 1;
      var init, last := s[..n], s[n];
      assert s == init + [last];
      FilterMultiplicity(init, p);
      FilterSnoc(init, last, p);
    }
  }

  /** The predicate that holds where both `p` and `q` hold. */
  function Both<T>(p: T -> bool, q: T -> bool): T -> bool {
    x => p(x) && q(x)
  }

  /** Two masks applied one after the other keep what their conjunction keeps. */
  lemma {:induction false} FilterFilter<T>(s: seq<T>, p: T -> bool, q: T -> bool)
    ensures Filter(Filter(s, p), q) == Filter(s, Both(p, q))
  {
    if s != [] {
      var n := |s| - 1;
      var init, x := s[..n], s[n];
      assert s == init + [x];
      FilterFilter(init, p, q);
      FilterSnoc(init, x, p);
      FilterSnoc(init, x, Both(p, q));
      if p(x) {
        FilterSnoc(Filter(init, p), x, q);
      } else {
        assert Filter(s, p) == Filter(init, p);
        assert Filter(s, Both(p, q)) == Filter(init, Both(p, q));
      }
    }
  }

  /** A mask that every row passes changes nothing. */
  lemma FilterAll<T>(s: seq<T>, p: T -> bool)
    requires forall i :: 0 <= i < |s| ==> p(s[i])
    ensures Filter(s, p) == s
  {
    SelectAll(s, Column(s, p));
  }

  /** A mask that no row passes keeps nothing. */
  lemma {:induction false} FilterNone<T>(s: seq<T>, p: T -> bool)
    requires forall i :: 0 <= i < |s| ==> !p(s[i])
    ensures Filter(s, p) == []
  {
    if s != [] {
      var n := |s| - 1;
      assert s == s[..n] + [s[n]];
      FilterNone(s[..n], p);
      FilterSnoc(s[..n], s[n], p);
    }
  }

  /**
   * pandas' `duplicated(keep="first")` negated: row i survives when no
   * earlier row has the same key.
   */
  function FirstOccurrenceMask<T, K(==)>(s: seq<T>, key: T -> K): (m: seq<bool>)
    ensures |m| == |s|
    ensures forall i :: 0 <= i < |s| ==> (m[i] <==> key(s[i]) !in Column(s[..i], key))
  {
    seq(|s|, i requires 0 <= i < |s| => key(s[i]) !in Column(s[..i], key))
  }

  /** `drop_duplicates(subset=[key], keep="first")`. */
  function DropDuplicates<T, K(==)>(s: seq<T>, key: T -> K): (r: seq<T>)
    ensures IsSubsequence(r, s)
  {
    Select(s, FirstOccurrenceMask(s, key))
  }

  lemma DropDuplicatesSnoc<T, K>(s: seq<T>, x: T, key: T -> K)
    ensures DropDuplicates(s + [x], key)
         == DropDuplicates(s, key) + (if key(x) in Column(s, key) then [] else [x])
  {
    var m := FirstOccurrenceMask(s + [x], key);
    forall i | 0 <= i < |s|
      ensures m[i] == FirstOccurrenceMask(s, key)[i]
    {
      assert (s + [x])[..i] == s[..i];
    }
    assert (s + [x])[..|s|] == s;
    assert m == FirstOccurrenceMask(s, key) + [key(x) !in Column(s, key)];
    SelectSnoc(s, FirstOccurrenceMask(s, key), x, key(x) !in Column(s, key));
  }

  /** After dropping duplicates, the keys are distinct and the same keys remain. */
  lemma {:induction false} DropDuplicatesKeys<T, K>(s: seq<T>, key: T -> K)
    ensures Distinct(Column(DropDuplicates(s, key), key))
    ensures forall k :: k in Column(DropDuplicates(s, key), key) ==> k in Column(s, key)
    ensures forall k :: k in Column(s, key) ==> k in Column(DropDuplicates(s, key), key)
  {
    if s != [] {
      var n := |s| - 1;
      var init, x := s[..n], s[n];
      assert s == init + [x];
      DropDuplicatesKeys(init, key);
      DropDuplicatesSnoc(init, x, key);
      var d := DropDuplicates(init, key);
      assert Column(s, key) == Column(init, key) + [key(x)];
      var cd := Column(d, key);
      if key(x) !in Column(init, key) {
        assert Column(d + [x], key) == cd + [key(x)];
        assert key(x) !in cd;
        forall i, j | 0 <= i < j < |cd| + 1
          ensures (cd + [key(x)])[i] != (cd + [key(x)])[j]
        {
          if j == |cd| {
            assert (cd + [key(x)])[i] in cd;
          }
        }
      } else {
        assert DropDuplicates(s, key) == d;
        forall k
          ensures k in Column(s, key) <==> k in Column(init, key)
        {
          assert k in Column(s, key) <==> k in Column(init, key) || k == key(x);
        }
      }
    }
  }

  /** With keys already distinct, nothing is dropped. */
  lemma DropDuplicatesOfDistinct<T, K>(s: seq<T>, key: T -> K)
    requires Distinct(Column(s, key))
    ensures DropDuplicates(s, key) == s
  {
    var m := FirstOccurrenceMask(s, key);
    forall i | 0 <= i < |s|
      ensures m[i]
    {
      assert forall j :: 0 <= j < i ==> Column(s[..i], key)[j] == Column(s, key)[j];
    }
    SelectAll(s, m);
  }

  /** Filtering only looks at the predicate's values on the rows. */
  lemma FilterCongruent<T>(s: seq<T>, p: T -> bool, q: T -> bool)
    requires forall i :: 0 <= i < |s| ==> p(s[i]) == q(s[i])
    ensures Filter(s, p) == Filter(s, q)
  {
    assert Column(s, p) == Column(s, q);
  }

  /** The predicate `p`, switched on only when `b` holds. */
  function When<T>(b: bool, p: T -> bool): T -> bool {
    x => b ==> p(x)
  }

  /** A mask applied only when a toggle is on: `if b: df = df[p(df)]`. */
  lemma FilterWhen<T>(s: seq<T>, b: bool, p: T -> bool)
    ensures (if b then Filter(s, p) else s) == Filter(s, When(b, p))
  {
    if b {
      FilterCongruent(s, p, When(b, p));
    } else {
      FilterAll(s, When(b, p));
    }
  }

  /** A row that passes the mask survives it. */
  lemma FilterKeeps<T>(s: seq<T>, p: T -> bool, x: T)
    requires x in s && p(x)
    ensures x in Filter(s, p)
  {
    var i :| 0 <= i < |s| && s[i] == x;
  }

  /** A mask followed by a toggled one keeps what their conjunction keeps. */
  lemma FilterThenWhen<T>(s: seq<T>, p: T -> bool, b: bool, q: T -> bool)
    ensures (if b then Filter(Filter(s, p), q) else Filter(s, p)) == Filter(s, Both(p, When(b, q)))
  {
    FilterWhen(Filter(s, p), b, q);
    FilterFilter(s, p, When(b, q));
  }

  /** Selecting rows keeps a column with distinct values distinct. */
  lemma {:induction false} SelectDistinct<T, K>(s: seq<T>, mask: seq<bool>, f: T -> K)
    requires |mask| == |s| && Distinct(Column(s, f))
    ensures Distinct(Column(Select(s, mask), f))
    ensures forall k :: k in Column(Select(s, mask), f) ==> k in Column(s, f)
  {
    if s != [] {
      var n := |s| - 1;
      var init, x := s[..n], s[n];
      assert s == init + [x];
      assert Column(s, f) == Column(init, f) + [f(x)];
      assert Distinct(Column(init, f)) by {
        forall i, j | 0 <= i < j < n
          ensures Column(init, f)[i] != Column(init, f)[j]
        {
          assert Column(init, f)[i] == Column(s, f)[i] && Column(init, f)[j] == Column(s, f)[j];
        }
      }
      SelectDistinct(init, mask[..n], f);
      SelectSnoc(init, mask[..n], x, mask[n]);
      assert mask == mask[..n] + [mask[n]];
      var c := Column(Select(init, mask[..n]), f);
      assert f(x) !in Column(init, f) by {
        forall i | 0 <= i < n
          ensures Column(init, f)[i] != f(x)
        {
          assert Column(s, f)[i] != Column(s, f)[n];
        }
      }
      if mask[n] {
        assert Column(Select(s, mask), f) == c + [f(x)];
        forall i, j | 0 <= i < j < |c| + 1
          ensures (c + [f(x)])[i] != (c + [f(x)])[j]
        {
          if j == |c| {
            assert (c + [f(x)])[i] in c;
          }
        }
        forall k | k in c + [f(x)]
          ensures k in Column(s, f)
        {
          if k != f(x) {
            assert k in c;
          }
        }
      }
    }
  }
}
