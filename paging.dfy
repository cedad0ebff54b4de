/** The ORM's `skip`/`take` window, the order in which it lists a table, and
    the filter it applies; shared by the post, category and image listings. */
module Paging {

  /** `findMany({ skip, take })` over the rows `s` in listing order: rows
      `skip` to `skip + take - 1`, as far as they exist. */
  function Window<T>(s: seq<T>, skip: nat, take: nat): (r: seq<T>)
    ensures |r| == if skip >= |s| then 0 else if take <= |s| - skip then take else |s| - skip
    ensures forall i | 0 <= i < |r| :: skip + i < |s| && r[i] == s[skip + i]
  {
    if skip >= |s| then [] else if take <= |s| - skip then s[skip..skip + take] else s[skip..]
  }

  /** With pages of `size` rows, row `j` is on page `j / size`, at position
      `j % size`. */
  lemma {:induction false} WindowPosition<T>(s: seq<T>, size: nat, j: nat)
    requires 0 < size && j < |s|
    ensures var w := Window(s, (j / size) * size, size);
      j % size < |w| && w[j % size] == s[j]
  {
    var page, pos := j / size, j % size;
    assert page * size + pos == j;
    assert pos < size;
    var w := Window(s, page * size, size);
    assert page * size <= j;
    assert w[pos] == s[page * size + pos];
  }

  /** `r` is `s` with some rows left out: the rows that remain keep their
      order. */
  predicate Subsequence<T(==)>(r: seq<T>, s: seq<T>)
    decreases |s|
  {
    if r == [] then true
    else if s == [] then false
    else if r[0] == s[0] then Subsequence(r[1..], s[1..])
    else Subsequence(r, s[1..])
  }

  lemma {:induction false} SubsequenceOfItself<T>(s: seq<T>)
    ensures Subsequence(s, s)
  {
    if s != [] {
      SubsequenceOfItself(s[1..]);
    }
  }

  /** The rows of `s` that satisfy `keep`, in their original order: every
      occurrence of a kept row, and none of the others. */
  function Filter<T(==)>(s: seq<T>, keep: T -> bool): (r: seq<T>)
    ensures |r| <= |s|
    ensures forall i | 0 <= i < |r| :: r[i] in s && keep(r[i])
    ensures forall i | 0 <= i < |s| && keep(s[i]) :: s[i] in r
    ensures forall x | x in s && keep(x) :: x in r
    ensures Subsequence(r, s)
    ensures forall x | x in s && keep(x) :: multiset(r)[x] == multiset(s)[x]
  {
    if s == [] then []
    else
      assert s == [s[0]] + s[1..];
      if keep(s[0]) then [s[0]] + Filter(s[1..], keep)
      else Filter(s[1..], keep)
  }

  /** Filtering works piecewise over concatenation. */
  lemma {:induction false} FilterConcat<T>(a: seq<T>, b: seq<T>, keep: T -> bool)
    ensures Filter(a + b, keep) == Filter(a, keep) + Filter(b, keep)
  {
    if a == [] {
      assert a + b == b;
    } else {
      assert (a + b)[0] == a[0];
      assert (a + b)[1..] == a[1..] + b;
      FilterConcat(a[1..], b, keep);
    }
  }

  /** On one row, filtering keeps it or drops it. */
  lemma {:induction false} FilterOne<T>(x: T, keep: T -> bool)
    ensures Filter([x], keep) == if keep(x) then [x] else []
  {
    assert [x][1..] == [];
  }

  /** Filtering preserves the absence of duplicates. */
  lemma {:induction false} FilterDistinct<T>(s: seq<T>, keep: T -> bool)
    requires Distinct(s)
    ensures Distinct(Filter(s, keep))
  {
    if s != [] {
      FilterDistinct(s[1..], keep);
      assert s[0] !in s[1..];
    }
  }

  predicate Distinct<T(==)>(s: seq<T>)
  {
    forall i, j | 0 <= i < j < |s| :: s[i] != s[j]
  }

  /** `order` lists the keys `keys` of a table, each exactly once: the order in
      which the ORM enumerates the rows (by `createdAt`, or unspecified). */
  predicate Enumerates<K(==)>(order: seq<K>, keys: set<K>)
  {
    && (forall i | 0 <= i < |order| :: order[i] in keys)
    && (forall k | k in keys :: k in order)
    && Distinct(order)
  }

  /** A listing of a table has one entry per row. */
  lemma {:induction false} EnumeratesSize<K>(order: seq<K>, keys: set<K>)
    requires Enumerates(order, keys)
    ensures |order| == |keys|
  {
    if order != [] {
      var rest := keys - {order[0]};
      forall k | k in rest ensures k in order[1..] {
        var i :| 0 <= i < |order| && order[i] == k;
        assert i != 0;
      }
      EnumeratesSize(order[1..], rest);
    }
  }

  /** `Math.ceil(total / pageSize)` for the category listing's page size 10:
      the fewest 10-row pages that hold `total` rows. */
  function PageCount(total: nat): (r: nat)
    ensures r * 10 >= total
    ensures r * 10 < total + 10
    ensures r == 0 <==> total == 0
  {
    (total + 9) / 10
  }
}
