/** Filtering and stable ordering of query results. */
module Sequences {
  function Filter<T>(xs: seq<T>, keep: T -> bool): (r: seq<T>)
    ensures forall x | x in r :: x in xs && keep(x)
    ensures forall x | x in xs && keep(x) :: x in r
    ensures |r| <= |xs|
  {
    if xs == [] then []
    else
      var front, last := xs[..|xs| - 1], xs[|xs| - 1];
      assert xs == front + [last];
      if keep(last) then Filter(front, keep) + [last] else Filter(front, keep)
  }

  lemma {:induction false} FilterSnoc<T>(xs: seq<T>, x: T, keep: T -> bool)
    ensures Filter(xs + [x], keep) == if keep(x) then Filter(xs, keep) + [x] else Filter(xs, keep)
  {
    assert (xs + [x])[..|xs|] == xs;
  }

  /** Filtering commutes with removing elements that the filter rejects anyway. */
  lemma {:induction false} FilterSkips<T>(xs: seq<T>, keep: T -> bool, stay: T -> bool)
    requires forall x | x in xs && keep(x) :: stay(x)
    ensures Filter(Filter(xs, stay), keep) == Filter(xs, keep)
  {
    if xs != [] {
      var front, last := xs[..|xs| - 1], xs[|xs| - 1];
      assert xs == front + [last];
      FilterSkips(front, keep, stay);
      if stay(last) {
        FilterSnoc(Filter(front, stay), last, keep);
      }
    }
  }

  /** Filtering keeps the order: two positions of the result come from two positions in the same order. */
  lemma {:induction false} FilterOrder<T>(xs: seq<T>, keep: T -> bool, i: int, j: int) returns (p: int, q: int)
    requires 0 <= i < j < |Filter(xs, keep)|
    ensures 0 <= p < q < |xs| && xs[p] == Filter(xs, keep)[i] && xs[q] == Filter(xs, keep)[j]
  {
    var front, last := xs[..|xs| - 1], xs[|xs| - 1];
    assert xs == front + [last];
    var f := Filter(front, keep);
    if j < |f| {
      p, q := FilterOrder(front, keep, i, j);
    } else {
      assert f[i] in front;
      p :| 0 <= p < |front| && front[p] == f[i];
      q := |front|;
    }
  }

  /** Stable insertion by key. */
  function Insert<T>(xs: seq<T>, x: T, key: T -> int): seq<T> {
    if xs == [] || key(xs[|xs| - 1]) <= key(x) then xs + [x]
    else Insert(xs[..|xs| - 1], x, key) + [xs[|xs| - 1]]
  }

  lemma {:induction false} InsertAt<T>(xs: seq<T>, x: T, key: T -> int, j: nat)
    requires j <= |xs| && (j > 0 ==> key(xs[j - 1]) <= key(x))
    requires forall k :: j <= k < |xs| ==> key(xs[k]) > key(x)
    ensures Insert(xs, x, key) == xs[..j] + [x] + xs[j..]
    decreases |xs|
  {
    if j < |xs| {
      var front := xs[..|xs| - 1];
      InsertAt(front, x, key, j);
      assert front[..j] == xs[..j] && xs[j..] == front[j..] + [xs[|xs| - 1]];
    } else {
      assert xs[..j] == xs;
    }
  }

  /** Finds the place from the end and inserts there. */
  method InsertInOrder<T>(xs: seq<T>, x: T, key: T -> int) returns (r: seq<T>)
    ensures r == Insert(xs, x, key)
  {
    var j := |xs|;
    while j > 0 && key(xs[j - 1]) > key(x)
      invariant 0 <= j <= |xs| && forall k :: j <= k < |xs| ==> key(xs[k]) > key(x)
    {
      j := j - 1;
    }
    InsertAt(xs, x, key, j);
    r := xs[..j] + [x] + xs[j..];
  }

  /** ORDER BY key ASC, ties in storage order. */
  function SortBy<T>(xs: seq<T>, key: T -> int): seq<T> {
    if xs == [] then [] else Insert(SortBy(xs[..|xs| - 1], key), xs[|xs| - 1], key)
  }

  lemma {:induction false} SelectSnoc<T>(xs: seq<T>, i: nat, keep: T -> bool, key: T -> int)
    requires i < |xs|
    ensures SortBy(Filter(xs[..i + 1], keep), key) ==
      if keep(xs[i]) then Insert(SortBy(Filter(xs[..i], keep), key), xs[i], key)
      else SortBy(Filter(xs[..i], keep), key)
  {
    assert xs[..i + 1] == xs[..i] + [xs[i]];
    FilterSnoc(xs[..i], xs[i], keep);
    assert (Filter(xs[..i], keep) + [xs[i]])[..|Filter(xs[..i], keep)|] == Filter(xs[..i], keep);
  }

  /** SELECT ... WHERE keep ORDER BY key: one pass over the table, each kept row put in its place. */
  method Select<T>(table: seq<T>, keep: T -> bool, key: T -> int) returns (rows: seq<T>)
    ensures rows == SortBy(Filter(table, keep), key)
  {
    rows := [];
    for i := 0 to |table|
      invariant rows == SortBy(Filter(table[..i], keep), key)
    {
      SelectSnoc(table, i, keep, key);
      if keep(table[i]) {
        rows := InsertInOrder(rows, table[i], key);
      }
    }
    assert table[..|table|] == table;
  }

  ghost predicate Ordered<T>(xs: seq<T>, key: T -> int) {
    forall i, j :: 0 <= i < j < |xs| ==> key(xs[i]) <= key(xs[j])
  }

  lemma {:induction false} InsertMembers<T>(xs: seq<T>, x: T, key: T -> int)
    ensures multiset(Insert(xs, x, key)) == multiset(xs) + multiset{x}
  {
    if xs != [] && key(xs[|xs| - 1]) > key(x) {
      InsertMembers(xs[..|xs| - 1], x, key);
      assert xs == xs[..|xs| - 1] + [xs[|xs| - 1]];
    }
  }

  lemma {:induction false} InsertOrdered<T>(xs: seq<T>, x: T, key: T -> int)
    requires Ordered(xs, key)
    ensures Ordered(Insert(xs, x, key), key)
  {
    if xs != [] && key(xs[|xs| - 1]) > key(x) {
      var front, last := xs[..|xs| - 1], xs[|xs| - 1];
      InsertOrdered(front, x, key);
      InsertMembers(front, x, key);
      var r := Insert(front, x, key);
      forall i | 0 <= i < |r| ensures key(r[i]) <= key(last) {
        assert r[i] in multiset(front) + multiset{x};
        assert r[i] in front ==> exists j :: 0 <= j < |front| && xs[j] == r[i];
      }
    }
  }

  /** A query result is ordered by its key and holds exactly the filtered rows. */
  lemma {:induction false} SortByExact<T>(xs: seq<T>, key: T -> int)
    ensures Ordered(SortBy(xs, key), key) && multiset(SortBy(xs, key)) == multiset(xs)
  {
    if xs != [] {
      var front, last := xs[..|xs| - 1], xs[|xs| - 1];
      assert xs == front + [last];
      SortByExact(front, key);
      InsertOrdered(SortBy(front, key), last, key);
      InsertMembers(SortBy(front, key), last, key);
    }
  }

  /** What a query selects. */
  lemma {:induction false} SelectedRows<T>(table: seq<T>, keep: T -> bool, key: T -> int, x: T)
    ensures x in SortBy(Filter(table, keep), key) <==> x in table && keep(x)
  {
    var rows := Filter(table, keep);
    SortByExact(rows, key);
    assert x in SortBy(rows, key) <==> x in multiset(SortBy(rows, key));
    assert x in rows <==> x in multiset(rows);
  }

  // ----- Distinct keys -----

  ghost predicate DistinctBy<T, K>(xs: seq<T>, key: T -> K) {
    forall i, j :: 0 <= i < j < |xs| ==> key(xs[i]) != key(xs[j])
  }

  lemma {:induction false} OnceEach<T, K>(xs: seq<T>, key: T -> K, x: T)
    requires DistinctBy(xs, key)
    ensures multiset(xs)[x] <= 1
  {
    if xs != [] {
      var front, last := xs[..|xs| - 1], xs[|xs| - 1];
      assert xs == front + [last];
      OnceEach(front, key, x);
      assert forall i :: 0 <= i < |front| ==> key(front[i]) != key(last);
      assert last !in front;
    }
  }

  lemma {:induction false} Twice<T>(xs: seq<T>, i: int, j: int)
    requires 0 <= i < j < |xs| && xs[i] == xs[j]
    ensures multiset(xs)[xs[i]] >= 2
  {
    assert xs == xs[..j] + xs[j..];
    assert xs[..j][i] in multiset(xs[..j]) && xs[j..][0] in multiset(xs[j..]);
  }

  lemma {:induction false} Whereabouts<T>(xs: seq<T>, ys: seq<T>, i: nat) returns (p: nat)
    requires multiset(ys) == multiset(xs) && i < |ys|
    ensures p < |xs| && xs[p] == ys[i]
  {
    assert ys[i] in multiset(ys);
    p :| p < |xs| && xs[p] == ys[i];
  }

  /** Reordering keeps keys distinct. */
  lemma {:induction false} DistinctPermuted<T, K>(xs: seq<T>, ys: seq<T>, key: T -> K)
    requires DistinctBy(xs, key) && multiset(ys) == multiset(xs)
    ensures DistinctBy(ys, key)
  {
    forall i, j | 0 <= i < j < |ys| ensures key(ys[i]) != key(ys[j]) {
      OnceEach(xs, key, ys[i]);
      if ys[i] == ys[j] {
        Twice(ys, i, j);
      }
      var p := Whereabouts(xs, ys, i);
      var q := Whereabouts(xs, ys, j);
    }
  }
}
