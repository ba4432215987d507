/** Sequence operations the tables and the client lists are built from: the
    uniqueness constraint, `WHERE` filtering, `findIndex`, replacement of one
    entry, and `ORDER BY` as an insertion sort. */
module Seqs {
  import opened Domain

  /** No two rows of `xs` share a key: a UNIQUE constraint on `key`. */
  predicate UniqueBy<T, K(==)>(xs: seq<T>, key: T -> K) {
    forall i, j | 0 <= i < |xs| && 0 <= j < |xs| && i != j :: key(xs[i]) != key(xs[j])
  }

  /** The rows of `xs` that satisfy `p`, in table order. */
  function Filter<T(==)>(xs: seq<T>, p: T -> bool): (r: seq<T>)
    ensures |r| <= |xs|
    ensures forall x | x in r :: x in xs && p(x)
    ensures forall x | x in xs && p(x) :: x in r
    decreases |xs|
  {
    if |xs| == 0 then []
    else Filter(xs[..|xs| - 1], p) + (if p(xs[|xs| - 1]) then [xs[|xs| - 1]] else [])
  }

  lemma {:induction false} FilterAppend<T>(xs: seq<T>, ys: seq<T>, p: T -> bool)
    ensures Filter(xs + ys, p) == Filter(xs, p) + Filter(ys, p)
    decreases |ys|
  {
    if |ys| == 0 {
      assert xs + ys == xs;
    } else {
      var ys' := ys[..|ys| - 1];
      var y := ys[|ys| - 1];
      var zs := xs + ys;
      assert zs[..|zs| - 1] == xs + ys';
      assert zs[|zs| - 1] == y;
      var tail := if p(y) then [y] else [];
      calc {
        Filter(zs, p);
        Filter(xs + ys', p) + tail;
        { FilterAppend(xs, ys', p); }
        Filter(xs, p) + Filter(ys', p) + tail;
        Filter(xs, p) + (Filter(ys', p) + tail);
      }
    }
  }

  /** Filtering keeps every row `p` accepts and only those, whatever the table held. */
  lemma {:induction false} FilterAll<T>(xs: seq<T>, p: T -> bool)
    requires forall i | 0 <= i < |xs| :: p(xs[i])
    ensures Filter(xs, p) == xs
    decreases |xs|
  {
    if |xs| > 0 {
      assert xs[..|xs| - 1] + [xs[|xs| - 1]] == xs;
      FilterAll(xs[..|xs| - 1], p);
    }
  }

  lemma {:induction false} FilterNone<T>(xs: seq<T>, p: T -> bool)
    requires forall i | 0 <= i < |xs| :: !p(xs[i])
    ensures Filter(xs, p) == []
    decreases |xs|
  {
    if |xs| > 0 {
      FilterNone(xs[..|xs| - 1], p);
    }
  }

  /** Overwriting a row that `p` rejects with another row `p` rejects leaves the filter alone. */
  lemma {:induction false} FilterUpdateRejected<T>(xs: seq<T>, i: nat, y: T, p: T -> bool)
    requires i < |xs| && !p(xs[i]) && !p(y)
    ensures Filter(xs[i := y], p) == Filter(xs, p)
  {
    var pre := xs[..i];
    var post := xs[i + 1..];
    assert xs == pre + [xs[i]] + post;
    assert xs[i := y] == pre + [y] + post;
    FilterAppend(pre + [xs[i]], post, p);
    FilterAppend(pre + [y], post, p);
    FilterAppend(pre, [xs[i]], p);
    FilterAppend(pre, [y], p);
    assert [xs[i]][..0] == [] && [y][..0] == [];
  }

  lemma {:induction false} FilterUnique<T, K>(xs: seq<T>, p: T -> bool, key: T -> K)
    requires UniqueBy(xs, key)
    ensures UniqueBy(Filter(xs, p), key)
    decreases |xs|
  {
    if |xs| > 0 {
      var init := xs[..|xs| - 1];
      var last := xs[|xs| - 1];
      assert UniqueBy(init, key) by {
        forall i, j | 0 <= i < |init| && 0 <= j < |init| && i != j
          ensures key(init[i]) != key(init[j])
        {
          assert init[i] == xs[i] && init[j] == xs[j];
        }
      }
      FilterUnique(init, p, key);
      if p(last) {
        var f := Filter(init, p);
        forall x | x in f ensures key(x) != key(last) {
          var k :| 0 <= k < |init| && init[k] == x;
          assert xs[k] == x;
        }
        AppendUnique(f, [last], key);
      }
    }
  }

  /** The keys of the rows of `xs`. */
  function Keys<T(==), K>(xs: seq<T>, key: T -> K): set<K> {
    set x | x in xs :: key(x)
  }

  /** Joining two tables with unique keys and no key in common keeps keys unique. */
  lemma AppendUnique<T, K>(xs: seq<T>, ys: seq<T>, key: T -> K)
    requires UniqueBy(xs, key) && UniqueBy(ys, key)
    requires forall x, y | x in xs && y in ys :: key(x) != key(y)
    ensures UniqueBy(xs + ys, key)
  {
    var zs := xs + ys;
    forall i, j | 0 <= i < |zs| && 0 <= j < |zs| && i != j
      ensures key(zs[i]) != key(zs[j])
    {
      if i < |xs| && j >= |xs| {
        assert zs[i] == xs[i] && zs[j] == ys[j - |xs|];
      } else if i >= |xs| && j < |xs| {
        assert zs[j] == xs[j] && zs[i] == ys[i - |xs|];
      } else if i >= |xs| {
        assert zs[i] == ys[i - |xs|] && zs[j] == ys[j - |xs|];
      }
    }
  }

  /** Under a UNIQUE constraint a key names at most one row. */
  lemma SameKeySameRow<T, K>(xs: seq<T>, key: T -> K, x: T, y: T)
    requires UniqueBy(xs, key) && x in xs && y in xs && key(x) == key(y)
    ensures x == y
  {
    var i :| 0 <= i < |xs| && xs[i] == x;
    var j :| 0 <= j < |xs| && xs[j] == y;
    assert i == j;
  }

  /** Rows that all share one key fit a UNIQUE constraint only if there is at most one. */
  lemma SameKeyAtMostOne<T, K>(xs: seq<T>, key: T -> K, k: K)
    requires UniqueBy(xs, key) && forall x | x in xs :: key(x) == k
    ensures |xs| <= 1
  {
    if |xs| > 0 {
      var last := |xs| - 1;
      assert xs[0] in xs && xs[last] in xs;
      assert key(xs[0]) == key(xs[last]);
    }
  }

  /** Overwriting one row with a row of the same key keeps keys unique. */
  lemma UpdateUnique<T, K>(xs: seq<T>, i: nat, y: T, key: T -> K)
    requires UniqueBy(xs, key) && i < |xs| && key(y) == key(xs[i])
    ensures UniqueBy(xs[i := y], key)
  {
  }

  /** Position of the first row satisfying `p`, like `Array.prototype.findIndex`
      (`None` standing for -1) or a `findOne` without ORDER BY. */
  function IndexOf<T(==)>(xs: seq<T>, p: T -> bool): (r: Option<nat>)
    ensures r.Some? ==> r.value < |xs| && p(xs[r.value])
    ensures r.Some? ==> forall j | 0 <= j < r.value :: !p(xs[j])
    ensures r.None? <==> forall j | 0 <= j < |xs| :: !p(xs[j])
  {
    IndexFrom(xs, p, 0)
  }

  function IndexFrom<T(==)>(xs: seq<T>, p: T -> bool, k: nat): (r: Option<nat>)
    requires k <= |xs|
    ensures r.Some? ==> k <= r.value < |xs| && p(xs[r.value])
    ensures r.Some? ==> forall j | k <= j < r.value :: !p(xs[j])
    ensures r.None? <==> forall j | k <= j < |xs| :: !p(xs[j])
    decreases |xs| - k
  {
    if k == |xs| then None
    else if p(xs[k]) then Some(k)
    else IndexFrom(xs, p, k + 1)
  }

  /** `list[findIndex(p)] = x` guarded by `index !== -1`. */
  function ReplaceFirst<T(==)>(xs: seq<T>, p: T -> bool, x: T): (r: seq<T>)
    ensures |r| == |xs|
    ensures IndexOf(xs, p).None? ==> r == xs
    ensures IndexOf(xs, p).Some? ==>
      var k := IndexOf(xs, p).value;
      r[k] == x && forall j | 0 <= j < |xs| && j != k :: r[j] == xs[j]
  {
    match IndexOf(xs, p)
    case None => xs
    case Some(k) => xs[k := x]
  }

  /** `key` never decreases along `xs`. */
  predicate SortedBy<T(==)>(xs: seq<T>, key: T -> int) {
    forall i, j | 0 <= i < j < |xs| :: key(xs[i]) <= key(xs[j])
  }

  /** Putting a row no later than any of `xs` in front of a sorted `xs` keeps it sorted. */
  lemma ConsSorted<T>(a: T, xs: seq<T>, key: T -> int)
    requires SortedBy(xs, key)
    requires forall i | 0 <= i < |xs| :: key(a) <= key(xs[i])
    ensures SortedBy([a] + xs, key)
  {
    var zs := [a] + xs;
    forall i, j | 0 <= i < j < |zs| ensures key(zs[i]) <= key(zs[j]) {
      assert zs[j] == xs[j - 1];
      if i > 0 {
        assert zs[i] == xs[i - 1];
      }
    }
  }

  function InsertBy<T(==)>(x: T, xs: seq<T>, key: T -> int): (r: seq<T>)
    requires SortedBy(xs, key)
    ensures SortedBy(r, key)
    ensures multiset(r) == multiset(xs) + multiset{x}
    decreases |xs|
  {
    if |xs| == 0 then [x]
    else if key(x) <= key(xs[0]) then
      ConsSorted(x, xs, key);
      [x] + xs
    else
      var rest := InsertBy(x, xs[1..], key);
      assert xs == [xs[0]] + xs[1..];
      assert forall i | 0 <= i < |rest| :: key(xs[0]) <= key(rest[i]) by {
        forall i | 0 <= i < |rest| ensures key(xs[0]) <= key(rest[i]) {
          assert rest[i] in multiset(rest);
          assert rest[i] == x || rest[i] in multiset(xs[1..]);
        }
      }
      ConsSorted(xs[0], rest, key);
      [xs[0]] + rest
  }

  /** `ORDER BY key ASC`; the order among equal keys is left to the implementation. */
  function SortBy<T(==)>(xs: seq<T>, key: T -> int): (r: seq<T>)
    ensures SortedBy(r, key)
    ensures multiset(r) == multiset(xs)
    decreases |xs|
  {
    if |xs| == 0 then []
    else
      assert xs == [xs[0]] + xs[1..];
      InsertBy(xs[0], SortBy(xs[1..], key), key)
  }
}
