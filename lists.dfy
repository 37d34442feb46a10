/**
 * The array expressions the application's state updates are built from:
 * `xs.filter(p)`, `xs.map(f)`, `[...xs, x]` and `xs.find(p)`, over
 * immutable sequences.
 */
module Lists {
  import opened Wrappers

  /** `a` is `b` with some elements dropped and the rest kept in order. */
  predicate Subsequence<T(==)>(a: seq<T>, b: seq<T>)
    decreases |b|
  {
    a == [] ||
    (b != [] && ((a[0] == b[0] && Subsequence(a[1..], b[1..])) || Subsequence(a, b[1..])))
  }

  /** Every list is a subsequence of itself. */
  lemma {:induction false} SubsequenceOfSelf<T>(s: seq<T>)
    ensures Subsequence(s, s)
  {
    if s != [] {
      SubsequenceOfSelf(s[1..]);
    }
  }

  /** `xs.filter(keep)`. */
  function Filter<T(!new)>(keep: T -> bool, s: seq<T>): (r: seq<T>)
    ensures |r| <= |s|
    ensures forall x :: x in r <==> x in s && keep(x)
  {
    if s == [] then []
    else
      assert s == [s[0]] + s[1..];
      (if keep(s[0]) then [s[0]] else []) + Filter(keep, s[1..])
  }

  /**
   * What `filter` promises: the result keeps the elements that pass, each as
   * often as the input has it, drops all the others, and keeps the input order.
   */
  lemma {:induction false} FilterSpec<T(!new)>(keep: T -> bool, s: seq<T>)
    ensures Subsequence(Filter(keep, s), s)
    ensures forall x :: multiset(Filter(keep, s))[x] == if keep(x) then multiset(s)[x] else 0
  {
    if s != [] {
      FilterSpec(keep, s[1..]);
      var r := Filter(keep, s);
      var rest := Filter(keep, s[1..]);
      assert s == [s[0]] + s[1..];
      if keep(s[0]) {
        assert r == [s[0]] + rest && r[1..] == rest;
      } else {
        assert r == rest;
      }
    }
  }

  /** Filtering twice by the same test filters once. */
  lemma {:induction false} FilterIdempotent<T(!new)>(keep: T -> bool, s: seq<T>)
    ensures Filter(keep, Filter(keep, s)) == Filter(keep, s)
  {
    if s != [] {
      FilterIdempotent(keep, s[1..]);
      var rest := Filter(keep, s[1..]);
      if keep(s[0]) {
        var r := [s[0]] + rest;
        assert Filter(keep, s) == r;
        assert r[0] == s[0] && r[1..] == rest;
        assert Filter(keep, r) == [s[0]] + Filter(keep, rest);
      } else {
        assert Filter(keep, s) == rest;
      }
    }
  }

  /** Filtering keeps everything when everything passes. */
  lemma {:induction false} FilterAll<T(!new)>(keep: T -> bool, s: seq<T>)
    requires forall x :: x in s ==> keep(x)
    ensures Filter(keep, s) == s
  {
    if s != [] {
      FilterAll(keep, s[1..]);
      assert s == [s[0]] + s[1..];
    }
  }

  /** Filtering a concatenation filters each part. */
  lemma {:induction false} FilterConcat<T(!new)>(keep: T -> bool, a: seq<T>, b: seq<T>)
    ensures Filter(keep, a + b) == Filter(keep, a) + Filter(keep, b)
  {
    if a == [] {
      assert a + b == b;
    } else {
      FilterConcat(keep, a[1..], b);
      FilterHead(keep, a, b);
      var h := if keep(a[0]) then [a[0]] else [];
      AppendAssoc(h, Filter(keep, a[1..]), Filter(keep, b));
    }
  }

  /** Concatenation is associative. */
  lemma AppendAssoc<T>(a: seq<T>, b: seq<T>, c: seq<T>)
    ensures a + (b + c) == (a + b) + c
  {
  }

  lemma FilterHead<T(!new)>(keep: T -> bool, a: seq<T>, b: seq<T>)
    requires a != []
    ensures Filter(keep, a + b) == (if keep(a[0]) then [a[0]] else []) + Filter(keep, a[1..] + b)
    ensures Filter(keep, a) == (if keep(a[0]) then [a[0]] else []) + Filter(keep, a[1..])
  {
    assert (a + b)[0] == a[0] && (a + b)[1..] == a[1..] + b;
  }

  /** Filters by tests that agree on every element are the same filter. */
  lemma {:induction false} FilterSameTest<T(!new)>(p: T -> bool, q: T -> bool, s: seq<T>)
    requires forall x :: p(x) == q(x)
    ensures Filter(p, s) == Filter(q, s)
  {
    if s != [] {
      FilterSameTest(p, q, s[1..]);
    }
  }

  /** Two filters one after the other are one filter by both tests. */
  lemma {:induction false} FilterFilter<T(!new)>(first: T -> bool, second: T -> bool, both: T -> bool, s: seq<T>)
    requires forall x :: both(x) == (first(x) && second(x))
    ensures Filter(second, Filter(first, s)) == Filter(both, s)
    decreases |s|
  {
    if s != [] {
      FilterFilter(first, second, both, s[1..]);
      var rest := Filter(first, s[1..]);
      if first(s[0]) {
        var r := [s[0]] + rest;
        assert Filter(first, s) == r;
        assert r[0] == s[0] && r[1..] == rest;
      } else {
        assert Filter(first, s) == rest;
      }
    }
  }

  /** `xs.map(f)`. */
  function Map<T, U>(f: T -> U, s: seq<T>): (r: seq<U>)
    ensures |r| == |s|
    ensures forall i :: 0 <= i < |s| ==> r[i] == f(s[i])
  {
    seq(|s|, i requires 0 <= i < |s| => f(s[i]))
  }

  /** `xs.map(x => matches(x) ? v : x)`: every matching element is replaced by `v`. */
  function ReplaceWhere<T>(matches: T -> bool, v: T, s: seq<T>): (r: seq<T>)
    ensures |r| == |s|
    ensures forall i :: 0 <= i < |s| ==> r[i] == if matches(s[i]) then v else s[i]
  {
    Map(x => if matches(x) then v else x, s)
  }

  /** `xs.find(p)`: the first element that passes, if any. */
  function Find<T(!new)>(p: T -> bool, s: seq<T>): (r: Option<T>)
    ensures r.Some? <==> exists x :: x in s && p(x)
    ensures r.Some? ==> r.value in s && p(r.value)
  {
    if s == [] then None
    else if p(s[0]) then Some(s[0])
    else
      assert forall x :: x in s[1..] ==> x in s;
      assert forall x :: x in s && x != s[0] ==> x in s[1..];
      Find(p, s[1..])
  }

  /** When the element at `i` is the first that passes, `find` returns it. */
  lemma {:induction false} FindAt<T(!new)>(p: T -> bool, s: seq<T>, i: nat)
    requires i < |s| && p(s[i])
    requires forall j :: 0 <= j < i ==> !p(s[j])
    ensures Find(p, s) == Some(s[i])
  {
    if i > 0 {
      FindAt(p, s[1..], i - 1);
    }
  }

  /** The element `find` returns is the first one that passes: no earlier element passes. */
  lemma {:induction false} FindFirst<T(!new)>(p: T -> bool, s: seq<T>)
    ensures Find(p, s).Some? ==> exists k :: 0 <= k < |s| && s[k] == Find(p, s).value &&
                                   forall j :: 0 <= j < k ==> !p(s[j])
  {
    if s != [] && !p(s[0]) {
      FindFirst(p, s[1..]);
      if Find(p, s).Some? {
        var k :| 0 <= k < |s[1..]| && s[1..][k] == Find(p, s).value && forall j :: 0 <= j < k ==> !p(s[1..][j]);
        assert s[k + 1] == Find(p, s).value;
        forall j | 0 <= j < k + 1 ensures !p(s[j]) {
          if j > 0 {
            assert s[j] == s[1..][j - 1];
          }
        }
      }
    }
  }
}
