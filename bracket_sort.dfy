/**
 * `[...brackets].sort((a, b) => a.minScore - b.minScore)`: every bracket
 * routine sorts a copy of its input by ascending `minScore`. JavaScript's sort
 * is stable, so brackets with equal `minScore` keep their input order; the
 * insertion sort below yields exactly that order.
 */
module BracketSort {
  import opened RubricTypes

  predicate SortedByMin(s: seq<ScoreBracket>) {
    forall i, j :: 0 <= i < j < |s| ==> s[i].minScore <= s[j].minScore
  }

  /** Inserts `b` into a sorted sequence ahead of every bracket with an equal `minScore`. */
  function Insert(b: ScoreBracket, t: seq<ScoreBracket>): (r: seq<ScoreBracket>)
    ensures |r| == |t| + 1
    ensures multiset(r) == multiset(t) + multiset{b}
    ensures forall x :: x in r ==> x == b || x in t
  {
    if t == [] || b.minScore <= t[0].minScore then
      [b] + t
    else
      assert t == [t[0]] + t[1..];
      [t[0]] + Insert(b, t[1..])
  }

  lemma {:induction false} InsertSorted(b: ScoreBracket, t: seq<ScoreBracket>)
    requires SortedByMin(t)
    ensures SortedByMin(Insert(b, t))
  {
    if !(t == [] || b.minScore <= t[0].minScore) {
      var r' := Insert(b, t[1..]);
      InsertSorted(b, t[1..]);
      forall j | 0 <= j < |r'| ensures t[0].minScore <= r'[j].minScore {
        var x := r'[j];
        assert x in r';
        if x != b {
          var i :| 0 <= i < |t[1..]| && t[1..][i] == x;
          assert x == t[i + 1];
        }
      }
      var r := [t[0]] + r';
      forall i, j | 0 <= i < j < |r| ensures r[i].minScore <= r[j].minScore {
        assert r[j] == r'[j - 1];
        if i > 0 {
          assert r[i] == r'[i - 1];
        }
      }
      assert Insert(b, t) == r;
    }
  }

  /** The stable sort by ascending `minScore`. */
  function SortByMin(bs: seq<ScoreBracket>): (r: seq<ScoreBracket>)
    ensures |r| == |bs|
    ensures multiset(r) == multiset(bs)
    ensures SortedByMin(r)
  {
    if bs == [] then []
    else
      var t := SortByMin(bs[1..]);
      assert bs == [bs[0]] + bs[1..];
      InsertSorted(bs[0], t);
      Insert(bs[0], t)
  }

  /** The brackets of `s` whose `minScore` is `k`, in their order in `s`. */
  function WithMin(s: seq<ScoreBracket>, k: int): seq<ScoreBracket> {
    if s == [] then [] else (if s[0].minScore == k then [s[0]] else []) + WithMin(s[1..], k)
  }

  /** Inserting `b` puts it ahead of every bracket of `t` with the same `minScore`. */
  lemma {:induction false} InsertWithMin(b: ScoreBracket, t: seq<ScoreBracket>, k: int)
    ensures WithMin(Insert(b, t), k) == (if b.minScore == k then [b] else []) + WithMin(t, k)
  {
    if t == [] || b.minScore <= t[0].minScore {
      assert ([b] + t)[1..] == t;
    } else {
      var r := Insert(b, t[1..]);
      InsertWithMin(b, t[1..], k);
      assert ([t[0]] + r)[1..] == r;
      assert WithMin(t, k) == (if t[0].minScore == k then [t[0]] else []) + WithMin(t[1..], k);
      if b.minScore == k {
        assert t[0].minScore != k;
      }
    }
  }

  /**
   * The sort is stable: for every `minScore`, the brackets with that
   * `minScore` appear in the sorted copy in their input order.
   */
  lemma {:induction false} SortStable(bs: seq<ScoreBracket>, k: int)
    ensures WithMin(SortByMin(bs), k) == WithMin(bs, k)
  {
    if bs != [] {
      SortStable(bs[1..], k);
      InsertWithMin(bs[0], SortByMin(bs[1..]), k);
    }
  }

  /** Two sequences with the same multiset hold the same brackets. */
  lemma SameElements(a: seq<ScoreBracket>, b: seq<ScoreBracket>)
    requires multiset(a) == multiset(b)
    ensures forall c :: c in a <==> c in b
  {
    forall c ensures c in a <==> c in b {
      assert c in a <==> c in multiset(a);
      assert c in b <==> c in multiset(b);
    }
  }

  /** Sorting keeps exactly the brackets it was given. */
  lemma SortKeepsElements(bs: seq<ScoreBracket>)
    ensures forall b :: b in SortByMin(bs) <==> b in bs
  {
    SameElements(SortByMin(bs), bs);
  }

  /** A score is covered by the sorted copy iff it is covered by the input. */
  lemma SortKeepsCoverage(bs: seq<ScoreBracket>, x: int)
    ensures Covered(SortByMin(bs), x) <==> Covered(bs, x)
  {
    SortKeepsElements(bs);
  }

  /** `b` shares no score with any bracket of `t`. */
  predicate ApartFrom(b: ScoreBracket, t: seq<ScoreBracket>) {
    forall c :: c in t ==> Disjoint(b, c)
  }

  /** Sequences holding the same brackets are apart from the same brackets. */
  lemma SameApart(b: ScoreBracket, s: seq<ScoreBracket>, t: seq<ScoreBracket>)
    requires forall c :: c in s <==> c in t
    ensures ApartFrom(b, s) <==> ApartFrom(b, t)
  {
  }

  /**
   * Splicing one bracket into a sequence: the result is pairwise disjoint iff
   * the sequence is and the new bracket is disjoint from all of it.
   */
  lemma SpliceDisjoint(t: seq<ScoreBracket>, k: nat, b: ScoreBracket)
    requires k <= |t|
    ensures PairwiseDisjoint(t[..k] + [b] + t[k..]) <==> PairwiseDisjoint(t) && ApartFrom(b, t)
  {
    var u := t[..k] + [b] + t[k..];
    assert |u| == |t| + 1;
    assert forall i :: 0 <= i < k ==> u[i] == t[i];
    assert u[k] == b;
    assert forall i :: k < i < |u| ==> u[i] == t[i - 1];
    if PairwiseDisjoint(u) {
      SplicedParts(t, k, b, u);
    }
    if PairwiseDisjoint(t) && ApartFrom(b, t) {
      SplicedWhole(t, k, b, u);
    }
  }

  /** The parts of a pairwise-disjoint splice are pairwise disjoint and apart. */
  lemma SplicedParts(t: seq<ScoreBracket>, k: nat, b: ScoreBracket, u: seq<ScoreBracket>)
    requires k <= |t| && |u| == |t| + 1 && u[k] == b
    requires forall i :: 0 <= i < k ==> u[i] == t[i]
    requires forall i :: k < i < |u| ==> u[i] == t[i - 1]
    requires PairwiseDisjoint(u)
    ensures PairwiseDisjoint(t) && ApartFrom(b, t)
  {
    forall i, j | 0 <= i < |t| && 0 <= j < |t| && i != j
      ensures Disjoint(t[i], t[j])
    {
      var i' := if i < k then i else i + 1;
      var j' := if j < k then j else j + 1;
      assert u[i'] == t[i] && u[j'] == t[j];
    }
    forall c | c in t ensures Disjoint(b, c) {
      var i :| 0 <= i < |t| && t[i] == c;
      var i' := if i < k then i else i + 1;
      assert u[i'] == c;
    }
  }

  /** Splicing a bracket apart from a pairwise-disjoint sequence keeps it pairwise disjoint. */
  lemma SplicedWhole(t: seq<ScoreBracket>, k: nat, b: ScoreBracket, u: seq<ScoreBracket>)
    requires k <= |t| && |u| == |t| + 1 && u[k] == b
    requires forall i :: 0 <= i < k ==> u[i] == t[i]
    requires forall i :: k < i < |u| ==> u[i] == t[i - 1]
    requires PairwiseDisjoint(t) && ApartFrom(b, t)
    ensures PairwiseDisjoint(u)
  {
    forall i, j | 0 <= i < |u| && 0 <= j < |u| && i != j
      ensures Disjoint(u[i], u[j])
    {
      if i != k && j != k {
        var i' := if i < k then i else i - 1;
        var j' := if j < k then j else j - 1;
        assert u[i] == t[i'] && u[j] == t[j'];
      } else if i == k {
        assert u[j] in t;
      } else {
        assert u[i] in t;
      }
    }
  }

  /** Pairwise disjointness does not depend on the order of the brackets. */
  lemma {:induction false} PermutationKeepsDisjoint(a: seq<ScoreBracket>, b: seq<ScoreBracket>)
    requires multiset(a) == multiset(b)
    ensures PairwiseDisjoint(a) <==> PairwiseDisjoint(b)
    decreases |a|
  {
    if a != [] {
      var b' := TakeHead(a, b);
      PermutationKeepsDisjoint(a[1..], b');
    }
  }

  /**
   * The rest of `b` once the head of `a` is taken out of it: a permutation of
   * the tail of `a`, and each of `a` and `b` is pairwise disjoint iff its rest
   * is and the head is apart from that rest.
   */
  lemma TakeHead(a: seq<ScoreBracket>, b: seq<ScoreBracket>) returns (b': seq<ScoreBracket>)
    requires multiset(a) == multiset(b) && a != []
    ensures multiset(a[1..]) == multiset(b')
    ensures PairwiseDisjoint(a) <==> PairwiseDisjoint(a[1..]) && ApartFrom(a[0], a[1..])
    ensures PairwiseDisjoint(b) <==> PairwiseDisjoint(b') && ApartFrom(a[0], a[1..])
  {
    var x, a' := a[0], a[1..];
    assert x in multiset(b);
    var p :| 0 <= p < |b| && b[p] == x;
    b' := RemoveAt(b, p);
    assert multiset(a') == multiset(b') by {
      RemoveMatching(a, b, p);
    }
    assert PairwiseDisjoint(a) <==> PairwiseDisjoint(a') && ApartFrom(x, a') by {
      assert a'[..0] + [x] + a'[0..] == a;
      SpliceDisjoint(a', 0, x);
    }
    assert PairwiseDisjoint(b) <==> PairwiseDisjoint(b') && ApartFrom(x, b') by {
      SpliceDisjoint(b', p, x);
    }
    SameElements(a', b');
    SameApart(x, a', b');
  }

  /** Removing the head of `a` and a matching element of `b` keeps them permutations of each other. */
  lemma RemoveMatching(a: seq<ScoreBracket>, b: seq<ScoreBracket>, p: nat)
    requires multiset(a) == multiset(b) && a != [] && p < |b| && b[p] == a[0]
    ensures multiset(a[1..]) == multiset(RemoveAt(b, p))
  {
    var b' := RemoveAt(b, p);
    assert a == [a[0]] + a[1..];
    assert multiset(a) == multiset{a[0]} + multiset(a[1..]);
    assert multiset(a[1..]) == multiset(a) - multiset{a[0]};
    assert multiset(b') == multiset(b) - multiset{a[0]};
  }

  /** `b` without its element at `p`, such that splicing that element back gives `b`. */
  function RemoveAt(b: seq<ScoreBracket>, p: nat): (b': seq<ScoreBracket>)
    requires p < |b|
    ensures |b'| == |b| - 1
    ensures b'[..p] + [b[p]] + b'[p..] == b
    ensures multiset(b) == multiset{b[p]} + multiset(b')
  {
    var b' := b[..p] + b[p + 1..];
    assert b'[..p] == b[..p] && b'[p..] == b[p + 1..];
    assert b == b[..p] + [b[p]] + b[p + 1..];
    b'
  }

  /** The sorted copy is pairwise disjoint iff the input is. */
  lemma SortKeepsDisjoint(bs: seq<ScoreBracket>)
    ensures PairwiseDisjoint(SortByMin(bs)) <==> PairwiseDisjoint(bs)
  {
    PermutationKeepsDisjoint(SortByMin(bs), bs);
  }
}
