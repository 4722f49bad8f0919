/** Scored entries and the descending sort that every ranked result in the
    system goes through (pandas `sort_values(ascending=False)`). The sort used
    by pandas is not stable, so no tie order is promised: the contracts state
    only that the result is ordered and a permutation of the input. */
module Ranking {

  datatype Scored<L> = Scored(key: L, score: real)

  predicate SortedDesc<L>(s: seq<Scored<L>>)
  {
    forall i, j :: 0 <= i < j < |s| ==> s[i].score >= s[j].score
  }

  /** An entry scoring at least the head of a sorted sequence may go in front of it. */
  lemma SortedCons<L>(h: Scored<L>, s: seq<Scored<L>>)
    requires SortedDesc(s) && (s != [] ==> h.score >= s[0].score)
    ensures SortedDesc([h] + s)
  {
    var r := [h] + s;
    forall i, j | 0 <= i < j < |r| ensures r[i].score >= r[j].score {
      if i == 0 {
        assert s[0].score >= s[j - 1].score;
      } else {
        assert r[i] == s[i - 1] && r[j] == s[j - 1];
      }
    }
  }

  /** Inserts `x` after every entry scoring at least as much. */
  function Insert<L>(x: Scored<L>, s: seq<Scored<L>>): (r: seq<Scored<L>>)
    requires SortedDesc(s)
    ensures SortedDesc(r)
    ensures multiset(r) == multiset(s) + multiset{x}
    ensures r[0] == x || (s != [] && r[0] == s[0])
  {
    if s == [] then [x]
    else if s[0].score >= x.score then
      var rest := Insert(x, s[1..]);
      assert s[0].score >= rest[0].score;
      SortedCons(s[0], rest);
      var r := [s[0]] + rest;
      assert s == [s[0]] + s[1..];
      r
    else
      [x] + s
  }

  /** The ranked order: non-increasing scores, same entries. */
  function SortDesc<L>(s: seq<Scored<L>>): (r: seq<Scored<L>>)
    ensures SortedDesc(r)
    ensures multiset(r) == multiset(s)
    ensures |r| == |s|
  {
    if s == [] then []
    else
      assert s == s[..|s| - 1] + [s[|s| - 1]];
      var r := Insert(s[|s| - 1], SortDesc(s[..|s| - 1]));
      assert |r| == |multiset(r)|;
      r
  }

  /** Keeps the entries with a strictly positive score, in order
      (pandas `s.loc[s > 0]`). */
  function KeepPositive<L>(s: seq<Scored<L>>): (r: seq<Scored<L>>)
    ensures |r| <= |s|
    ensures forall k :: 0 <= k < |r| ==> r[k].score > 0.0
  {
    if s == [] then []
    else if s[0].score > 0.0 then [s[0]] + KeepPositive(s[1..])
    else KeepPositive(s[1..])
  }

  lemma {:induction false} KeepPositiveMultiset<L>(s: seq<Scored<L>>, e: Scored<L>)
    ensures multiset(KeepPositive(s))[e] == if e.score > 0.0 then multiset(s)[e] else 0
  {
    if s != [] {
      KeepPositiveMultiset(s[1..], e);
      assert s == [s[0]] + s[1..];
    }
  }

  lemma {:induction false} KeepPositiveKeepsOrder<L>(s: seq<Scored<L>>)
    requires SortedDesc(s)
    ensures SortedDesc(KeepPositive(s))
  {
    if s != [] {
      KeepPositiveKeepsOrder(s[1..]);
      var t := KeepPositive(s[1..]);
      KeepPositiveBounded(s[1..], s[0].score);
    }
  }

  lemma {:induction false} KeepPositiveBounded<L>(s: seq<Scored<L>>, b: real)
    requires forall k :: 0 <= k < |s| ==> s[k].score <= b
    ensures forall k :: 0 <= k < |KeepPositive(s)| ==> KeepPositive(s)[k].score <= b
  {
    if s != [] {
      KeepPositiveBounded(s[1..], b);
    }
  }

  /** Filtering positives and sorting commute up to ties: both orders give a
      ranked sequence holding the same entries. */
  lemma KeepPositivePermutation<L>(s: seq<Scored<L>>, t: seq<Scored<L>>)
    requires multiset(s) == multiset(t)
    ensures multiset(KeepPositive(s)) == multiset(KeepPositive(t))
  {
    var a, b := multiset(KeepPositive(s)), multiset(KeepPositive(t));
    forall e ensures a[e] == b[e] {
      KeepPositiveMultiset(s, e);
      KeepPositiveMultiset(t, e);
    }
    MultisetExt(a, b);
  }

  lemma MultisetExt<L>(a: multiset<Scored<L>>, b: multiset<Scored<L>>)
    requires forall e :: a[e] == b[e]
    ensures a == b
  {
  }

  lemma RankedEitherWay<L>(s: seq<Scored<L>>)
    ensures SortedDesc(KeepPositive(SortDesc(s))) && SortedDesc(SortDesc(KeepPositive(s)))
    ensures multiset(KeepPositive(SortDesc(s))) == multiset(SortDesc(KeepPositive(s)))
  {
    KeepPositiveKeepsOrder(SortDesc(s));
    KeepPositivePermutation(SortDesc(s), s);
  }

  /** The entries whose key passes `keep`, in order (selection by a boolean
      mask over the labels, or `drop` of a set of labels). */
  function Select<L>(s: seq<Scored<L>>, keep: L -> bool): (r: seq<Scored<L>>)
    ensures |r| <= |s|
    ensures forall k :: 0 <= k < |r| ==> keep(r[k].key)
  {
    if s == [] then []
    else if keep(s[0].key) then [s[0]] + Select(s[1..], keep)
    else Select(s[1..], keep)
  }

  lemma {:induction false} SelectMultiset<L>(s: seq<Scored<L>>, keep: L -> bool, e: Scored<L>)
    ensures multiset(Select(s, keep))[e] == if keep(e.key) then multiset(s)[e] else 0
  {
    if s != [] {
      SelectMultiset(s[1..], keep, e);
      assert s == [s[0]] + s[1..];
    }
  }

  lemma {:induction false} SelectKeepsOrder<L>(s: seq<Scored<L>>, keep: L -> bool)
    requires SortedDesc(s)
    ensures SortedDesc(Select(s, keep))
  {
    if s != [] {
      SelectKeepsOrder(s[1..], keep);
      SelectBounded(s[1..], keep, s[0].score);
    }
  }

  lemma {:induction false} SelectBounded<L>(s: seq<Scored<L>>, keep: L -> bool, b: real)
    requires forall k :: 0 <= k < |s| ==> s[k].score <= b
    ensures forall k :: 0 <= k < |Select(s, keep)| ==> Select(s, keep)[k].score <= b
  {
    if s != [] {
      SelectBounded(s[1..], keep, b);
    }
  }

  /** Selections by predicates that agree on every label are equal. */
  lemma {:induction false} SelectSame<L>(s: seq<Scored<L>>, p: L -> bool, q: L -> bool)
    requires forall k :: p(k) == q(k)
    ensures Select(s, p) == Select(s, q)
  {
    if s != [] {
      SelectSame(s[1..], p, q);
    }
  }

  /** Selecting by p and then by q is selecting once by their conjunction. */
  lemma {:induction false} SelectThenSelect<L>(s: seq<Scored<L>>, p: L -> bool, q: L -> bool, both: L -> bool)
    requires forall k :: both(k) == (p(k) && q(k))
    ensures Select(Select(s, p), q) == Select(s, both)
  {
    if s != [] {
      SelectThenSelect(s[1..], p, q, both);
      if p(s[0].key) {
        assert Select(s, p) == [s[0]] + Select(s[1..], p);
        assert ([s[0]] + Select(s[1..], p))[1..] == Select(s[1..], p);
      }
    }
  }

  /** The labels of a scored sequence, in order. */
  function Keys<L>(s: seq<Scored<L>>): (r: seq<L>)
    ensures |r| == |s| && forall k :: 0 <= k < |s| ==> r[k] == s[k].key
  {
    seq(|s|, k requires 0 <= k < |s| => s[k].key)
  }

  lemma SelectMember<L>(s: seq<Scored<L>>, keep: L -> bool, e: Scored<L>)
    requires e in Select(s, keep)
    ensures e in s && keep(e.key)
  {
    SelectMultiset(s, keep, e);
  }

  /** Rearranging entries keeps the set of labels. */
  lemma KeysOfPermutation<L>(s: seq<Scored<L>>, t: seq<Scored<L>>, key: L)
    requires multiset(s) == multiset(t) && key in Keys(s)
    ensures key in Keys(t)
  {
    var i :| 0 <= i < |s| && Keys(s)[i] == key;
    assert s[i] in multiset(t);
    var j :| 0 <= j < |t| && t[j] == s[i];
    assert Keys(t)[j] == key;
  }
}
