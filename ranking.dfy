/**
 * The ranking step of semantic search: pair every candidate with its score,
 * sort the pairs by score in descending order with a stable sort (Python's
 * `list.sort(key=..., reverse=True)` keeps equal-score items in their
 * original order), and keep the first k.
 *
 * The sort is given as an insertion sort; `SortDescUnique` shows that a
 * descending, stable arrangement of a sequence is unique, so this is the
 * result any stable sort produces.
 */
module Ranking {

  /** A candidate together with its similarity to the query. */
  datatype Scored<T> = Scored(item: T, score: real)

  ghost predicate SortedDesc<T>(s: seq<Scored<T>>) {
    forall i, j :: 0 <= i < j < |s| ==> s[i].score >= s[j].score
  }

  /** The elements of s whose score is v, in their order in s. */
  function WithScore<T>(s: seq<Scored<T>>, v: real): (r: seq<Scored<T>>) {
    if s == [] then []
    else (if s[0].score == v then [s[0]] else []) + WithScore(s[1..], v)
  }

  ghost predicate IsPrefix<U>(p: seq<U>, s: seq<U>) {
    |p| <= |s| && p == s[..|p|]
  }

  ghost predicate Distinct<U>(s: seq<U>) {
    forall i, j :: 0 <= i < j < |s| ==> s[i] != s[j]
  }

  /** Put x in front of the first element of s that does not score higher. */
  function Insert<T>(x: Scored<T>, s: seq<Scored<T>>): (r: seq<Scored<T>>) {
    if s == [] then [x]
    else if x.score >= s[0].score then [x] + s
    else [s[0]] + Insert(x, s[1..])
  }

  /** Stable sort by score, highest first. */
  function SortDesc<T>(s: seq<Scored<T>>): (r: seq<Scored<T>>) {
    if s == [] then [] else Insert(s[0], SortDesc(s[1..]))
  }

  /** The first k elements of s, or all of s when it is shorter (`s[:k]`). */
  function Take<U>(s: seq<U>, k: nat): (r: seq<U>)
    ensures |r| == if k < |s| then k else |s|
    ensures IsPrefix(r, s)
  {
    if k < |s| then s[..k] else s
  }

  /** `sorted(pairs, key=score, reverse=True)[:k]`. */
  function Rank<T>(s: seq<Scored<T>>, k: nat): (r: seq<Scored<T>>) {
    Take(SortDesc(s), k)
  }

  /** The items of the pairs, scores dropped. */
  function Items<T>(s: seq<Scored<T>>): (r: seq<T>)
    ensures |r| == |s| && forall i :: 0 <= i < |s| ==> r[i] == s[i].item
  {
    if s == [] then [] else [s[0].item] + Items(s[1..])
  }

  // ----- WithScore -----

  lemma {:induction false} WithScoreAppend<T>(a: seq<Scored<T>>, b: seq<Scored<T>>, v: real)
    ensures WithScore(a + b, v) == WithScore(a, v) + WithScore(b, v)
  {
    if a == [] {
      assert a + b == b;
    } else {
      assert (a + b)[1..] == a[1..] + b;
      WithScoreAppend(a[1..], b, v);
    }
  }

  lemma {:induction false} WithScoreMembers<T>(s: seq<Scored<T>>, v: real)
    ensures forall x :: x in WithScore(s, v) <==> x in s && x.score == v
  {
    if s != [] {
      WithScoreMembers(s[1..], v);
      assert s == [s[0]] + s[1..];
    }
  }

  /** The filter of a prefix is a prefix of the filter. */
  lemma WithScorePrefix<T>(p: seq<Scored<T>>, s: seq<Scored<T>>, v: real)
    requires IsPrefix(p, s)
    ensures IsPrefix(WithScore(p, v), WithScore(s, v))
  {
    assert s == p + s[|p|..];
    WithScoreAppend(p, s[|p|..], v);
  }

  // ----- Insert -----

  lemma {:induction false} InsertFacts<T>(x: Scored<T>, s: seq<Scored<T>>)
    ensures |Insert(x, s)| == |s| + 1
    ensures multiset(Insert(x, s)) == multiset(s) + multiset{x}
    ensures forall y :: y in Insert(x, s) <==> y == x || y in s
  {
    if s != [] && x.score < s[0].score {
      InsertFacts(x, s[1..]);
      assert s == [s[0]] + s[1..];
    }
  }

  /** Inserting an element no higher than a bound keeps every score under the bound. */
  lemma {:induction false} InsertBounded<T>(x: Scored<T>, s: seq<Scored<T>>, b: real)
    requires x.score <= b && forall i :: 0 <= i < |s| ==> s[i].score <= b
    ensures forall i :: 0 <= i < |Insert(x, s)| ==> Insert(x, s)[i].score <= b
  {
    if s != [] && x.score < s[0].score {
      InsertBounded(x, s[1..], b);
    }
  }

  lemma {:induction false} InsertSorted<T>(x: Scored<T>, s: seq<Scored<T>>)
    requires SortedDesc(s)
    ensures SortedDesc(Insert(x, s))
  {
    if s != [] && x.score < s[0].score {
      InsertSorted(x, s[1..]);
      InsertBounded(x, s[1..], s[0].score);
    }
  }

  /** Inserting x keeps it ahead of every element of equal score. */
  lemma {:induction false} InsertStable<T>(x: Scored<T>, s: seq<Scored<T>>, v: real)
    requires SortedDesc(s)
    ensures WithScore(Insert(x, s), v) == WithScore([x] + s, v)
  {
    if s != [] && x.score < s[0].score {
      var h, t := s[0], s[1..];
      InsertStable(x, t, v);
      assert Insert(x, s) == [h] + Insert(x, t);
      assert s == [h] + t;
      WithScoreAppend([h], Insert(x, t), v);
      WithScoreAppend([x], t, v);
      WithScoreAppend([h], t, v);
      WithScoreAppend([x], s, v);
      // x and h have different scores, so at most one of them is kept
      assert WithScore([h], v) == [] || WithScore([x], v) == [];
    }
  }

  lemma {:induction false} InsertDistinct<T>(x: Scored<T>, s: seq<Scored<T>>)
    requires Distinct(s) && x !in s
    ensures Distinct(Insert(x, s))
  {
    if s != [] && x.score < s[0].score {
      InsertDistinct(x, s[1..]);
      InsertFacts(x, s[1..]);
      var t := Insert(x, s[1..]);
      forall j | 0 < j < |t| + 1 ensures s[0] != ([s[0]] + t)[j] {
        assert t[j - 1] in t;
      }
    }
  }

  // ----- SortDesc -----

  /** The sort returns a permutation of its input, ordered by non-increasing score. */
  lemma {:induction false} SortDescCorrect<T>(s: seq<Scored<T>>)
    ensures SortedDesc(SortDesc(s))
    ensures |SortDesc(s)| == |s|
    ensures multiset(SortDesc(s)) == multiset(s)
  {
    if s != [] {
      SortDescCorrect(s[1..]);
      InsertSorted(s[0], SortDesc(s[1..]));
      InsertFacts(s[0], SortDesc(s[1..]));
      assert s == [s[0]] + s[1..];
    }
  }

  /** Stability: for every score, the elements with that score keep their input order. */
  lemma {:induction false} SortDescStable<T>(s: seq<Scored<T>>, v: real)
    ensures WithScore(SortDesc(s), v) == WithScore(s, v)
  {
    if s != [] {
      SortDescStable(s[1..], v);
      SortDescCorrect(s[1..]);
      InsertStable(s[0], SortDesc(s[1..]), v);
      WithScoreAppend([s[0]], SortDesc(s[1..]), v);
      WithScoreAppend([s[0]], s[1..], v);
      assert s == [s[0]] + s[1..];
    }
  }

  lemma {:induction false} SortDescDistinct<T>(s: seq<Scored<T>>)
    requires Distinct(s)
    ensures Distinct(SortDesc(s))
  {
    if s != [] {
      assert Distinct(s[1..]);
      SortDescDistinct(s[1..]);
      SortDescCorrect(s[1..]);
      assert s[0] !in s[1..];
      assert s[0] !in multiset(s[1..]);
      InsertDistinct(s[0], SortDesc(s[1..]));
    }
  }

  /** a and b have, for every score, the same elements with that score in the same order. */
  ghost predicate SameClasses<T>(a: seq<Scored<T>>, b: seq<Scored<T>>) {
    forall v :: WithScore(a, v) == WithScore(b, v)
  }

  lemma HeadScoreClass<T>(s: seq<Scored<T>>)
    ensures s != [] ==> WithScore(s, s[0].score) != []
  {
  }

  /** Sequences with the same score classes are both empty or both non-empty. */
  lemma SameClassesEmpty<T>(a: seq<Scored<T>>, b: seq<Scored<T>>)
    requires SameClasses(a, b)
    ensures a == [] <==> b == []
  {
    HeadScoreClass(a);
    HeadScoreClass(b);
    if a != [] {
      assert WithScore(b, a[0].score) == WithScore(a, a[0].score);
    }
    if b != [] {
      assert WithScore(a, b[0].score) == WithScore(b, b[0].score);
    }
  }

  /** A non-empty score class has a witness in the sequence. */
  lemma {:induction false} ScoreClassWitness<T>(s: seq<Scored<T>>, v: real)
    requires WithScore(s, v) != []
    ensures exists i :: 0 <= i < |s| && s[i].score == v
  {
    if s[0].score != v {
      ScoreClassWitness(s[1..], v);
      var i :| 0 <= i < |s[1..]| && s[1..][i].score == v;
      assert s[i + 1].score == v;
    }
  }

  /** The first score of b occurs in a, so it is at most the first score of a. */
  lemma HeadBelow<T>(a: seq<Scored<T>>, b: seq<Scored<T>>)
    requires SortedDesc(a) && a != [] && b != []
    requires SameClasses(a, b)
    ensures b[0].score <= a[0].score
  {
    var vb := b[0].score;
    HeadScoreClass(b);
    assert WithScore(a, vb) == WithScore(b, vb);
    ScoreClassWitness(a, vb);
    var i :| 0 <= i < |a| && a[i].score == vb;
    assert i == 0 || a[0].score >= a[i].score;
  }

  /** Descending sequences with the same score classes start with the same element. */
  lemma HeadsEqual<T>(a: seq<Scored<T>>, b: seq<Scored<T>>)
    requires SortedDesc(a) && SortedDesc(b) && a != [] && b != []
    requires SameClasses(a, b)
    ensures a[0] == b[0]
  {
    HeadBelow(a, b);
    HeadBelow(b, a);
    var v := a[0].score;
    assert WithScore(a, v) == WithScore(b, v);
    assert WithScore(a, v) == [a[0]] + WithScore(a[1..], v);
    assert WithScore(b, v) == [b[0]] + WithScore(b[1..], v);
    assert WithScore(a, v)[0] == a[0];
  }

  /** Removing an equal head from both sides keeps the score classes equal. */
  lemma TailClasses<T>(a: seq<Scored<T>>, b: seq<Scored<T>>)
    requires a != [] && b != [] && a[0] == b[0]
    requires SameClasses(a, b)
    ensures SameClasses(a[1..], b[1..])
  {
    forall v ensures WithScore(a[1..], v) == WithScore(b[1..], v) {
      var h: seq<Scored<T>> := if a[0].score == v then [a[0]] else [];
      assert WithScore(a, v) == WithScore(b, v);
      assert WithScore(a, v) == h + WithScore(a[1..], v);
      assert WithScore(b, v) == h + WithScore(b[1..], v);
      assert WithScore(a[1..], v) == (h + WithScore(a[1..], v))[|h|..];
      assert WithScore(b[1..], v) == (h + WithScore(b[1..], v))[|h|..];
    }
  }

  lemma SortedTail<T>(s: seq<Scored<T>>)
    requires SortedDesc(s) && s != []
    ensures SortedDesc(s[1..])
  {
    forall i, j | 0 <= i < j < |s| - 1 ensures s[1..][i].score >= s[1..][j].score {
      assert s[1..][i] == s[i + 1] && s[1..][j] == s[j + 1];
    }
  }

  /** Two descending sequences with the same elements per score are equal. */
  lemma {:induction false} SameScoreClassesEqual<T>(a: seq<Scored<T>>, b: seq<Scored<T>>)
    requires SortedDesc(a) && SortedDesc(b)
    requires SameClasses(a, b)
    ensures a == b
  {
    SameClassesEmpty(a, b);
    if a != [] {
      HeadsEqual(a, b);
      TailClasses(a, b);
      SortedTail(a);
      SortedTail(b);
      SameScoreClassesEqual(a[1..], b[1..]);
      assert a == [a[0]] + a[1..];
      assert b == [b[0]] + b[1..];
    }
  }

  /**
   * Any arrangement of s that is ordered by non-increasing score and keeps
   * equal-score elements in input order is exactly `SortDesc(s)`.
   */
  lemma SortDescUnique<T>(s: seq<Scored<T>>, t: seq<Scored<T>>)
    requires SortedDesc(t)
    requires forall v :: WithScore(t, v) == WithScore(s, v)
    ensures t == SortDesc(s)
  {
    SortDescCorrect(s);
    forall v ensures WithScore(t, v) == WithScore(SortDesc(s), v) {
      SortDescStable(s, v);
    }
    assert SameClasses(t, SortDesc(s));
    SameScoreClassesEqual(t, SortDesc(s));
  }

  // ----- Rank -----

  /** The ranking holds min(k, |s|) pairs, all taken from s. */
  lemma RankSize<T>(s: seq<Scored<T>>, k: nat)
    ensures |Rank(s, k)| == if k < |s| then k else |s|
    ensures multiset(Rank(s, k)) <= multiset(s)
  {
    SortDescCorrect(s);
    var t := SortDesc(s);
    var r := Rank(s, k);
    assert t == r + t[|r|..];
    assert multiset(t) == multiset(r) + multiset(t[|r|..]);
  }

  lemma RankSorted<T>(s: seq<Scored<T>>, k: nat)
    ensures SortedDesc(Rank(s, k))
  {
    SortDescCorrect(s);
  }

  /**
   * Among elements of equal score, the ranking keeps the earliest ones of s,
   * in their order in s.
   */
  lemma RankStable<T>(s: seq<Scored<T>>, k: nat, v: real)
    ensures IsPrefix(WithScore(Rank(s, k), v), WithScore(s, v))
  {
    WithScorePrefix(Rank(s, k), SortDesc(s), v);
    SortDescStable(s, v);
  }

  /** The ranking is a top-k: nothing left out scores above anything kept. */
  lemma RankIsTop<T>(s: seq<Scored<T>>, k: nat, x: Scored<T>)
    requires x in s && x !in Rank(s, k)
    ensures forall i :: 0 <= i < |Rank(s, k)| ==> Rank(s, k)[i].score >= x.score
  {
    SortDescCorrect(s);
    var t := SortDesc(s);
    var r := Rank(s, k);
    assert x in multiset(t);
    var j :| 0 <= j < |t| && t[j] == x;
    if j < |r| {
      assert false;
    }
  }

  lemma RankDistinct<T>(s: seq<Scored<T>>, k: nat)
    requires Distinct(s)
    ensures Distinct(Rank(s, k))
  {
    SortDescDistinct(s);
  }

  // ----- worked examples -----

  /** Scores 0.9, 0.5, 0.95, 0.1 in retrieval order, k = 2: the 0.95 item, then the 0.9 item. */
  lemma RankExampleTopTwo()
    ensures Rank([Scored('a', 0.9), Scored('b', 0.5), Scored('c', 0.95), Scored('d', 0.1)], 2)
         == [Scored('c', 0.95), Scored('a', 0.9)]
  {
    assert SortDesc([Scored('d', 0.1)]) == [Scored('d', 0.1)];
    assert SortDesc([Scored('c', 0.95), Scored('d', 0.1)]) == [Scored('c', 0.95), Scored('d', 0.1)];
    assert SortDesc([Scored('b', 0.5), Scored('c', 0.95), Scored('d', 0.1)])
        == [Scored('c', 0.95), Scored('b', 0.5), Scored('d', 0.1)];
  }

  /** Equal scores keep their retrieval order. */
  lemma RankExampleTie()
    ensures Rank([Scored('a', 0.5), Scored('b', 0.7), Scored('c', 0.5)], 3)
         == [Scored('b', 0.7), Scored('a', 0.5), Scored('c', 0.5)]
  {
    assert SortDesc([Scored('c', 0.5)]) == [Scored('c', 0.5)];
    assert SortDesc([Scored('b', 0.7), Scored('c', 0.5)]) == [Scored('b', 0.7), Scored('c', 0.5)];
  }
}
