/**
 * Semantic search (`search_memories`): embed the query, take every stored
 * memory whose embedding is set, score each against the query, and return
 * the `top_k` best in non-increasing score order, ties in retrieval order.
 *
 * The embedding model and the similarity measure are parameters: `embed`
 * maps text to a vector and `score` compares two vectors. There is no
 * minimum-similarity cut-off.
 */
module Search {
  import opened Wrappers
  import opened Models
  import opened Ranking

  /** Bounds and default of the `top_k` query parameter. */
  const MinTopK: int := 1
  const MaxTopK: int := 20
  const DefaultTopK: int := 5

  /** `select(Memory).where(Memory.embedding.is_not(None))` over rows in retrieval order. */
  function Candidates(rows: seq<Memory>): (c: seq<Memory>)
    ensures |c| <= |rows|
    ensures forall m :: m in c <==> m in rows && m.embedding.Some?
  {
    if rows == [] then []
    else
      assert rows == [rows[0]] + rows[1..];
      (if rows[0].embedding.Some? then [rows[0]] else []) + Candidates(rows[1..])
  }

  /** Similarity of a memory with an embedding to the query vector. */
  function Similarity(qv: seq<real>, score: (seq<real>, seq<real>) -> real, m: Memory): real
    requires m.embedding.Some?
  {
    score(qv, m.embedding.value)
  }

  /** The list of (memory, similarity) pairs built for the candidates. */
  function Pairs(cands: seq<Memory>, qv: seq<real>, score: (seq<real>, seq<real>) -> real): (ps: seq<Scored<Memory>>)
    requires forall m :: m in cands ==> m.embedding.Some?
    ensures |ps| == |cands|
    ensures forall i :: 0 <= i < |cands| ==> ps[i] == Scored(cands[i], Similarity(qv, score, cands[i]))
  {
    if cands == [] then []
    else [Scored(cands[0], Similarity(qv, score, cands[0]))] + Pairs(cands[1..], qv, score)
  }

  /**
   * `search_memories(q, top_k)` over the stored rows. A `top_k` outside
   * 1..20 is rejected by query validation before anything is read.
   */
  function SearchMemories(rows: seq<Memory>, q: string, topK: int,
                          embed: string -> seq<real>, score: (seq<real>, seq<real>) -> real)
    : (r: Result<seq<Memory>, Error>)
    ensures r.Err? <==> !(MinTopK <= topK <= MaxTopK)
    ensures r.Err? ==> r.error == ValidationError
  {
    if topK < MinTopK || topK > MaxTopK then Err(ValidationError)
    else Ok(Items(Rank(Pairs(Candidates(rows), embed(q), score), topK)))
  }

  /** The memories of ms with an embedding whose similarity is v, in order. */
  function WithSimilarity(ms: seq<Memory>, qv: seq<real>, score: (seq<real>, seq<real>) -> real, v: real): seq<Memory> {
    if ms == [] then []
    else
      (if ms[0].embedding.Some? && Similarity(qv, score, ms[0]) == v then [ms[0]] else [])
      + WithSimilarity(ms[1..], qv, score, v)
  }

  // ----- helpers relating pairs and memories -----

  /** Every pair holds a memory with an embedding and that memory's similarity. */
  ghost predicate Consistent(ps: seq<Scored<Memory>>, qv: seq<real>, score: (seq<real>, seq<real>) -> real) {
    forall p :: p in ps ==> p.item.embedding.Some? && p.score == Similarity(qv, score, p.item)
  }

  lemma RankedPairs(cands: seq<Memory>, qv: seq<real>, score: (seq<real>, seq<real>) -> real, k: nat)
    requires forall m :: m in cands ==> m.embedding.Some?
    ensures Consistent(Pairs(cands, qv, score), qv, score)
    ensures Consistent(Rank(Pairs(cands, qv, score), k), qv, score)
    ensures forall p :: p in Rank(Pairs(cands, qv, score), k) ==> p in Pairs(cands, qv, score)
  {
    var ps := Pairs(cands, qv, score);
    RankSize(ps, k);
    forall p | p in Rank(ps, k) ensures p in ps {
      assert p in multiset(Rank(ps, k));
    }
  }

  lemma {:induction false} ItemsOfPairs(cands: seq<Memory>, qv: seq<real>, score: (seq<real>, seq<real>) -> real)
    requires forall m :: m in cands ==> m.embedding.Some?
    ensures Items(Pairs(cands, qv, score)) == cands
  {
  }

  lemma {:induction false} ItemsPrefix(p: seq<Scored<Memory>>, s: seq<Scored<Memory>>)
    requires IsPrefix(p, s)
    ensures IsPrefix(Items(p), Items(s))
  {
  }

  /** Filtering pairs by score and memories by similarity agree. */
  lemma {:induction false} ItemsWithScore(ps: seq<Scored<Memory>>, qv: seq<real>, score: (seq<real>, seq<real>) -> real, v: real)
    requires Consistent(ps, qv, score)
    ensures Items(WithScore(ps, v)) == WithSimilarity(Items(ps), qv, score, v)
  {
    if ps != [] {
      assert ps[0] in ps;
      assert Consistent(ps[1..], qv, score) by {
        forall p | p in ps[1..] ensures p in ps { }
      }
      ItemsWithScore(ps[1..], qv, score, v);
      var h: seq<Scored<Memory>> := if ps[0].score == v then [ps[0]] else [];
      assert WithScore(ps, v) == h + WithScore(ps[1..], v);
      ItemsAppend(h, WithScore(ps[1..], v));
      assert Items(ps)[1..] == Items(ps[1..]);
    }
  }

  lemma {:induction false} ItemsAppend<T>(a: seq<Scored<T>>, b: seq<Scored<T>>)
    ensures Items(a + b) == Items(a) + Items(b)
  {
  }

  lemma {:induction false} CandidatesWithSimilarity(rows: seq<Memory>, qv: seq<real>, score: (seq<real>, seq<real>) -> real, v: real)
    ensures WithSimilarity(Candidates(rows), qv, score, v) == WithSimilarity(rows, qv, score, v)
  {
    if rows != [] {
      CandidatesWithSimilarity(rows[1..], qv, score, v);
      var h := if rows[0].embedding.Some? then [rows[0]] else [];
      WithSimilarityAppend(h, Candidates(rows[1..]), qv, score, v);
    }
  }

  lemma {:induction false} WithSimilarityAppend(a: seq<Memory>, b: seq<Memory>, qv: seq<real>, score: (seq<real>, seq<real>) -> real, v: real)
    ensures WithSimilarity(a + b, qv, score, v) == WithSimilarity(a, qv, score, v) + WithSimilarity(b, qv, score, v)
  {
    if a == [] {
      assert a + b == b;
    } else {
      assert (a + b)[1..] == a[1..] + b;
      WithSimilarityAppend(a[1..], b, qv, score, v);
    }
  }

  lemma {:induction false} CandidatesDistinct(rows: seq<Memory>)
    requires Distinct(rows)
    ensures Distinct(Candidates(rows))
  {
    if rows != [] {
      assert Distinct(rows[1..]);
      CandidatesDistinct(rows[1..]);
      var c := Candidates(rows[1..]);
      assert rows[0] !in rows[1..];
      assert forall j :: 0 <= j < |c| ==> c[j] in c;
    }
  }

  // ----- properties of search -----

  /**
   * Search returns min(top_k, number of rows with an embedding) memories:
   * at most `top_k`, at most as many as there are candidates, and none only
   * when no row has an embedding.
   */
  /**
   * The default `top_k` passes validation, so a search without it returns
   * the five most similar memories, or all candidates when there are fewer.
   */
  lemma DefaultSearch(rows: seq<Memory>, q: string,
                      embed: string -> seq<real>, score: (seq<real>, seq<real>) -> real)
    ensures var r := SearchMemories(rows, q, DefaultTopK, embed, score);
      && r.Ok?
      && |r.value| == (if |Candidates(rows)| < 5 then |Candidates(rows)| else 5)
  {
    SearchSize(rows, q, DefaultTopK, embed, score);
  }

  lemma SearchSize(rows: seq<Memory>, q: string, topK: int,
                   embed: string -> seq<real>, score: (seq<real>, seq<real>) -> real)
    requires MinTopK <= topK <= MaxTopK
    ensures var r := SearchMemories(rows, q, topK, embed, score).value;
      && |r| == (if topK < |Candidates(rows)| then topK else |Candidates(rows)|)
      && |r| <= topK && |r| <= |Candidates(rows)|
      && (r == [] <==> forall m :: m in rows ==> m.embedding.None?)
  {
    var cands := Candidates(rows);
    RankSize(Pairs(cands, embed(q), score), topK);
    if cands != [] {
      assert cands[0] in cands;
    }
  }

  /** Every returned memory is a stored row that has an embedding. */
  lemma SearchReturnsEmbeddedRows(rows: seq<Memory>, q: string, topK: int,
                                  embed: string -> seq<real>, score: (seq<real>, seq<real>) -> real)
    requires MinTopK <= topK <= MaxTopK
    ensures forall m :: m in SearchMemories(rows, q, topK, embed, score).value ==> m in rows && m.embedding.Some?
  {
    var cands := Candidates(rows);
    var ps := Pairs(cands, embed(q), score);
    RankedPairs(cands, embed(q), score, topK);
    var rk := Rank(ps, topK);
    forall m | m in Items(rk) ensures m in rows && m.embedding.Some? {
      var i :| 0 <= i < |rk| && Items(rk)[i] == m;
      assert rk[i] in rk;
      var j :| 0 <= j < |ps| && ps[j] == rk[i];
      assert m == cands[j];
    }
  }

  /** When the rows are pairwise distinct, no memory is returned twice. */
  lemma SearchNoDuplicates(rows: seq<Memory>, q: string, topK: int,
                           embed: string -> seq<real>, score: (seq<real>, seq<real>) -> real)
    requires MinTopK <= topK <= MaxTopK
    requires Distinct(rows)
    ensures Distinct(SearchMemories(rows, q, topK, embed, score).value)
  {
    var qv := embed(q);
    var cands := Candidates(rows);
    CandidatesDistinct(rows);
    var ps := Pairs(cands, qv, score);
    assert Distinct(ps);
    RankDistinct(ps, topK);
    RankedPairs(cands, qv, score, topK);
    var rk := Rank(ps, topK);
    forall i, j | 0 <= i < j < |rk| ensures Items(rk)[i] != Items(rk)[j] {
      assert rk[i] in rk && rk[j] in rk;
    }
  }

  /** Results are in non-increasing order of similarity to the query. */
  lemma SearchOrdered(rows: seq<Memory>, q: string, topK: int,
                      embed: string -> seq<real>, score: (seq<real>, seq<real>) -> real)
    requires MinTopK <= topK <= MaxTopK
    ensures var r := SearchMemories(rows, q, topK, embed, score).value;
      && (forall m :: m in r ==> m.embedding.Some?)
      && forall i, j :: 0 <= i < j < |r| ==> Similarity(embed(q), score, r[i]) >= Similarity(embed(q), score, r[j])
  {
    SearchReturnsEmbeddedRows(rows, q, topK, embed, score);
    var qv := embed(q);
    var cands := Candidates(rows);
    var ps := Pairs(cands, qv, score);
    RankedPairs(cands, qv, score, topK);
    RankSorted(ps, topK);
    var rk := Rank(ps, topK);
    forall i, j | 0 <= i < j < |rk| ensures Similarity(qv, score, Items(rk)[i]) >= Similarity(qv, score, Items(rk)[j]) {
      assert rk[i] in rk && rk[j] in rk;
    }
  }

  /**
   * The result is a top-`top_k`: every row with an embedding that is not
   * returned is no more similar to the query than any returned memory.
   */
  lemma SearchIsTopK(rows: seq<Memory>, q: string, topK: int,
                     embed: string -> seq<real>, score: (seq<real>, seq<real>) -> real, m: Memory)
    requires MinTopK <= topK <= MaxTopK
    requires m in rows && m.embedding.Some?
    requires m !in SearchMemories(rows, q, topK, embed, score).value
    ensures var r := SearchMemories(rows, q, topK, embed, score).value;
      && (forall x :: x in r ==> x.embedding.Some?)
      && forall i :: 0 <= i < |r| ==> Similarity(embed(q), score, r[i]) >= Similarity(embed(q), score, m)
  {
    SearchReturnsEmbeddedRows(rows, q, topK, embed, score);
    var qv := embed(q);
    var cands := Candidates(rows);
    var ps := Pairs(cands, qv, score);
    RankedPairs(cands, qv, score, topK);
    var rk := Rank(ps, topK);
    var j :| 0 <= j < |cands| && cands[j] == m;
    var p := ps[j];
    // a pair in the ranking would put its memory in the result
    assert p !in rk;
    RankIsTop(ps, topK, p);
    forall i | 0 <= i < |rk| ensures Similarity(qv, score, Items(rk)[i]) >= Similarity(qv, score, m) {
      assert rk[i] in rk;
    }
  }

  /**
   * Stability: for each similarity value, the returned memories with that
   * similarity are the first ones of the rows with that similarity, in row order.
   */
  lemma SearchStable(rows: seq<Memory>, q: string, topK: int,
                     embed: string -> seq<real>, score: (seq<real>, seq<real>) -> real, v: real)
    requires MinTopK <= topK <= MaxTopK
    ensures IsPrefix(WithSimilarity(SearchMemories(rows, q, topK, embed, score).value, embed(q), score, v),
                     WithSimilarity(rows, embed(q), score, v))
  {
    var qv := embed(q);
    var cands := Candidates(rows);
    var ps := Pairs(cands, qv, score);
    RankedPairs(cands, qv, score, topK);
    var rk := Rank(ps, topK);
    RankStable(ps, topK, v);
    ItemsPrefix(WithScore(rk, v), WithScore(ps, v));
    ItemsWithScore(rk, qv, score, v);
    ItemsWithScore(ps, qv, score, v);
    ItemsOfPairs(cands, qv, score);
    CandidatesWithSimilarity(rows, qv, score, v);
  }
}
