/**
 * Filtered listing (`read_memories`): an equality filter on category and a
 * substring filter on content, each skipped when its parameter is missing
 * or empty, then OFFSET/LIMIT pagination, over rows in retrieval order.
 *
 * OFFSET and LIMIT follow SQLite: a negative offset counts as zero and a
 * negative limit means no limit.
 */
module Listing {
  import opened Wrappers
  import opened Models

  /** Defaults of the `offset` and `limit` query parameters. */
  const DefaultOffset: int := 0
  const DefaultLimit: int := 100

  /** Python truthiness of an optional string parameter: present and non-empty. */
  predicate Truthy(p: Option<string>) {
    p.Some? && p.value != ""
  }

  /** pat occurs in text starting at position i. */
  ghost predicate OccursAt(pat: string, text: string, i: int) {
    0 <= i <= |text| - |pat| && text[i..i + |pat|] == pat
  }

  /** pat occurs in text at some position. */
  ghost predicate OccursIn(pat: string, text: string) {
    exists i :: OccursAt(pat, text, i)
  }

  /** Substring test behind `col(Memory.content).contains(q)`. */
  function Contains(text: string, pat: string): (b: bool)
    ensures b <==> OccursIn(pat, text)
    decreases |text|
  {
    if |pat| > |text| then false
    else if text[..|pat|] == pat then
      assert OccursAt(pat, text, 0);
      true
    else
      var b := Contains(text[1..], pat);
      assert OccursIn(pat, text[1..]) ==> OccursIn(pat, text) by {
        if OccursIn(pat, text[1..]) {
          var i :| OccursAt(pat, text[1..], i);
          assert text[i + 1..i + 1 + |pat|] == pat;
          assert OccursAt(pat, text, i + 1);
        }
      }
      assert OccursIn(pat, text) ==> OccursIn(pat, text[1..]) by {
        if OccursIn(pat, text) {
          var i :| OccursAt(pat, text, i);
          assert i != 0;
          assert text[1..][i - 1..i - 1 + |pat|] == pat;
          assert OccursAt(pat, text[1..], i - 1);
        }
      }
      b
  }

  /** The two WHERE clauses, each applied only when its parameter is truthy. */
  predicate Matches(m: Memory, category: Option<string>, q: Option<string>) {
    && (Truthy(category) ==> m.category == Some(category.value))
    && (Truthy(q) ==> Contains(m.content, q.value))
  }

  /** The rows that pass the filters, in row order. */
  function Filter(rows: seq<Memory>, category: Option<string>, q: Option<string>): (r: seq<Memory>)
    ensures |r| <= |rows|
    ensures forall m :: m in r <==> m in rows && Matches(m, category, q)
  {
    if rows == [] then []
    else
      assert rows == [rows[0]] + rows[1..];
      (if Matches(rows[0], category, q) then [rows[0]] else []) + Filter(rows[1..], category, q)
  }

  /** First index OFFSET keeps. */
  function PageStart(n: nat, offset: int): (lo: nat)
    ensures lo <= n
  {
    if offset <= 0 then 0 else if offset < n then offset else n
  }

  /** One past the last index LIMIT keeps. */
  function PageEnd(n: nat, offset: int, limit: int): (hi: nat)
    ensures PageStart(n, offset) <= hi <= n
  {
    var lo := PageStart(n, offset);
    if limit < 0 || lo + limit > n then n else lo + limit
  }

  /** `OFFSET offset LIMIT limit`. */
  function Page<U>(s: seq<U>, offset: int, limit: int): (r: seq<U>) {
    s[PageStart(|s|, offset)..PageEnd(|s|, offset, limit)]
  }

  /** `read_memories(offset, limit, category, q)` over the stored rows. */
  function ReadMemories(rows: seq<Memory>, offset: int, limit: int,
                        category: Option<string>, q: Option<string>): (r: seq<Memory>) {
    Page(Filter(rows, category, q), offset, limit)
  }

  /** Filtering distributes over concatenation, so it keeps row order. */
  lemma {:induction false} FilterAppend(a: seq<Memory>, b: seq<Memory>, category: Option<string>, q: Option<string>)
    ensures Filter(a + b, category, q) == Filter(a, category, q) + Filter(b, category, q)
  {
    if a == [] {
      assert a + b == b;
    } else {
      assert (a + b)[1..] == a[1..] + b;
      FilterAppend(a[1..], b, category, q);
    }
  }

  /** With neither filter given, every row passes. */
  lemma {:induction false} NoFilterKeepsAll(rows: seq<Memory>, category: Option<string>, q: Option<string>)
    requires !Truthy(category) && !Truthy(q)
    ensures Filter(rows, category, q) == rows
  {
    if rows != [] {
      NoFilterKeepsAll(rows[1..], category, q);
    }
  }

  /**
   * The listing is the contiguous run of filtered rows from position
   * max(offset, 0), of length `limit` (or up to the end when the limit is
   * negative or runs past it).
   */
  lemma ReadMemoriesIsSlice(rows: seq<Memory>, offset: int, limit: int,
                            category: Option<string>, q: Option<string>)
    ensures var f := Filter(rows, category, q);
      var r := ReadMemories(rows, offset, limit, category, q);
      var lo := if offset <= 0 then 0 else if offset < |f| then offset else |f|;
      && lo + |r| <= |f|
      && (forall i :: 0 <= i < |r| ==> r[i] == f[lo + i])
      && |r| == (if limit < 0 || lo + limit > |f| then |f| - lo else limit)
  {
  }

  /**
   * Every listed memory is a stored row with the requested category when one
   * is given and the requested text in its content when one is given.
   */
  lemma ReadMemoriesMatch(rows: seq<Memory>, offset: int, limit: int,
                          category: Option<string>, q: Option<string>)
    ensures forall m :: m in ReadMemories(rows, offset, limit, category, q) ==>
      && m in rows
      && (Truthy(category) ==> m.category == Some(category.value))
      && (Truthy(q) ==> OccursIn(q.value, m.content))
  {
    var f := Filter(rows, category, q);
    forall m | m in ReadMemories(rows, offset, limit, category, q) ensures m in f {
      var lo, hi := PageStart(|f|, offset), PageEnd(|f|, offset, limit);
      var i :| 0 <= i < hi - lo && f[lo..hi][i] == m;
      assert f[lo + i] == m;
    }
  }

  /** Two consecutive pages of size `limit` together form one page of twice that size. */
  lemma ConsecutivePages(rows: seq<Memory>, offset: nat, limit: nat,
                         category: Option<string>, q: Option<string>)
    ensures ReadMemories(rows, offset, limit, category, q) + ReadMemories(rows, offset + limit, limit, category, q)
         == ReadMemories(rows, offset, 2 * limit, category, q)
  {
  }

  /** With the default query parameters the listing is the first 100 filtered rows. */
  lemma DefaultListing(rows: seq<Memory>, category: Option<string>, q: Option<string>)
    ensures var f := Filter(rows, category, q);
      ReadMemories(rows, DefaultOffset, DefaultLimit, category, q)
        == if |f| <= 100 then f else f[..100]
  {
  }
}
