# Nexus agent memory vault — Dafny model

Nexus is a small web service that stores "memories" for autonomous agents.
Each memory carries an agent id, free-text content, a category, an
importance score, timestamps, and a vector embedding of its content. Clients
create, read, patch and delete memories, list them with filters and
pagination, and run a semantic search. A semantic search ranks every memory
that has an embedding by similarity to the query and returns the best
`top_k`.

This project models that core in Dafny and proves properties of it:

- `models.dfy` (module `Models`): the record schema of `app/models.py`.
  It defines the `Memory` record, the create payload with its required
  fields, the `"general"` category default and the 1..10 importance range,
  and the restricted `MemoryUpdate` patch. It also gives `ApplyUpdate`, the
  field-by-field meaning of a patch.
- `ranking.dfy` (module `Ranking`): the stable descending sort and the
  `[:top_k]` cut of `search_memories`, over generic (item, score) pairs.
- `search.dfy` (module `Search`): `search_memories`. It covers the
  `embedding IS NOT NULL` selection, the (memory, similarity) pairs, the
  `top_k` validation and the properties of the result.
- `listing.dfy` (module `Listing`): `read_memories`. It covers the category
  and substring filters and the OFFSET/LIMIT page.
- `store.dfy` (module `Store`): the table as a class `MemoryStore`. Its
  fields are a `map<int, Memory>` keyed by id, the ids in ascending order,
  and the next fresh id. Its methods `Create`, `Get`, `Update` and `Delete`
  are the handlers that read and change the table. `Update` keeps the
  source's `setattr` loop over the supplied fields.
- `wrappers.dfy` (module `Wrappers`): `Option` and `Result`.

Boundaries:

- The embedding model (`get_embedding`) is an uninterpreted parameter
  `embed: string -> seq<real>`.
- Cosine similarity is an uninterpreted parameter
  `score: (seq<real>, seq<real>) -> real`.
- The clock is a parameter `now: int`, in ticks of a UTC clock.
- The rows a query reads are the table's rows in ascending id order.

Error cases follow the HTTP statuses of the service:

- `ValidationError` (422): a payload or query parameter breaks its schema.
- `NotFound` (404): no memory has the requested id.
- `NotNullViolation` (500): a patch sends an explicit null for `content` or
  `importance_score`. These columns are NOT NULL because their fields are
  typed `str` and `int`, not `Optional`, so the commit fails and the row is
  left as it was.

Points where the code's behaviour is easy to misread, and which the model
states as the code has them:

- There is no minimum-similarity threshold: `search_memories` has none.
- A patch is not range-checked, so it can leave a stored importance score
  outside 1..10. `MemoryUpdate.importance_score` has no `ge`/`le`
  (app/models.py:28), so a score in 1..10 is not an invariant of the table.
  `Models.UpdateSkipsImportanceRange` shows the gap.
- A content edit never recomputes the embedding.

## Model

| member | source | states |
|---|---|---|
| `Models.ValidateCreate` | app/models.py:7-11 | a create payload is accepted iff agent id, content and importance score are present and the score is in 1..10, otherwise ValidationError; the accepted record carries the sent fields, a missing category becomes "general" and an explicit null category stays null |
| `Models.NewMemory` | app/models.py:14-18 | a freshly built Memory has id and embedding unset, created_at equal to the construction time and updated_at no earlier, and the base fields of the payload |
| `Models.SuppliedFields` | app/main.py:112 | the fields `model_dump(exclude_unset=True)` yields are at most content, category and importance score; each field appears, with the value sent (null included), exactly when the client sent it |
| `Models.UpdateFailsOnlyOnNull` | app/main.py:113-121 | a patch fails, with NotNullViolation, exactly when it writes null into content or importance score (NOT NULL columns) |
| `Models.UpdateChangesExactlySupplied` | app/main.py:112-117 | a successful patch replaces exactly the supplied fields among content, category and importance score, sets updated_at to now, and keeps id, agent id, created_at and the embedding (no re-embedding on a content edit) |
| `Models.EmptyUpdateOnlyTouchesTimestamp` | app/main.py:112-117 | a patch with no fields only refreshes updated_at |
| `Models.UpdateSkipsImportanceRange` | app/models.py:24-29 | the update schema stores any 64-bit importance score as sent, including values such as 11 or 0 that create rejects |
| `Models.SetAttrLoopIsApplyUpdate` | app/main.py:112-121 | running `setattr` over the supplied fields, then the timestamp and the commit, has exactly the effect ApplyUpdate describes |
| `Ranking.Take` | app/main.py:91 | `s[:k]` has min(k, len s) elements and is a prefix of s |
| `Ranking.SortDescCorrect` | app/main.py:90 | the descending sort returns a permutation of its input in non-increasing score order |
| `Ranking.SortDescStable` | app/main.py:90 | for every score value, the elements with that score appear in the output in their input order |
| `Ranking.SortDescUnique` | app/main.py:90 | any non-increasing, stable arrangement of the pairs equals the modelled sort, so the model agrees with every stable sort |
| `Ranking.RankSize` | app/main.py:90-91 | the ranking has min(k, number of pairs) elements, all drawn from the input (sub-multiset) |
| `Ranking.RankSorted` | app/main.py:90-91 | the ranking is in non-increasing score order |
| `Ranking.RankStable` | app/main.py:90-91 | for every score value, the ranked elements with that score are a prefix of the input's elements with that score |
| `Ranking.RankIsTop` | app/main.py:90-91 | every input element left out of the ranking scores no higher than every element kept |
| `Ranking.RankExampleTopTwo` | app/main.py:86-91 | scores 0.9, 0.5, 0.95, 0.1 with k = 2 give the 0.95 item then the 0.9 item |
| `Ranking.RankExampleTie` | app/main.py:90-91 | equal scores keep retrieval order behind a higher score |
| `Search.Candidates` | app/main.py:83-84 | the candidates are exactly the rows whose embedding is set, no more than the rows |
| `Search.Pairs` | app/main.py:86-89 | one (memory, similarity to the query) pair per candidate, in candidate order |
| `Search.SearchMemories` | app/main.py:76-91 | search fails with ValidationError exactly when top_k is outside 1..20 |
| `Search.DefaultSearch` | app/main.py:80 | the default top_k of 5 passes validation, so a search without top_k returns min(5, number of rows with an embedding) memories |
| `Search.SearchSize` | app/main.py:80-91 | search returns min(top_k, number of rows with an embedding) memories, so at most top_k and at most the candidates, and nothing only when no row has an embedding |
| `Search.SearchReturnsEmbeddedRows` | app/main.py:83-91 | every returned memory is a stored row with an embedding |
| `Search.SearchNoDuplicates` | app/main.py:83-91 | for pairwise distinct rows no memory is returned twice |
| `Search.SearchOrdered` | app/main.py:86-91 | returned memories are in non-increasing similarity to the query |
| `Search.SearchIsTopK` | app/main.py:90-91 | a row with an embedding that is not returned is no more similar to the query than any returned memory |
| `Search.SearchStable` | app/main.py:90-91 | for every similarity value, the returned memories with that similarity are the first such rows, in row order |
| `Listing.Contains` | app/main.py:70-71 | the content substring test holds iff the query text occurs at some position of the content |
| `Listing.Filter` | app/main.py:65-71 | a row is kept iff it is stored and passes the category filter (when a category is given) and the substring filter (when q is given) |
| `Listing.FilterAppend` | app/main.py:65-71 | filtering distributes over concatenation, so it keeps the rows' order |
| `Listing.NoFilterKeepsAll` | app/main.py:67-71 | with category and q both missing or empty, every row passes |
| `Listing.ReadMemoriesIsSlice` | app/main.py:73-74 | the listing is the contiguous run of filtered rows starting at max(offset, 0), of length limit, or up to the end when limit is negative or runs past it |
| `Listing.ReadMemoriesMatch` | app/main.py:65-74 | every listed memory is a stored row, has the given category when one is given, and contains q in its content when q is given |
| `Listing.ConsecutivePages` | app/main.py:73-74 | the page at offset o followed by the page at o + limit is the page at o of size 2 * limit |
| `Listing.DefaultListing` | app/main.py:57-58 | with the default offset 0 and limit 100 the listing is the first 100 filtered rows, or all of them when there are fewer |
| `Store.SetAttrLoop` | app/main.py:113-114 | the `setattr` loop over the supplied fields yields the draft SetAttrs describes: each sent field written in turn, a null into a NOT NULL column flagged |
| `Store.MemoryStore.constructor` | app/models.py:14 | an empty memory table whose first id is 1 |
| `Store.MemoryStore.Create` | app/main.py:39-51 | an invalid payload is rejected with ValidationError and stores nothing; a valid one is stored under a fresh id with embedding embed(content), the id list gains that id, and nothing else changes |
| `Store.MemoryStore.Get` | app/main.py:93-101 | returns the row under the id, which carries that id, iff it exists, else NotFound |
| `Store.MemoryStore.Update` | app/main.py:103-123 | a missing id gives NotFound; otherwise the row becomes ApplyUpdate(row, patch, now), or stays as it was when the commit fails; other rows, ids and the id counter are unchanged |
| `Store.MemoryStore.Delete` | app/main.py:126-134 | a missing id gives NotFound and changes nothing; otherwise exactly that row and its id are removed and the result is ok |
| `Store.RowsAreRecords` | app/main.py:83-84 | the rows a query reads are exactly the stored records, each once, all with an embedding, so search considers every stored memory |
| `Store.DeleteThenGet` | app/main.py:126-134 | after a delete, reading the same id fails with NotFound |
| `Store.CreateOutOfRange` | app/models.py:11 | creating a memory with importance score 11 fails with ValidationError and leaves the table unchanged |
| `Store.UpdateMissing` | app/main.py:106-108 | patching id 999 when it is absent fails with NotFound and leaves the table unchanged |

## Left out

- API-key authentication (app/main.py:17-24), the startup hook that creates
  the table (app/main.py:26-29) and FastAPI routing: these are transport,
  not logic.
- The embedding model of app/brain.py and cosine similarity: they are
  uninterpreted parameters, so floating-point behaviour is not modelled.
  This includes the NaN that a zero-norm vector gives and how a NaN would
  sort.
- The fixed embedding dimension is not expressed: `embed` is arbitrary.
  Both parameters are total, so two failures of the source, each a 500,
  are not modelled: `np.dot` raises when a stored embedding and the query
  vector differ in length (app/brain.py:12), and `model.encode` can fail
  during a request (app/brain.py:8).
- `Models.UpdateSkipsImportanceRange`: stated only for scores in the signed
  64-bit range. SQLite integers are 64-bit, so binding a larger importance
  score makes the commit (app/main.py:121) fail with a 500 and the row stays
  as it was; `Store.MemoryStore.Update` models ids and scores as unbounded
  integers and returns Ok there.
- `Store.MemoryStore.Get`, `Store.MemoryStore.Update`, `Store.MemoryStore.Delete`:
  an id outside the signed 64-bit range gives NotFound in the model, while
  `session.get` (app/main.py:98, 106, 128) fails with a 500. The same
  64-bit limit applies to `offset` and `limit` in `read_memories`, which
  the model takes as unbounded integers.
- SQLite, sessions, transactions, commit and refresh: the table is a map
  and every handler takes effect atomically. Left out with them are
  concurrent requests, JSON serialisation of the embedding column, and
  whether a Python `None` reaches that column as SQL NULL or JSON null.
- Id assignment is a counter that never reuses an id. SQLite's rowid rule
  (largest id plus one) could hand out the id of a just-deleted last row
  again. The SQLite engine itself is not part of this model.
- Retrieval order is ascending id. A SELECT without ORDER BY does not
  promise that order; SQLite gives it for a plain table scan.
- `Listing.Contains`: a plain substring test. SQL `LIKE` details behind
  `.contains` (ASCII case-insensitivity, `%` and `_` in q acting as
  wildcards) are not modelled.
- `Models.NewMemory`: one `now` feeds both timestamp defaults. In the
  source the two default factories read the clock one after the other.
- `Search.SearchNoDuplicates`: it assumes pairwise distinct rows.
  `Store.RowsAreRecords` proves the table's rows are distinct.
- Absent required fields in a patch cannot occur: all patch fields are
  optional. The search text `q` is always present in the model; the service
  rejects a request without it before `search_memories` runs. A payload of
  the wrong JSON type is not modelled: fields are typed.
- The seeding script migrate.py is not part of this model: it is a one-off
  script that reads the environment and prints.
