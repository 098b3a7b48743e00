/**
 * The memory table and the create, read, patch and delete handlers that
 * change it. A `MemoryStore` holds the rows by primary key, the keys in
 * ascending order (the order a plain SELECT returns them), and the next key
 * the table hands out.
 */
module Store {
  import opened Wrappers
  import opened Models
  import Ranking
  import Search

  ghost predicate Increasing(ids: seq<int>) {
    forall i, j :: 0 <= i < j < |ids| ==> ids[i] < ids[j]
  }

  /** The rows of `records` in the order of `ids`. */
  function RowsInOrder(records: map<int, Memory>, ids: seq<int>): (rows: seq<Memory>)
    requires forall i :: 0 <= i < |ids| ==> ids[i] in records
    ensures |rows| == |ids| && forall i :: 0 <= i < |ids| ==> rows[i] == records[ids[i]]
  {
    if ids == [] then [] else [records[ids[0]]] + RowsInOrder(records, ids[1..])
  }

  /** ids with id taken out, order kept. */
  function Without(ids: seq<int>, id: int): (r: seq<int>)
    ensures forall x :: x in r <==> x in ids && x != id
  {
    if ids == [] then []
    else
      assert ids == [ids[0]] + ids[1..];
      (if ids[0] == id then [] else [ids[0]]) + Without(ids[1..], id)
  }

  lemma {:induction false} WithoutIncreasing(ids: seq<int>, id: int)
    requires Increasing(ids)
    ensures Increasing(Without(ids, id))
  {
    if ids != [] {
      WithoutIncreasing(ids[1..], id);
      var rest := Without(ids[1..], id);
      forall i | 0 <= i < |rest| ensures ids[0] < rest[i] {
        assert rest[i] in rest;
        var j :| 0 <= j < |ids[1..]| && ids[1..][j] == rest[i];
        assert ids[j + 1] == rest[i];
      }
    }
  }

  /**
   * Every key is listed once, in ascending order; every key is below the
   * next fresh key; each row carries its own key as id and has an embedding.
   */
  ghost predicate WellFormed(records: map<int, Memory>, ids: seq<int>, nextId: int) {
    && nextId >= 1
    && Increasing(ids)
    && (forall i :: 0 <= i < |ids| ==> ids[i] in records)
    && (forall id :: id in records ==> id in ids)
    && (forall id :: id in records ==>
          1 <= id < nextId && records[id].id == Some(id) && records[id].embedding.Some?)
  }

  lemma InsertKeepsWellFormed(records: map<int, Memory>, ids: seq<int>, nextId: int, m: Memory)
    requires WellFormed(records, ids, nextId)
    requires m.id == Some(nextId) && m.embedding.Some?
    ensures nextId !in records
    ensures WellFormed(records[nextId := m], ids + [nextId], nextId + 1)
  {
    assert forall i :: 0 <= i < |ids| ==> ids[i] < nextId;
  }

  lemma ReplaceKeepsWellFormed(records: map<int, Memory>, ids: seq<int>, nextId: int, id: int, m: Memory)
    requires WellFormed(records, ids, nextId)
    requires id in records && m.id == Some(id) && m.embedding.Some?
    ensures WellFormed(records[id := m], ids, nextId)
  {
  }

  lemma RemoveKeepsWellFormed(records: map<int, Memory>, ids: seq<int>, nextId: int, id: int)
    requires WellFormed(records, ids, nextId)
    ensures WellFormed(records - {id}, Without(ids, id), nextId)
  {
    assert forall i :: 0 <= i < |ids| ==> ids[i] in ids;
    WithoutIncreasing(ids, id);
    var rest := Without(ids, id);
    assert forall i :: 0 <= i < |rest| ==> rest[i] in rest;
  }

  /** The `for key, value in memory_data.items(): setattr(...)` loop. */
  method SetAttrLoop(row: Memory, fields: seq<FieldUpdate>) returns (d: Draft)
    ensures d == SetAttrs(Draft(row, false), fields)
  {
    d := Draft(row, false);
    var i := 0;
    while i < |fields|
      invariant 0 <= i <= |fields|
      invariant d == SetAttrs(Draft(row, false), fields[..i])
    {
      SetAttrsSnoc(Draft(row, false), fields[..i], fields[i]);
      assert fields[..i + 1] == fields[..i] + [fields[i]];
      d := SetAttr(d, fields[i]);
      i := i + 1;
    }
    assert fields[..i] == fields;
  }

  class MemoryStore {
    var records: map<int, Memory>
    var ids: seq<int>
    var nextId: int

    /** The table invariant, on this object's fields. */
    ghost predicate Valid()
      reads this
    {
      WellFormed(records, ids, nextId)
    }

    /** An empty table. */
    constructor ()
      ensures Valid()
      ensures records == map[] && ids == [] && nextId == 1
    {
      records, ids, nextId := map[], [], 1;
    }

    /** All rows in ascending key order. */
    function Rows(): (rows: seq<Memory>)
      reads this
      requires Valid()
      ensures |rows| == |ids|
    {
      RowsInOrder(records, ids)
    }

    /**
     * `create_memory`: validate the payload, build the record at time `now`,
     * attach `embed(content)` and store it under a fresh key. A payload that
     * fails validation stores nothing.
     */
    method Create(req: CreateRequest, now: int, embed: string -> seq<real>) returns (r: Result<Memory, Error>)
      requires Valid()
      modifies this
      ensures Valid()
      ensures r.Err? <==> ValidateCreate(req).Err?
      ensures r.Err? ==>
        r.error == ValidationError && records == old(records) && ids == old(ids) && nextId == old(nextId)
      ensures r.Ok? ==>
        var c := ValidateCreate(req).value;
        && old(nextId) !in old(records)
        && r.value == NewMemory(c, now).(id := Some(old(nextId)), embedding := Some(embed(c.content)))
        && records == old(records)[old(nextId) := r.value]
        && ids == old(ids) + [old(nextId)]
        && nextId == old(nextId) + 1
    {
      var validated := ValidateCreate(req);
      if validated.Err? {
        return Err(validated.error);
      }
      var m := NewMemory(validated.value, now);
      var vector := embed(m.content);
      m := m.(embedding := Some(vector));
      m := m.(id := Some(nextId));
      InsertKeepsWellFormed(records, ids, nextId, m);
      records := records[nextId := m];
      ids := ids + [nextId];
      nextId := nextId + 1;
      r := Ok(m);
    }

    /** `read_memory`: the row under `id`, or NotFound. */
    method Get(id: int) returns (r: Result<Memory, Error>)
      requires Valid()
      ensures r.Ok? <==> id in records
      ensures r.Ok? ==> r.value == records[id] && r.value.id == Some(id)
      ensures r.Err? ==> r.error == NotFound
    {
      if id !in records {
        return Err(NotFound);
      }
      r := Ok(records[id]);
    }

    /**
     * `update_memory`: run `setattr` for each supplied field on a copy of the
     * row, set `updated_at`, and commit. The row is replaced by
     * `ApplyUpdate(row, u, now)`; a missing id or a failed commit changes nothing.
     */
    method Update(id: int, u: MemoryUpdate, now: int) returns (r: Result<Memory, Error>)
      requires Valid()
      modifies this
      ensures Valid()
      ensures id !in old(records) ==> r == Err(NotFound)
      ensures id in old(records) ==> r == ApplyUpdate(old(records)[id], u, now)
      ensures r.Ok? ==> records == old(records)[id := r.value]
      ensures r.Err? ==> records == old(records)
      ensures ids == old(ids) && nextId == old(nextId)
    {
      if id !in records {
        return Err(NotFound);
      }
      var row := records[id];
      var draft := SetAttrLoop(row, SuppliedFields(u));
      SetAttrLoopIsApplyUpdate(row, u, now);
      if draft.nullWritten {
        // the commit rejects a null in a NOT NULL column; nothing is written
        return Err(NotNullViolation);
      }
      var m := draft.record.(updatedAt := now);
      UpdateChangesExactlySupplied(row, u, now);
      ReplaceKeepsWellFormed(records, ids, nextId, id, m);
      records := records[id := m];
      r := Ok(m);
    }

    /** `delete_memory`: remove the row under `id`, or report NotFound. */
    method Delete(id: int) returns (r: Result<bool, Error>)
      requires Valid()
      modifies this
      ensures Valid()
      ensures id !in old(records) ==> r == Err(NotFound) && records == old(records) && ids == old(ids)
      ensures id in old(records) ==> r == Ok(true) && records == old(records) - {id} && ids == Without(old(ids), id)
      ensures id !in records && nextId == old(nextId)
    {
      if id !in records {
        return Err(NotFound);
      }
      RemoveKeepsWellFormed(records, ids, nextId, id);
      records := records - {id};
      ids := Without(ids, id);
      r := Ok(true);
    }
  }

  /**
   * The rows a query reads are exactly the stored records, each once, and
   * all of them are search candidates: every stored memory has an embedding.
   */
  lemma RowsAreRecords(s: MemoryStore)
    requires s.Valid()
    ensures forall id :: id in s.records ==> s.records[id] in s.Rows()
    ensures forall m :: m in s.Rows() ==> m.id.Some? && m.id.value in s.records && s.records[m.id.value] == m
    ensures Ranking.Distinct(s.Rows())
    ensures Search.Candidates(s.Rows()) == s.Rows()
  {
    RecordsAreRows(s.records, s.ids, s.nextId);
    RowsDistinct(s.records, s.ids, s.nextId);
    AllEmbeddedCandidates(s.Rows());
  }

  lemma RecordsAreRows(records: map<int, Memory>, ids: seq<int>, nextId: int)
    requires WellFormed(records, ids, nextId)
    ensures forall id :: id in records ==> records[id] in RowsInOrder(records, ids)
    ensures forall m :: m in RowsInOrder(records, ids) ==> m.id.Some? && m.id.value in records && records[m.id.value] == m
  {
    var rows := RowsInOrder(records, ids);
    forall id | id in records ensures records[id] in rows {
      var i :| 0 <= i < |ids| && ids[i] == id;
      assert rows[i] == records[id];
    }
  }

  lemma RowsDistinct(records: map<int, Memory>, ids: seq<int>, nextId: int)
    requires WellFormed(records, ids, nextId)
    ensures Ranking.Distinct(RowsInOrder(records, ids))
  {
    var rows := RowsInOrder(records, ids);
    forall i, j | 0 <= i < j < |rows| ensures rows[i] != rows[j] {
      assert rows[i].id == Some(ids[i]);
    }
  }

  lemma {:induction false} AllEmbeddedCandidates(rows: seq<Memory>)
    requires forall m :: m in rows ==> m.embedding.Some?
    ensures Search.Candidates(rows) == rows
  {
    if rows != [] {
      assert rows[0] in rows;
      AllEmbeddedCandidates(rows[1..]);
      assert rows == [rows[0]] + rows[1..];
    }
  }

  /** A memory that was deleted can no longer be read. */
  method DeleteThenGet(s: MemoryStore, id: int) returns (g: Result<Memory, Error>)
    requires s.Valid()
    modifies s
    ensures g == Err(NotFound)
  {
    var d := s.Delete(id);
    g := s.Get(id);
  }

  /** A create with importance score 11 fails and leaves the table as it was. */
  method CreateOutOfRange(s: MemoryStore, now: int, embed: string -> seq<real>) returns (r: Result<Memory, Error>)
    requires s.Valid()
    modifies s
    ensures r == Err(ValidationError)
    ensures s.records == old(s.records)
  {
    r := s.Create(CreateRequest(Present("agent"), Present("text"), Absent, Present(11)), now, embed);
  }

  /** A patch of a missing id fails with NotFound and changes nothing. */
  method UpdateMissing(s: MemoryStore, now: int) returns (r: Result<Memory, Error>)
    requires s.Valid() && 999 !in s.records
    modifies s
    ensures r == Err(NotFound)
    ensures s.records == old(s.records)
  {
    r := s.Update(999, MemoryUpdate(Present(Some("edited")), Absent, Absent), now);
  }
}
