/**
 * The record schema of app/models.py: the shared base fields with their
 * defaults and range constraint, the stored Memory record, the validated
 * create payload and the restricted partial-update payload.
 *
 * Timestamps are integers (ticks of a UTC clock); the clock itself is not
 * modelled and the current time is always passed in as `now`.
 */
module Models {
  import opened Wrappers

  /** Smallest and largest importance score a created memory may carry. */
  const MinImportance: int := 1
  const MaxImportance: int := 10

  /** The category a memory receives when the create payload does not name one. */
  const DefaultCategory: string := "general"

  /** SQLite INTEGER columns and bound parameters hold signed 64-bit values. */
  predicate IsInt64(x: int) {
    -0x8000_0000_0000_0000 <= x < 0x8000_0000_0000_0000
  }

  /** Failures the core reports; each maps to one HTTP status of the service. */
  datatype Error =
    | ValidationError    // 422: a payload or query parameter breaks its schema
    | NotFound           // 404: no memory under the requested id
    | NotNullViolation   // 500: an update wrote null into a NOT NULL column

  /** A field of a JSON payload: left out by the client, or sent (possibly as null). */
  datatype Field<+T> = Absent | Present(value: T)

  /** A stored memory (the `Memory` table model). */
  datatype Memory = Memory(
    id: Option<int>,
    agentId: string,
    content: string,
    category: Option<string>,
    importanceScore: int,
    createdAt: int,
    updatedAt: int,
    embedding: Option<seq<real>>)

  /** A create payload after validation (`MemoryCreate`). */
  datatype MemoryCreate = MemoryCreate(
    agentId: string,
    content: string,
    category: Option<string>,
    importanceScore: int)

  /** A create payload as the client sends it, before validation. */
  datatype CreateRequest = CreateRequest(
    agentId: Field<string>,
    content: Field<string>,
    category: Field<Option<string>>,
    importanceScore: Field<int>)

  /**
   * A partial update (`MemoryUpdate`): only content, category and importance
   * score exist, each of which may be left out or sent, and sent as null.
   * There is no way to express a change of id, agent, timestamps or embedding.
   */
  datatype MemoryUpdate = MemoryUpdate(
    content: Field<Option<string>>,
    category: Field<Option<string>>,
    importanceScore: Field<Option<int>>)

  predicate InImportanceRange(score: int) {
    MinImportance <= score <= MaxImportance
  }

  /**
   * Schema validation of a create payload: agent id, content and importance
   * score are required, the score must lie in 1..10, and a missing category
   * becomes "general" (an explicit null is kept as null).
   */
  function ValidateCreate(req: CreateRequest): (r: Result<MemoryCreate, Error>)
    ensures r.Ok? <==>
      req.agentId.Present? && req.content.Present? && req.importanceScore.Present?
      && InImportanceRange(req.importanceScore.value)
    ensures r.Err? ==> r.error == ValidationError
    ensures r.Ok? ==>
      && r.value.agentId == req.agentId.value
      && r.value.content == req.content.value
      && r.value.importanceScore == req.importanceScore.value
      && InImportanceRange(r.value.importanceScore)
      && r.value.category == (if req.category.Absent? then Some(DefaultCategory) else req.category.value)
  {
    if req.agentId.Absent? || req.content.Absent? || req.importanceScore.Absent? then
      Err(ValidationError)
    else if !InImportanceRange(req.importanceScore.value) then
      Err(ValidationError)
    else
      var category := match req.category
        case Absent => Some(DefaultCategory)
        case Present(c) => c;
      Ok(MemoryCreate(req.agentId.value, req.content.value, category, req.importanceScore.value))
  }

  /**
   * `Memory.model_validate(memory_in)` at time `now`: the base fields are
   * copied, id and embedding are still unset, and both timestamps are `now`.
   */
  function NewMemory(c: MemoryCreate, now: int): (m: Memory)
    ensures m.id.None? && m.embedding.None?
    ensures m.createdAt == now && m.updatedAt >= m.createdAt
    ensures m.agentId == c.agentId && m.content == c.content
    ensures m.category == c.category && m.importanceScore == c.importanceScore
  {
    Memory(None, c.agentId, c.content, c.category, c.importanceScore, now, now, None)
  }

  /**
   * The fields `model_dump(exclude_unset=True)` yields for an update, in
   * declaration order: one entry per field the client sent.
   */
  datatype FieldUpdate =
    | SetContent(content: Option<string>)
    | SetCategory(category: Option<string>)
    | SetImportance(importanceScore: Option<int>)

  function SuppliedFields(u: MemoryUpdate): (fs: seq<FieldUpdate>)
    ensures |fs| <= 3
    ensures SetContent(None) in fs <==> u.content == Present(None)
    ensures SetImportance(None) in fs <==> u.importanceScore == Present(None)
    ensures forall c :: SetContent(c) in fs <==> u.content == Present(c)
    ensures forall c :: SetCategory(c) in fs <==> u.category == Present(c)
    ensures forall s :: SetImportance(s) in fs <==> u.importanceScore == Present(s)
  {
    (match u.content case Absent => [] case Present(c) => [SetContent(c)])
    + (match u.category case Absent => [] case Present(c) => [SetCategory(c)])
    + (match u.importanceScore case Absent => [] case Present(s) => [SetImportance(s)])
  }

  /**
   * The in-memory record while the `setattr` loop runs. Content and importance
   * score are NOT NULL columns, so writing null to them is only noticed when
   * the session commits; `nullWritten` records that it happened.
   */
  datatype Draft = Draft(record: Memory, nullWritten: bool)

  /** One `setattr(db_memory, key, value)`. */
  function SetAttr(d: Draft, f: FieldUpdate): (d': Draft) {
    match f
    case SetContent(None) => d.(nullWritten := true)
    case SetContent(Some(c)) => d.(record := d.record.(content := c))
    case SetCategory(c) => d.(record := d.record.(category := c))
    case SetImportance(None) => d.(nullWritten := true)
    case SetImportance(Some(s)) => d.(record := d.record.(importanceScore := s))
  }

  /** The `setattr` loop run over the first |fs| supplied fields. */
  function SetAttrs(d: Draft, fs: seq<FieldUpdate>): (d': Draft)
    decreases |fs|
  {
    if fs == [] then d else SetAttr(SetAttrs(d, fs[..|fs| - 1]), fs[|fs| - 1])
  }

  /**
   * What a PATCH does to a stored memory, field by field: a supplied field is
   * replaced by its new value, an absent one is kept, `updated_at` becomes
   * `now`, and nothing else changes. A null content or importance score makes
   * the commit fail. The importance score is not range-checked.
   */
  function ApplyUpdate(m: Memory, u: MemoryUpdate, now: int): (r: Result<Memory, Error>) {
    if u.content == Present(None) || u.importanceScore == Present(None) then
      Err(NotNullViolation)
    else
      Ok(m.(
        content := if u.content.Present? then u.content.value.value else m.content,
        category := if u.category.Present? then u.category.value else m.category,
        importanceScore := if u.importanceScore.Present? then u.importanceScore.value.value else m.importanceScore,
        updatedAt := now))
  }

  /** An update fails exactly when it writes null into content or importance score. */
  lemma UpdateFailsOnlyOnNull(m: Memory, u: MemoryUpdate, now: int)
    ensures ApplyUpdate(m, u, now).Err? <==> u.content == Present(None) || u.importanceScore == Present(None)
    ensures ApplyUpdate(m, u, now).Err? ==> ApplyUpdate(m, u, now).error == NotNullViolation
  {
  }

  /**
   * A successful update changes exactly the supplied fields among content,
   * category and importance score, sets `updated_at` to `now`, and leaves id,
   * agent, creation time and embedding as they were: editing the content
   * does not recompute the embedding.
   */
  lemma UpdateChangesExactlySupplied(m: Memory, u: MemoryUpdate, now: int)
    requires ApplyUpdate(m, u, now).Ok?
    ensures var m' := ApplyUpdate(m, u, now).value;
      && m'.id == m.id && m'.agentId == m.agentId && m'.createdAt == m.createdAt
      && m'.embedding == m.embedding
      && m'.updatedAt == now
      && (u.content.Absent? ==> m'.content == m.content)
      && (u.content.Present? ==> Some(m'.content) == u.content.value)
      && (u.category.Absent? ==> m'.category == m.category)
      && (u.category.Present? ==> m'.category == u.category.value)
      && (u.importanceScore.Absent? ==> m'.importanceScore == m.importanceScore)
      && (u.importanceScore.Present? ==> Some(m'.importanceScore) == u.importanceScore.value)
  {
  }

  /** An empty patch only refreshes `updated_at`. */
  lemma EmptyUpdateOnlyTouchesTimestamp(m: Memory, now: int)
    ensures ApplyUpdate(m, MemoryUpdate(Absent, Absent, Absent), now) == Ok(m.(updatedAt := now))
  {
  }

  /**
   * The update schema has no range constraint: any importance score SQLite
   * can bind, for instance 11 or 0, is stored as sent.
   */
  lemma UpdateSkipsImportanceRange(m: Memory, score: int, now: int)
    requires IsInt64(score)
    ensures var r := ApplyUpdate(m, MemoryUpdate(Absent, Absent, Present(Some(score))), now);
      r.Ok? && r.value.importanceScore == score
    ensures !InImportanceRange(11) && !InImportanceRange(0)
  {
  }

  /** Running the `setattr` loop over a prefix and then one more field. */
  lemma SetAttrsSnoc(d: Draft, fs: seq<FieldUpdate>, f: FieldUpdate)
    ensures SetAttrs(d, fs + [f]) == SetAttr(SetAttrs(d, fs), f)
  {
    assert (fs + [f])[..|fs|] == fs;
  }

  /**
   * The `setattr` loop over the supplied fields, followed by the timestamp
   * assignment and the commit, has exactly the effect `ApplyUpdate` describes.
   */
  lemma {:induction false} SetAttrLoopIsApplyUpdate(m: Memory, u: MemoryUpdate, now: int)
    ensures var d := SetAttrs(Draft(m, false), SuppliedFields(u));
      && (d.nullWritten <==> ApplyUpdate(m, u, now).Err?)
      && (!d.nullWritten ==> ApplyUpdate(m, u, now) == Ok(d.record.(updatedAt := now)))
  {
    var c := match u.content case Absent => [] case Present(x) => [SetContent(x)];
    var g := match u.category case Absent => [] case Present(x) => [SetCategory(x)];
    var s := match u.importanceScore case Absent => [] case Present(x) => [SetImportance(x)];
    var d0 := Draft(m, false);
    assert SuppliedFields(u) == c + g + s;
    assert SetAttrs(d0, c) == if c == [] then d0 else SetAttr(d0, c[0]) by {
      if c != [] { SetAttrsSnoc(d0, [], c[0]); }
    }
    var d1 := SetAttrs(d0, c);
    assert SetAttrs(d0, c + g) == if g == [] then d1 else SetAttr(d1, g[0]) by {
      if g == [] { assert c + g == c; } else { SetAttrsSnoc(d0, c, g[0]); }
    }
    var d2 := SetAttrs(d0, c + g);
    assert SetAttrs(d0, c + g + s) == if s == [] then d2 else SetAttr(d2, s[0]) by {
      if s == [] { assert c + g + s == c + g; } else { SetAttrsSnoc(d0, c + g, s[0]); }
    }
  }
}
