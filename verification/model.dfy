/**
 The model registry store: a table of `Model` records keyed by a globally
 unique model ID, with create, three lookups, two listings, an update of the
 publish flag and a project-scoped hard delete.

 The relational engine behind the store is abstracted as an in-memory table
 (a sequence of live rows).  Every lookup, listing, update and delete filters
 by one `Query` value (the conjunction of its `Where` clauses), and the engine's primitives
 become `Filter` (find / delete), `Take` (fetch one row) and `SetPublished`
 (update one column of every matching row).
 */
module ModelStore {

  datatype Option<T> = None | Some(value: T)

  /** The failures the store reports. */
  datatype Error =
    | NotFound       // no row matched a lookup, an update or a delete
    | AlreadyExists  // an insert violated the unique index on the model ID

  datatype Result<T> = Ok(value: T) | Err(error: Error)

  /** Outcome of an operation that returns only an error. */
  datatype Outcome = Pass | Fail(error: Error)

  /** One stored model record (the persisted-entity base fields are not modelled). */
  datatype Model = Model(
    modelID: string,
    tenantID: string,
    organizationID: string,
    projectID: string,
    path: string,
    isPublished: bool)

  /** What a caller passes to `CreateModel`. */
  datatype ModelSpec = ModelSpec(
    modelID: string,
    tenantID: string,
    organizationID: string,
    projectID: string,
    path: string,
    isPublished: bool)

  /** The table: the live rows, in no meaningful order. */
  type Table = seq<Model>

  /** The unique index on `ModelID`: no two rows share a model ID. */
  ghost predicate UniqueModelIDs(t: Table) {
    forall i, j :: 0 <= i < |t| && 0 <= j < |t| && i != j ==> t[i].modelID != t[j].modelID
  }

  // ---------------------------------------------------------------------------
  // Queries: the conjunction of the `Where` clauses of one statement
  // ---------------------------------------------------------------------------

  /** `model_id = ?` when `modelID` is given, `project_id = ?` when `projectID`
      is given, and `is_published = true` when `publishedOnly` holds. */
  datatype Query = Query(modelID: Option<string>, projectID: Option<string>, publishedOnly: bool)

  predicate Matches(q: Query, m: Model) {
    && (q.modelID.Some? ==> m.modelID == q.modelID.value)
    && (q.projectID.Some? ==> m.projectID == q.projectID.value)
    && (q.publishedOnly ==> m.isPublished)
  }

  function ByModelID(id: string): Query {
    Query(Some(id), None, false)
  }

  function PublishedByModelID(id: string): Query {
    Query(Some(id), None, true)
  }

  function PublishedByModelIDAndProjectID(id: string, projectID: string): Query {
    Query(Some(id), Some(projectID), true)
  }

  function ByModelIDAndProjectID(id: string, projectID: string): Query {
    Query(Some(id), Some(projectID), false)
  }

  function ByProjectID(projectID: string, onlyPublished: bool): Query {
    Query(None, Some(projectID), onlyPublished)
  }

  function AllPublished(): Query {
    Query(None, None, true)
  }

  // ---------------------------------------------------------------------------
  // The engine's primitives over the table
  // ---------------------------------------------------------------------------

  /** The rows whose match against `q` equals `keep`, in table order:
      `Filter(t, q, true)` is what a find returns, `Filter(t, q, false)` is
      what a delete leaves behind. */
  function Filter(t: Table, q: Query, keep: bool): (r: Table)
    ensures forall m :: m in r <==> m in t && Matches(q, m) == keep
    ensures forall m :: multiset(r)[m] == if Matches(q, m) == keep then multiset(t)[m] else 0
    ensures (forall m :: m in t ==> Matches(q, m) == keep) ==> r == t
    ensures |r| <= |t|
  {
    if t == [] then []
    else
      assert t == [t[0]] + t[1..];
      if Matches(q, t[0]) == keep then [t[0]] + Filter(t[1..], q, keep)
      else Filter(t[1..], q, keep)
  }

  /** Fetch one matching row: the first in table order, `NotFound` if none. */
  function Take(t: Table, q: Query): (r: Result<Model>)
    ensures r.Ok? <==> exists m :: m in t && Matches(q, m)
    ensures r.Ok? ==> r.value in t && Matches(q, r.value)
    ensures r.Err? ==> r.error == NotFound
  {
    if t == [] then Err(NotFound)
    else if Matches(q, t[0]) then Ok(t[0])
    else Take(t[1..], q)
  }

  /** Set `is_published` on every row matching `q`; other rows and other
      columns are untouched. */
  function SetPublished(t: Table, q: Query, b: bool): (r: Table)
    ensures |r| == |t|
    ensures forall i :: 0 <= i < |t| ==>
      r[i] == (if Matches(q, t[i]) then t[i].(isPublished := b) else t[i])
  {
    if t == [] then []
    else [if Matches(q, t[0]) then t[0].(isPublished := b) else t[0]] + SetPublished(t[1..], q, b)
  }

  /** The number of rows a statement filtered by `q` affects. */
  function RowsAffected(t: Table, q: Query): nat {
    |Filter(t, q, true)|
  }

  // ---------------------------------------------------------------------------
  // Read-only operations of the store
  // ---------------------------------------------------------------------------

  /** A published model, by model ID, within one project. */
  function GetPublishedModelByModelIDAndProjectID(t: Table, id: string, projectID: string): (r: Result<Model>)
    ensures r.Ok? <==> exists m :: m in t && m.modelID == id && m.projectID == projectID && m.isPublished
    ensures r.Ok? ==> r.value in t && r.value.modelID == id && r.value.projectID == projectID && r.value.isPublished
    ensures r.Err? ==> r.error == NotFound
  {
    Take(t, PublishedByModelIDAndProjectID(id, projectID))
  }

  /** Any model, by model ID. */
  function GetModelByModelID(t: Table, id: string): (r: Result<Model>)
    ensures r.Ok? <==> exists m :: m in t && m.modelID == id
    ensures r.Ok? ==> r.value in t && r.value.modelID == id
    ensures r.Err? ==> r.error == NotFound
  {
    Take(t, ByModelID(id))
  }

  /** A published model, by model ID, in any project. */
  function GetPublishedModelByModelID(t: Table, id: string): (r: Result<Model>)
    ensures r.Ok? <==> exists m :: m in t && m.modelID == id && m.isPublished
    ensures r.Ok? ==> r.value in t && r.value.modelID == id && r.value.isPublished
    ensures r.Err? ==> r.error == NotFound
  {
    Take(t, PublishedByModelID(id))
  }

  /** The models of one project, restricted to published ones when asked. */
  function ListModelsByProjectID(t: Table, projectID: string, onlyPublished: bool): (r: seq<Model>)
    ensures forall m :: m in r <==> m in t && m.projectID == projectID && (onlyPublished ==> m.isPublished)
    ensures forall m :: multiset(r)[m] == if m.projectID == projectID && (onlyPublished ==> m.isPublished)
                                          then multiset(t)[m] else 0
  {
    Filter(t, ByProjectID(projectID, onlyPublished), true)
  }

  /** The published models of every project. */
  function ListAllPublishedModels(t: Table): (r: seq<Model>)
    ensures forall m :: m in r <==> m in t && m.isPublished
    ensures forall m :: multiset(r)[m] == if m.isPublished then multiset(t)[m] else 0
  {
    Filter(t, AllPublished(), true)
  }

  // ---------------------------------------------------------------------------
  // The store object: operations that change the table
  // ---------------------------------------------------------------------------

  function FromSpec(spec: ModelSpec): Model {
    Model(spec.modelID, spec.tenantID, spec.organizationID, spec.projectID, spec.path, spec.isPublished)
  }

  class Store {
    var rows: Table

    ghost predicate Valid()
      reads this
    {
      UniqueModelIDs(rows)
    }

    constructor ()
      ensures Valid() && rows == []
    {
      rows := [];
    }

    /** Insert one row built from `spec`; the unique index on the model ID
        rejects it when the ID is taken, in whatever project. */
    method CreateModel(spec: ModelSpec) returns (r: Result<Model>)
      requires Valid()
      modifies this
      ensures Valid()
      ensures r.Ok? <==> GetModelByModelID(old(rows), spec.modelID).Err?
      ensures r.Ok? ==>
        && r.value.modelID == spec.modelID && r.value.tenantID == spec.tenantID
        && r.value.organizationID == spec.organizationID && r.value.projectID == spec.projectID
        && r.value.path == spec.path && r.value.isPublished == spec.isPublished
        && rows == old(rows) + [r.value]
        && GetModelByModelID(rows, spec.modelID) == Ok(r.value)
      ensures r.Err? ==> r.error == AlreadyExists && rows == old(rows)
    {
      var m := FromSpec(spec);
      if Filter(rows, ByModelID(m.modelID), true) != [] {
        r := Err(AlreadyExists);
      } else {
        CreateThenGet(rows, spec);
        rows := rows + [m];
        r := Ok(m);
      }
    }

    /** Delete, for good, the rows with this model ID in this project;
        `NotFound` when none matched. */
    method DeleteModel(id: string, projectID: string) returns (s: Outcome)
      requires Valid()
      modifies this
      ensures Valid()
      ensures rows == Filter(old(rows), ByModelIDAndProjectID(id, projectID), false)
      ensures |old(rows)| - |rows| == RowsAffected(old(rows), ByModelIDAndProjectID(id, projectID))
      ensures s.Fail? <==> RowsAffected(old(rows), ByModelIDAndProjectID(id, projectID)) == 0
      ensures s.Fail? ==> s.error == NotFound && rows == old(rows)
      ensures s.Pass? ==> GetModelByModelID(rows, id) == Err(NotFound)
    {
      var q := ByModelIDAndProjectID(id, projectID);
      var affected := RowsAffected(rows, q);
      FilterPreservesUniqueness(rows, q, false);
      FilterSplitsTable(rows, q);
      if affected != 0 {
        DeleteThenGet(rows, id, projectID);
      }
      rows := Filter(rows, q, false);
      if affected == 0 {
        s := Fail(NotFound);
      } else {
        s := Pass;
      }
    }

    /** Set the publish flag of the row with this model ID, in any project;
        `NotFound` when none matched. */
    method UpdateModel(id: string, isPublished: bool) returns (s: Outcome)
      requires Valid()
      modifies this
      ensures Valid()
      ensures rows == SetPublished(old(rows), ByModelID(id), isPublished)
      ensures s.Fail? <==> RowsAffected(old(rows), ByModelID(id)) == 0
      ensures s.Fail? ==> s.error == NotFound && rows == old(rows)
      ensures s.Pass? ==>
        && old(GetModelByModelID(rows, id)).Ok?
        && GetModelByModelID(rows, id) == Ok(old(GetModelByModelID(rows, id)).value.(isPublished := isPublished))
    {
      var q := ByModelID(id);
      var affected := RowsAffected(rows, q);
      SetPublishedPreservesUniqueness(rows, q, isPublished);
      if affected != 0 {
        UpdateThenGet(rows, id, isPublished);
      }
      rows := SetPublished(rows, q, isPublished);
      if affected == 0 {
        s := Fail(NotFound);
      } else {
        s := Pass;
      }
    }
  }

  // ---------------------------------------------------------------------------
  // Properties
  // ---------------------------------------------------------------------------

  /** Under the unique index, a lookup that names a model ID has at most one
      candidate, so `Take` returns exactly that row. */
  lemma TakeIsTheUniqueMatch(t: Table, q: Query, m: Model)
    requires UniqueModelIDs(t)
    requires q.modelID.Some?
    requires m in t && Matches(q, m)
    ensures Take(t, q) == Ok(m)
  {
    var r := Take(t, q).value;
    var i :| 0 <= i < |t| && t[i] == r;
    var j :| 0 <= j < |t| && t[j] == m;
    assert t[i].modelID == t[j].modelID;
  }

  /** Creating a model with an unused ID keeps the index unique, and every
      lookup then finds the new record exactly as the spec described it. */
  lemma CreateThenGet(t: Table, spec: ModelSpec)
    requires UniqueModelIDs(t)
    requires GetModelByModelID(t, spec.modelID).Err?
    ensures UniqueModelIDs(t + [FromSpec(spec)])
    ensures GetModelByModelID(t + [FromSpec(spec)], spec.modelID) == Ok(FromSpec(spec))
    ensures GetPublishedModelByModelID(t + [FromSpec(spec)], spec.modelID)
      == if spec.isPublished then Ok(FromSpec(spec)) else Err(NotFound)
    ensures GetPublishedModelByModelIDAndProjectID(t + [FromSpec(spec)], spec.modelID, spec.projectID)
      == if spec.isPublished then Ok(FromSpec(spec)) else Err(NotFound)
  {
    var m := FromSpec(spec);
    var t' := t + [m];
    forall i, j | 0 <= i < |t'| && 0 <= j < |t'| && i != j
      ensures t'[i].modelID != t'[j].modelID
    {
      if i < |t| { assert t[i] in t; }
      if j < |t| { assert t[j] in t; }
    }
    assert m in t';
    TakeIsTheUniqueMatch(t', ByModelID(spec.modelID), m);
    if spec.isPublished {
      TakeIsTheUniqueMatch(t', PublishedByModelID(spec.modelID), m);
      TakeIsTheUniqueMatch(t', PublishedByModelIDAndProjectID(spec.modelID, spec.projectID), m);
    }
  }

  /** Dropping the first row keeps the index unique, and the first row's ID
      is used by no later row. */
  lemma UniqueTail(t: Table)
    requires UniqueModelIDs(t) && t != []
    ensures UniqueModelIDs(t[1..])
    ensures forall x :: x in t[1..] ==> x.modelID != t[0].modelID
  {
    var rest := t[1..];
    forall i, j | 0 <= i < |rest| && 0 <= j < |rest| && i != j
      ensures rest[i].modelID != rest[j].modelID
    {
      assert rest[i] == t[i + 1] && rest[j] == t[j + 1];
    }
    forall x | x in rest ensures x.modelID != t[0].modelID {
      var k :| 0 <= k < |rest| && rest[k] == x;
      assert t[k + 1] == x;
    }
  }

  /** Putting a row with a fresh ID in front keeps the index unique. */
  lemma UniqueCons(x: Model, f: Table)
    requires UniqueModelIDs(f)
    requires forall y :: y in f ==> y.modelID != x.modelID
    ensures UniqueModelIDs([x] + f)
  {
    var r := [x] + f;
    forall i, j | 0 <= i < |r| && 0 <= j < |r| && i != j
      ensures r[i].modelID != r[j].modelID
    {
      if i > 0 { assert r[i] == f[i - 1]; }
      if j > 0 { assert r[j] == f[j - 1]; }
    }
  }

  /** `Filter` keeps rows in table order, so it keeps the index unique. */
  lemma {:induction false} FilterPreservesUniqueness(t: Table, q: Query, keep: bool)
    requires UniqueModelIDs(t)
    ensures UniqueModelIDs(Filter(t, q, keep))
  {
    if t != [] {
      UniqueTail(t);
      FilterPreservesUniqueness(t[1..], q, keep);
      if Matches(q, t[0]) == keep {
        UniqueCons(t[0], Filter(t[1..], q, keep));
      }
    }
  }

  /** The publish-flag update never changes a model ID, so it keeps the index unique. */
  lemma SetPublishedPreservesUniqueness(t: Table, q: Query, b: bool)
    requires UniqueModelIDs(t)
    ensures UniqueModelIDs(SetPublished(t, q, b))
  {
    var r := SetPublished(t, q, b);
    forall i, j | 0 <= i < |r| && 0 <= j < |r| && i != j
      ensures r[i].modelID != r[j].modelID
    {
      assert r[i].modelID == t[i].modelID && r[j].modelID == t[j].modelID;
    }
  }

  /** A find and the matching delete split the table: the rows a delete
      removes are exactly as many as a find with the same filter returns. */
  lemma {:induction false} FilterSplitsTable(t: Table, q: Query)
    ensures |Filter(t, q, true)| + |Filter(t, q, false)| == |t|
  {
    if t != [] {
      FilterSplitsTable(t[1..], q);
    }
  }

  /** After a delete that removed at least one row, no row with that model ID
      is left, in any project. */
  lemma DeleteThenGet(t: Table, id: string, projectID: string)
    requires UniqueModelIDs(t)
    requires RowsAffected(t, ByModelIDAndProjectID(id, projectID)) != 0
    ensures GetModelByModelID(Filter(t, ByModelIDAndProjectID(id, projectID), false), id) == Err(NotFound)
  {
    var q := ByModelIDAndProjectID(id, projectID);
    var found := Filter(t, q, true);
    var gone := found[0];
    assert gone in found;
    var j :| 0 <= j < |t| && t[j] == gone;
    var t' := Filter(t, q, false);
    forall m | m in t' ensures m.modelID != id {
      var i :| 0 <= i < |t| && t[i] == m;
      assert i != j;
    }
  }

  /** The delete is scoped by project: a row of another project is kept even
      when it carries the same model ID, and so is every row with another ID;
      a delete that matched nothing leaves the table as it was. */
  lemma DeleteKeepsOtherRows(t: Table, id: string, projectID: string, m: Model)
    requires m in t
    requires m.modelID != id || m.projectID != projectID
    ensures m in Filter(t, ByModelIDAndProjectID(id, projectID), false)
    ensures RowsAffected(t, ByModelIDAndProjectID(id, projectID)) == 0 ==>
      Filter(t, ByModelIDAndProjectID(id, projectID), false) == t
  {
    var q := ByModelIDAndProjectID(id, projectID);
    if RowsAffected(t, q) == 0 {
      assert Filter(t, q, true) == [];
    }
  }

  /** After an update that matched, the lookup by ID returns the same record
      with only the publish flag changed. */
  lemma UpdateThenGet(t: Table, id: string, b: bool)
    requires UniqueModelIDs(t)
    requires RowsAffected(t, ByModelID(id)) != 0
    ensures GetModelByModelID(t, id).Ok?
    ensures GetModelByModelID(SetPublished(t, ByModelID(id), b), id)
      == Ok(GetModelByModelID(t, id).value.(isPublished := b))
  {
    var q := ByModelID(id);
    var found := Filter(t, q, true);
    assert found[0] in found;
    var before := GetModelByModelID(t, id).value;
    var k :| 0 <= k < |t| && t[k] == before;
    var t' := SetPublished(t, q, b);
    SetPublishedPreservesUniqueness(t, q, b);
    assert t'[k] == before.(isPublished := b);
    assert t'[k] in t';
    TakeIsTheUniqueMatch(t', q, t'[k]);
  }

  /** Publishing makes a model visible to the published-only lookup;
      unpublishing hides it. */
  lemma UpdateThenGetPublished(t: Table, id: string, b: bool)
    requires UniqueModelIDs(t)
    requires RowsAffected(t, ByModelID(id)) != 0
    ensures GetPublishedModelByModelID(SetPublished(t, ByModelID(id), b), id).Ok? == b
  {
    var t' := SetPublished(t, ByModelID(id), b);
    UpdateThenGet(t, id, b);
    SetPublishedPreservesUniqueness(t, ByModelID(id), b);
    var m := GetModelByModelID(t', id).value;
    assert m.isPublished == b;
    if b {
      assert Matches(PublishedByModelID(id), m);
    } else {
      forall x | x in t' && x.modelID == id ensures !x.isPublished {
        TakeIsTheUniqueMatch(t', ByModelID(id), x);
      }
    }
  }

  /** Updating twice with the same arguments gives the table of updating
      once, and the second update matches the same rows (so reports the same
      outcome). */
  lemma UpdateIsIdempotent(t: Table, id: string, b: bool)
    ensures SetPublished(SetPublished(t, ByModelID(id), b), ByModelID(id), b) == SetPublished(t, ByModelID(id), b)
    ensures RowsAffected(SetPublished(t, ByModelID(id), b), ByModelID(id)) == RowsAffected(t, ByModelID(id))
  {
    var q := ByModelID(id);
    var once := SetPublished(t, q, b);
    var twice := SetPublished(once, q, b);
    assert |twice| == |once|;
    forall i | 0 <= i < |once| ensures twice[i] == once[i] {
    }
    SameIDsSameMatches(t, once, id);
  }

  /** Two tables that agree on the model ID of every position have the same
      number of rows matching a lookup by ID. */
  lemma {:induction false} SameIDsSameMatches(t: Table, u: Table, id: string)
    requires |t| == |u|
    requires forall i :: 0 <= i < |t| ==> t[i].modelID == u[i].modelID
    ensures RowsAffected(t, ByModelID(id)) == RowsAffected(u, ByModelID(id))
  {
    if t != [] {
      SameIDsSameMatches(t[1..], u[1..], id);
    }
  }

  /** Listings do not depend on the order of the rows: the same rows in any
      order give the same listings, up to order. */
  lemma ListingsIgnoreOrder(t: Table, u: Table, projectID: string, onlyPublished: bool)
    requires multiset(t) == multiset(u)
    ensures multiset(ListModelsByProjectID(t, projectID, onlyPublished))
         == multiset(ListModelsByProjectID(u, projectID, onlyPublished))
    ensures multiset(ListAllPublishedModels(t)) == multiset(ListAllPublishedModels(u))
  {
    var a, b := ListModelsByProjectID(t, projectID, onlyPublished), ListModelsByProjectID(u, projectID, onlyPublished);
    assert forall m :: multiset(a)[m] == multiset(b)[m];
    var c, d := ListAllPublishedModels(t), ListAllPublishedModels(u);
    assert forall m :: multiset(c)[m] == multiset(d)[m];
  }

  /** Lookups do not depend on the order of the rows either, as long as the
      unique index holds. */
  lemma GetIgnoresOrder(t: Table, u: Table, id: string)
    requires UniqueModelIDs(t) && UniqueModelIDs(u)
    requires multiset(t) == multiset(u)
    ensures GetModelByModelID(t, id) == GetModelByModelID(u, id)
  {
    var r := GetModelByModelID(t, id);
    if r.Ok? {
      assert r.value in multiset(t);
      TakeIsTheUniqueMatch(u, ByModelID(id), r.value);
    } else {
      forall m | m in u ensures m.modelID != id {
        assert m in multiset(u);
        assert m in t;
      }
    }
  }
}
