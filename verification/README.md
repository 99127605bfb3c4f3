# Model registry store

A Dafny model of the model registry store of the model-repository server
(`server/internal/store/model.go`). The store keeps a table of `Model` records.
Each record has a model ID, tenant, organization and project IDs, an artifact
path and a publish flag. The model ID is globally unique: a unique index
enforces it. The store offers:

- `CreateModel`: insert a record built from a `ModelSpec`;
- three lookups by model ID: any record, a published one, or a published one
  in a given project;
- two listings: the records of one project (optionally only the published
  ones), and the published records of every project;
- `UpdateModel`: set the publish flag of the record with a given model ID;
- `DeleteModel`: hard-delete the records that match both a model ID and a
  project ID.

Every lookup, listing, update and delete the store sends to the database is
filtered by a conjunction of `Where` clauses. Update and delete then check
how many rows they affected. `CreateModel` is an insert with no filter; only
the unique index on the model ID can reject it. The model states each
statement over an in-memory table in those terms:

- `Table` is the sequence of live rows. The invariant `UniqueModelIDs` is the
  unique index on the model ID.
- `Query` is one statement's filter: an optional model ID, an optional
  project ID and a published-only flag. `Matches` is the filter's meaning.
- The database primitives are these functions:
  - `Filter(t, q, true)` is what a find returns;
  - `Filter(t, q, false)` is what a delete leaves;
  - `Take` fetches one matching row, or fails with `NotFound`;
  - `SetPublished` updates one column of every matching row;
  - `RowsAffected` is the number of rows a statement matched.
- The lookups and listings are functions over the table, since they only
  read. Create, update and delete change the stored table. They are methods
  of the class `Store`, which holds the table in its field `rows` and keeps
  `UniqueModelIDs` as its invariant `Valid()`. `Store` stands for the Go
  type `S`.
- Errors are the datatype `Error`. `NotFound` is the "record not found"
  error. The three lookups get it from the database when no row matches.
  Update and delete produce it themselves when the row count is zero
  (model.go:104-106 and :116-118). `AlreadyExists` is a violation of the
  unique index.

The doc comments on `GetPublishedModelByModelIDAndProjectID` and `DeleteModel`
(model.go:48 and :98) speak of a "tenant ID". Both functions filter on the
project ID. The model follows the code.

Line 112 writes its filter as `Where("model_id", modelID)`. The model reads
this as the equality `model_id = modelID`, like the other lookups by ID.

## Model

| member | source | states |
|---|---|---|
| `ModelStore.Filter` | server/internal/store/model.go:76-87 | a find returns exactly the matching rows, with their multiplicities; a delete leaves exactly the non-matching ones; a filter that every row passes returns the table unchanged |
| `ModelStore.Take` | server/internal/store/model.go:58-64 | fetching one row succeeds iff some row matches, returns a matching stored row, and otherwise fails `NotFound` |
| `ModelStore.SetPublished` | server/internal/store/model.go:112 | the update keeps the table's length; a matching row gets the new publish flag with every other column kept; a non-matching row is unchanged |
| `ModelStore.GetPublishedModelByModelIDAndProjectID` | server/internal/store/model.go:49-55 | succeeds iff a stored record has this model ID and project and is published; returns such a record; otherwise fails `NotFound` |
| `ModelStore.GetModelByModelID` | server/internal/store/model.go:58-64 | succeeds iff a stored record has this model ID; returns such a record; otherwise fails `NotFound` |
| `ModelStore.GetPublishedModelByModelID` | server/internal/store/model.go:67-73 | succeeds iff a stored record has this model ID and is published, in any project; returns such a record; otherwise fails `NotFound` |
| `ModelStore.ListModelsByProjectID` | server/internal/store/model.go:76-87 | returns exactly the records of the project, only the published ones when `onlyPublished` holds, each as often as it is stored; no record of another project appears |
| `ModelStore.ListAllPublishedModels` | server/internal/store/model.go:90-96 | returns exactly the published records of every project, each as often as it is stored |
| `ModelStore.Store.CreateModel` | server/internal/store/model.go:33-46 | succeeds iff no record has the model ID, in any project. On success it appends one record whose six fields equal the spec, and the lookup by ID returns that record. On a taken ID it fails `AlreadyExists` with the table unchanged. It keeps the unique index. |
| `ModelStore.Store.DeleteModel` | server/internal/store/model.go:99-108 | removes exactly the rows matching both the model ID and the project, as many as it matched. It fails `NotFound` iff none matched, with the table unchanged. On success the lookup by ID then fails `NotFound`. It keeps the unique index. |
| `ModelStore.Store.UpdateModel` | server/internal/store/model.go:111-120 | sets the publish flag of the rows with the model ID and changes nothing else. It fails `NotFound` iff none matched, with the table unchanged. On success the lookup by ID returns the old record with only the flag changed. It keeps the unique index. |
| `ModelStore.TakeIsTheUniqueMatch` | server/internal/store/model.go:11-12 | under the unique index, any lookup naming a model ID returns the one record that matches it |
| `ModelStore.CreateThenGet` | server/internal/store/model.go:33-46 | creating with an unused ID keeps the index unique. The lookup by ID then returns the new record. The two published lookups return it iff the spec was published, and otherwise fail `NotFound`. |
| `ModelStore.FilterPreservesUniqueness` | server/internal/store/model.go:100 | a find or a delete of a table with unique model IDs yields a table with unique model IDs |
| `ModelStore.SetPublishedPreservesUniqueness` | server/internal/store/model.go:112 | the publish-flag update keeps the model IDs unique |
| `ModelStore.FilterSplitsTable` | server/internal/store/model.go:100-106 | the rows a delete removes are exactly as many as the rows a find with the same filter returns |
| `ModelStore.DeleteThenGet` | server/internal/store/model.go:99-108 | after a delete that matched a row, no record with that model ID remains in any project, so the lookup by ID fails `NotFound` |
| `ModelStore.DeleteKeepsOtherRows` | server/internal/store/model.go:100-106 | a delete keeps every row of another project or with another model ID; a delete that matched nothing leaves the table as it was |
| `ModelStore.UpdateThenGet` | server/internal/store/model.go:111-120 | after an update that matched, the lookup by ID returns the previous record with only the publish flag changed |
| `ModelStore.UpdateThenGetPublished` | server/internal/store/model.go:67-73 | after an update that matched, the published lookup by ID succeeds iff the new flag is true |
| `ModelStore.UpdateIsIdempotent` | server/internal/store/model.go:111-120 | a second identical update gives the same table as the first, and matches as many rows, so it reports the same outcome |
| `ModelStore.SameIDsSameMatches` | server/internal/store/model.go:116-118 | tables that agree position by position on model IDs have the same number of rows matching a lookup by ID |
| `ModelStore.ListingsIgnoreOrder` | server/internal/store/model.go:76-96 | the same rows in any order give the same listings, up to order |
| `ModelStore.GetIgnoresOrder` | server/internal/store/model.go:58-64 | under the unique index, the same rows in any order give the same result for the lookup by ID |

## Left out

- The HF repository registrar (`GetHFModelRepo` and `CreateHFModelRepo`, exercised by `server/internal/server/hf_model_repos_test.go`) is not part of this model. The registrar is a separate component with its own store and handler. It lies outside `model.go`, and its behaviour on a duplicate name is not defined.
- The persisted-entity base fields are not modelled: the auto-increment row ID, the creation and update timestamps, and the soft-delete marker. No operation of the store soft-deletes, and `DeleteModel` hard-deletes, so the table holds only live rows.
- The database connection, query building and transactions are not modelled. Neither are generic backend failures (connectivity, other constraint errors), which the store passes to its caller unchanged. Every operation here either succeeds or fails with `NotFound` or `AlreadyExists`.
- `RowsAffected` is modelled as the number of matching rows. The update also sets the update timestamp, so every matched row is changed, whatever the driver counts.
- `ModelStore.Take`: when several rows match, the database may return any of them; the model returns the first in table order. Every lookup of the store names a model ID, so under the unique index at most one row matches (`TakeIsTheUniqueMatch`), and the choice never shows.
- Model and project IDs are compared as exact strings, as the SQLite and Postgres engines the store runs on compare them. A case-insensitive collation would change the lookups and the unique index, and is not modelled.
- Concurrency is not modelled. That two concurrent creates with the same ID see exactly one success is the database's unique index, checked atomically; here operations run one at a time.
- Tenant and organization IDs are stored but never used as filters, as in the code. The caller's authorization is not modelled.
