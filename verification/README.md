# Listing and point operations of the `Noticia` and `Slider` scaffolds

This project models the GraphQL resolvers of the two scaffolded entity kinds of
the que-pelicula-ver API, `Noticia` (news items) and `Slider` (home-page
slides). Each kind keeps its records in one partition of a DynamoDB table,
sorted by the `SK` sort key, which is the record's `mdbid` id. The resolvers are:

- `get{Entity}`: a point lookup by id.
- `list{Entities}`: cursor-based pagination.
- `create{Entity}`, `update{Entity}` and `delete{Entity}`: point writes.

Both kinds run the same resolver code apart from their names, so the model is
generic in the entity. `Resolvers.Noticia` and `Resolvers.Slider` instantiate it
with each kind's name and update-input fields.

- `keys.dfy`, module `KeyOrder`: the string order of sort keys. It is a strict total order.
- `records.dfy`, module `Records`:
  - the stored record, the errors, and the `Result` type;
  - a partition as a sequence strictly ascending by key;
  - lookup by key.
- `range_scan.dfy`, module `RangeScan`: the store's range query (strict `gt`/`lt` bounds, ascending or reversed, at most `n` records) and what it promises.
- `pagination.dfy`, module `Pagination`:
  - `ListPage`, the shared body of `listNoticias` and `listSliders`;
  - the properties of the first page, of `after` pages and of `before` pages;
  - a client that follows `meta.after` to the end;
  - the record that chaining `before` skips.
- `crud.dfy`, module `Crud`: `get`, `create`, `update` and `delete` as transitions of the partition, and their effects.
- `resolvers.dfy`, module `Resolvers`: the two entities, and how writes show up in listings.
- `scenarios.dfy`, module `Scenarios`: the integration tests' flows, for arbitrary records of the shape the tests create.

The listing keeps the resolvers' behaviour exactly, including the requests on which they throw:

- **Missing-item failures.** A scan that comes back empty under an `after` or `before` cursor reads `Items[0].id` of nothing (`NoticiasQuery.ts:83` and `:106`), so listing throws instead of returning an empty page. Both are `MissingItem` errors.
- **Limit 0.** Without `before`, `limit: 0` with records left reads `Items[-1].id` and throws. With `before`, the page is empty and `meta.after` and `meta.before` both name the record just before the cursor; only a cursor with nothing before it throws (`NoticiasQuery.ts:76-83`, `Pagination.BeforeLimitZero`).
- **Cursor precedence.** A `before` cursor wins over an `after` cursor given alongside it (`NoticiasQuery.ts:66`).
- **`meta.before` of a `before` page.** It names the record just ahead of the page, `Items[limit]` (`NoticiasQuery.ts:80`), not the page's first record. Following it lists the `limit` records that precede the named record, and the named record is on neither page (`Pagination.PageBefore`, `Pagination.BeforeChainSkips`, `Scenarios.BeforeChainExample`).
- **Cursor truthiness.** A cursor counts only when it is truthy in JavaScript: absent and `""` are both no cursor.

## Model

The `sliders/` resolvers and integration tests match the `noticias/` ones line for line, apart from the entity name. Each row below that cites a `noticias/` resolver or test holds equally for the same lines of its `sliders/` counterpart. The two entity files differ in their content fields, and each kind has its own row.

| member | source | states |
|---|---|---|
| Crud.Get | que-pelicula-ver-api/api/code/graphql/src/plugins/scaffolds/noticias/resolvers/NoticiasQuery.ts:42-50 | a lookup succeeds only with a stored record under that id, and fails with the entity's not-found error exactly when no record has that key; it returns no new partition, so nothing changes |
| Crud.GetStored | que-pelicula-ver-api/api/code/graphql/src/plugins/scaffolds/noticias/resolvers/NoticiasQuery.ts:44-49 | every stored record of a valid partition is returned by `get` of its own id |
| Pagination.ListPage | que-pelicula-ver-api/api/code/graphql/src/plugins/scaffolds/noticias/resolvers/NoticiasQuery.ts:60-110 | `meta.limit` echoes the limit (10 when absent) and bounds `data`; without cursors `meta.before` is unset; with `before` `meta.after` is always set; with only `after` the page is non-empty and `meta.before` is its first id; the only failures are reads of missing items |
| Pagination.FirstPage | que-pelicula-ver-api/api/code/graphql/src/plugins/scaffolds/noticias/resolvers/NoticiasQuery.ts:96-103 | without cursors the page is the first min(limit, n) records in sort order (descending unless `createdOn_ASC`), `meta.before` is unset, and `meta.after` is the last shown id exactly when more records exist; it fails iff limit is 0 and a record exists |
| Pagination.ForwardPage | que-pelicula-ver-api/api/code/graphql/src/plugins/scaffolds/noticias/resolvers/NoticiasQuery.ts:88-107 | a request without `before` lists the first `limit` of the records beyond the `after` cursor in scan order (all of them without a cursor), failing for limit 0 with records left or for a cursor with nothing beyond it |
| Pagination.AfterPage | que-pelicula-ver-api/api/code/graphql/src/plugins/scaffolds/noticias/resolvers/NoticiasQuery.ts:88-107 | with an `after` cursor every shown record is stored and strictly beyond the cursor (never the cursor itself), in scan order, nearer than every beyond-cursor record left out; `meta.before` is the first shown id; it succeeds iff limit >= 1 and some record lies beyond |
| Pagination.BeforePage | que-pelicula-ver-api/api/code/graphql/src/plugins/scaffolds/noticias/resolvers/NoticiasQuery.ts:66-86 | `before` wins over `after`: the page is the last `limit` of the records preceding the cursor, in presentation order, with `meta.after` at the last of them and `meta.before` at the record just ahead of the page when more precede; nothing preceding is a failure |
| Pagination.BeforePageShape | que-pelicula-ver-api/api/code/graphql/src/plugins/scaffolds/noticias/resolvers/NoticiasQuery.ts:66-86 | a `before` page holds stored records strictly preceding the cursor, in sort order, nearer the cursor than any preceding record left out; `meta.before` is set iff more than `limit` precede and then names a preceding stored record that is not on the page |
| Pagination.PageAt | que-pelicula-ver-api/api/code/graphql/src/plugins/scaffolds/noticias/resolvers/NoticiasQuery.ts:88-103 | the `after` cursor a page hands out lands exactly on the next `limit` records of the sort order, with `meta.after` at the last of them iff more remain |
| Pagination.PageBefore | que-pelicula-ver-api/api/code/graphql/src/plugins/scaffolds/noticias/resolvers/NoticiasQuery.ts:66-85 | a `before` cursor naming the record at position k lists exactly the last `limit` of the records before position k |
| Pagination.BeforeLimitZero | que-pelicula-ver-api/api/code/graphql/src/plugins/scaffolds/noticias/resolvers/NoticiasQuery.ts:76-83 | `limit: 0` under a `before` cursor at position k fails iff k is 0; otherwise the page is empty and `meta.after` and `meta.before` both name the record at position k - 1 |
| Pagination.FollowAfter | que-pelicula-ver-api/api/code/graphql/src/plugins/scaffolds/noticias/resolvers/NoticiasQuery.ts:88-103 | a client that follows `meta.after` from the first page until it is unset receives every record exactly once, in sort order, and no request fails |
| Pagination.BeforeChainSkips | que-pelicula-ver-api/api/code/graphql/src/plugins/scaffolds/noticias/resolvers/NoticiasQuery.ts:78-81 | the record named by a `before` page's `meta.before` lies between that page and the next `before` page yet is on neither |
| Pagination.PageFromStore | que-pelicula-ver-api/api/code/graphql/src/plugins/scaffolds/noticias/resolvers/NoticiasQuery.ts:60-110 | every page, whatever its arguments, shows only stored records |
| Pagination.ForwardOutcomeShape | que-pelicula-ver-api/api/code/graphql/src/plugins/scaffolds/noticias/resolvers/NoticiasQuery.ts:96-107 | what the page makes of the records remaining beyond the cursor: it shows the first `limit` of them, `meta.after` is set iff more than `limit` remain and names the last shown, and `meta.before` is set iff a cursor was given and names the first shown |
| Pagination.BeforeOutcomeShape | que-pelicula-ver-api/api/code/graphql/src/plugins/scaffolds/noticias/resolvers/NoticiasQuery.ts:74-85 | what the page makes of the records preceding the cursor: it fails iff there are none, and otherwise shows min(`limit`, n) of them in sort order, the ones nearest the cursor; with `limit >= 1` `meta.after` names the last shown; `meta.before` is set iff more than `limit` precede, and then names a preceding record that is not shown |
| RangeScan.RangeQuerySpec | que-pelicula-ver-api/api/code/graphql/src/plugins/scaffolds/noticias/resolvers/NoticiasQuery.ts:96 | the range query the resolvers rely on: results are stored and strictly inside the bounds, in scan order, complete when fewer than `n` come back, and nearer than every in-range record left out |
| RangeScan.BeyondAt | que-pelicula-ver-api/api/code/graphql/src/plugins/scaffolds/noticias/resolvers/NoticiasQuery.ts:88-94 | the strict bound an `after` cursor sets leaves exactly the records after the cursor record in scan order |
| RangeScan.BehindAt | que-pelicula-ver-api/api/code/graphql/src/plugins/scaffolds/noticias/resolvers/NoticiasQuery.ts:66-72 | the inverted strict bound a `before` cursor sets leaves exactly the records before the cursor record |
| RangeScan.WindowReverse | que-pelicula-ver-api/api/code/graphql/src/plugins/scaffolds/noticias/resolvers/NoticiasQuery.ts:67-76 | filtering by the bounds commutes with reading backwards, so the inverted scan reversed back is the presentation order |
| Crud.NewRecord | que-pelicula-ver-api/api/code/graphql/src/plugins/scaffolds/noticias/resolvers/NoticiasMutation.ts:52-60 | the built record takes PK from the partition, SK and id from the new id, the two clock readings and the version; every other field `data` sets to a string is kept unchanged, fields set to `null` are absent, and no system field comes from `data` |
| Crud.Create | que-pelicula-ver-api/api/code/graphql/src/plugins/scaffolds/noticias/resolvers/NoticiasMutation.ts:47-65 | create returns the record built from its inputs and writes it: afterwards a lookup of the new id finds exactly that record, the partition grows by at most one record, and it stays valid |
| Crud.CreateThenGet | que-pelicula-ver-api/api/code/graphql/src/plugins/scaffolds/noticias/resolvers/NoticiasMutation.ts:63-65 | after create, `get` of the new id returns what create returned |
| Crud.CreateEffect | que-pelicula-ver-api/api/code/graphql/src/plugins/scaffolds/noticias/resolvers/NoticiasMutation.ts:63 | with an unused id the partition gains exactly the new record: one more record, every old record kept, every other key reads as before |
| Crud.CreateAppends | que-pelicula-ver-api/api/code/graphql/src/plugins/scaffolds/noticias/resolvers/NoticiasMutation.ts:48-50 | an id above every stored key (as `mdbid` yields) appends the new record at the end of the partition |
| Crud.Update | que-pelicula-ver-api/api/code/graphql/src/plugins/scaffolds/noticias/resolvers/NoticiasMutation.ts:73-85 | a missing id fails with not-found and leaves the partition unchanged; otherwise the result keeps PK, SK, id, createdOn, savedOn and webinyVersion, takes every field `data` sets to a string, drops every field `data` sets to `null`, keeps every old field `data` does not name, and the partition stays valid |
| Crud.UpdateThenGet | que-pelicula-ver-api/api/code/graphql/src/plugins/scaffolds/noticias/resolvers/NoticiasMutation.ts:80-85 | after a successful update, `get` returns exactly the record update returned, so the stored and returned values agree |
| Crud.UpdateInPlace | que-pelicula-ver-api/api/code/graphql/src/plugins/scaffolds/noticias/resolvers/NoticiasMutation.ts:83 | a successful update replaces the record in place: same positions, nothing else changes |
| Crud.Delete | que-pelicula-ver-api/api/code/graphql/src/plugins/scaffolds/noticias/resolvers/NoticiasMutation.ts:92-102 | a missing id fails with not-found and leaves the partition unchanged; otherwise it returns the stored record under that id and removes it: the partition loses exactly one record, the id no longer reads, every other key reads as before, and the partition stays valid |
| Crud.DeleteThenGet | que-pelicula-ver-api/api/code/graphql/src/plugins/scaffolds/noticias/resolvers/NoticiasMutation.ts:100 | after a successful delete, `get` of that id fails with not-found |
| Crud.DeleteEffect | que-pelicula-ver-api/api/code/graphql/src/plugins/scaffolds/noticias/resolvers/NoticiasMutation.ts:100-102 | delete returns the pre-deletion snapshot and removes exactly that record: the others keep their order and every other key reads as before |
| Crud.UpsertFind | que-pelicula-ver-api/api/code/graphql/src/plugins/scaffolds/noticias/resolvers/NoticiasMutation.ts:63 | a write stores the record under its key and changes the lookup of no other key |
| Crud.RemoveFind | que-pelicula-ver-api/api/code/graphql/src/plugins/scaffolds/noticias/resolvers/NoticiasMutation.ts:100 | a removal empties its key and changes the lookup of no other key |
| Crud.UpsertHas | que-pelicula-ver-api/api/code/graphql/src/plugins/scaffolds/noticias/resolvers/NoticiasMutation.ts:83 | after a write the partition holds the written record and exactly the old records under other keys |
| Crud.RemoveHas | que-pelicula-ver-api/api/code/graphql/src/plugins/scaffolds/noticias/resolvers/NoticiasMutation.ts:100 | after a removal the partition holds exactly the old records under other keys |
| Crud.UpsertMonotone | que-pelicula-ver-api/api/code/graphql/src/plugins/scaffolds/noticias/resolvers/NoticiasMutation.ts:63 | a write keeps the partition in strictly ascending key order |
| Crud.RemoveMonotone | que-pelicula-ver-api/api/code/graphql/src/plugins/scaffolds/noticias/resolvers/NoticiasMutation.ts:100 | a removal keeps the partition in strictly ascending key order |
| Records.Find | que-pelicula-ver-api/api/code/graphql/src/plugins/scaffolds/noticias/resolvers/NoticiasQuery.ts:44 | a lookup by key finds a stored record with that key, and finds nothing exactly when no record has it |
| Records.FindAt | que-pelicula-ver-api/api/code/graphql/src/plugins/scaffolds/noticias/resolvers/NoticiasQuery.ts:44 | keys are unique in a partition, so a lookup finds exactly the record holding the key |
| Resolvers.NoticiaRoundTrip | que-pelicula-ver-api/api/code/graphql/src/plugins/scaffolds/noticias/resolvers/NoticiasMutation.ts:47-85 | for any `NoticiaUpdateInput`, `createNoticia` files the record under the partition key and `getNoticia` returns what it returned; a successful `updateNoticia` is read back the same way, and one on an unknown id throws the `Noticia` not-found error |
| Resolvers.SliderRoundTrip | que-pelicula-ver-api/api/code/graphql/src/plugins/scaffolds/sliders/resolvers/SlidersMutation.ts:47-85 | for any `SliderUpdateInput`, `createSlider` files the record under the partition key and `getSlider` returns what it returned; a successful `updateSlider` is read back the same way, and one on an unknown id throws the `Slider` not-found error |
| Resolvers.DeleteThenList | que-pelicula-ver-api/api/code/graphql/src/plugins/scaffolds/noticias/resolvers/NoticiasMutation.ts:100 | after a successful delete no listing shows the deleted record, whatever its arguments, and every listed record was stored before |
| Resolvers.CreateListsFirst | que-pelicula-ver-api/api/code/graphql/src/plugins/scaffolds/noticias/resolvers/NoticiasMutation.ts:48-63 | a record just created with an `mdbid` id heads the default newest-first listing, followed by the previous first page shifted down by one |
| Scenarios.ThreeDescending | que-pelicula-ver-api/api/code/graphql/src/plugins/scaffolds/noticias/__tests__/crud.integration.test.ts:127-179 | three records, two per page, newest first: [r2, r1] with `meta.after` r1; `after` r1 gives [r0] with `meta.before` r0; `before` r0 gives [r2, r1] back with no `meta.before` |
| Scenarios.ThreeAscending | que-pelicula-ver-api/api/code/graphql/src/plugins/scaffolds/noticias/__tests__/crud.integration.test.ts:181-236 | the same walk with `createdOn_ASC`: [r0, r1]; then [r2] with `meta.before` r2; then `before` r2 gives [r0, r1] |
| Scenarios.CrudFlow | que-pelicula-ver-api/api/code/graphql/src/plugins/scaffolds/noticias/__tests__/crud.integration.test.ts:60-125 | three creates list newest first under the default limit 10; deleting the middle record returns it and drops it from the listing; the update merges the new fields, and `get` returns the merged record |
| Scenarios.OnePage | que-pelicula-ver-api/api/code/graphql/src/plugins/scaffolds/noticias/__tests__/crud.integration.test.ts:64-73 | up to ten records fit on the default first page, newest first, with both cursors unset |
| Scenarios.BeforeChainExample | que-pelicula-ver-api/api/code/graphql/src/plugins/scaffolds/noticias/resolvers/NoticiasQuery.ts:78-83 | five records, newest first, two per page: `before` r0 gives [r2, r1] with `meta.before` r3, and `before` r3 gives [r4], so r3 is never shown |

## Left out

- DynamoDB and the dynamodb-toolbox entity calls are replaced by a partition held as a sorted sequence (`RangeQuery`, `Find`, `Upsert`, `Remove`). The following are not modelled:
  - the 1 MB response truncation and `LastEvaluatedKey`, which the resolvers never read;
  - write failures;
  - concurrent requests. Reads are modelled as strongly consistent, so every read sees the latest write. The resolvers' `get` and `query` calls do not ask for a consistent read (`NoticiasQuery.ts:44`, `:74`, `:96`), so DynamoDB may serve them stale data shortly after a write. `CreateThenGet`, `UpdateThenGet`, `DeleteThenGet`, `DeleteThenList` and the scenarios rely on reads seeing the latest write.
- `mdbid()`, the two `new Date().toISOString()` readings and `process.env.WEBINY_VERSION` are parameters of `Create`. An unset version is `None`.
- `getPK()` lives in the `NoticiasResolver` and `SlidersResolver` base classes, which are not part of this model. The partition key is a parameter of `Resolvers.Noticia` and `Resolvers.Slider`. The model keeps one partition, so addressing by `{ PK, SK }` becomes lookup by sort key.
- The GraphQL layer is not modelled: schema validation of arguments, the transport, `async`/`Promise` plumbing, and the `typeDefs` declarations. In particular:
  - `limit` is an optional natural number, so negative, fractional and explicit-`null` limits are left out;
  - an explicit `null` `sort` reads as an absent one.
- The toolkit's filtering of unknown attributes on `put` is not modelled. A created record keeps every non-system field of `data`, as the returned object does.
- An empty id is not rejected by the store in this model. `Get`, `Update` and `Delete` report it as not found.
- Crud.Update: requires that `data` names only the entity's update-input fields (`Admits`), none of which is a system field, as the schema's update input type demands. The spread would otherwise let `data` overwrite `PK`, `SK`, `id` or the timestamps.
- Records keep content fields as a string map, and a request's `data` as a map to optional strings. A field that is `null` or unset is an absent key of the record; a `null` in `data` clears the field. The content fields' GraphQL types (`String!` versus `String`) are not modelled.
