# rckt_snooze handlers in Dafny

This project models three request handlers of the rckt_snooze REST API
server as pure Dafny functions and proves what their code promises.

- **RedisHandler** caches GET responses in Redis. It builds the cache key
  from the request URL and the query parameters in name order. It decides,
  per request, whether to serve a cached value, run the rest of the chain
  and store its answer, or bypass the cache. It keeps one connection pool
  per host/port/settings key.
- **SqlDeleteAction** deletes SQL rows. A request names one row, a batch of
  rows (RQL filters, allowed by the collection's allow and deny lists), or a
  JSON array of URLs of the same collection, each served as a nested delete.
  Every delete adds a `SELECT` of the ids to the batch lists it finds in the
  chain's variables. The root request then joins the batch with `UNION`,
  selects the ids, issues one `DELETE … IN (…)` and records one change per id.
  The `finally` block that removes the lists is modelled twice: as written,
  where every call removes them, and as intended, where only the root does.
- **ElasticDb** reflects an Elasticsearch cluster:
  - every alias becomes a table, shared by the indexes that carry it;
  - every `_doc` mapping is flattened into columns named by their dotted path;
  - every table becomes a collection whose attributes mirror its columns.

  A failed fetch reports the status `SC_MAP` gives its HTTP code.

Files:

- `api.dfy` (`Api`): `Option`, `Result`, `ApiError` and the HTTP status codes.
- `strings.dfy` (`Strings`): the `java.lang.String` operations used:
  - `indexOf`, `trim`, `startsWith`, `toLowerCase` and `equalsIgnoreCase`;
  - `replaceAll` with a literal pattern;
  - `String.valueOf` of a long and `Long.parseLong`.
- `string_order.dfy` (`StringOrder`): `String.compareTo`, which orders a `TreeMap`.
- `redis_handler.dfy` (`RedisHandler`): the cache key, the service decision and the pool registry.
- `sql_delete.dfy` (`SqlDelete`): `service`, `findIds` and `delete`.
- `elastic_db.dfy` (`ElasticDb`): `addColumns`, `buildAliasTables`, `reflectDb`, `configApi` and `SC_MAP`.

The source paths below are relative to the repository root:

- RedisHandler is `src/main/java/io/rcktapp/api/handler/redis/RedisHandler.java`.
- SqlDeleteAction is `src/main/java/io/rocketpartners/cloud/handler/sql/SqlDeleteAction.java`.
- ElasticDb is `src/main/java/io/rcktapp/api/handler/elastic/ElasticDb.java`.

## Model

| member | source | states |
|---|---|---|
| StringOrder.Irreflexive | src/main/java/io/rcktapp/api/handler/redis/RedisHandler.java:171 | no parameter name sorts before itself in the `TreeMap` |
| StringOrder.Asymmetric | src/main/java/io/rcktapp/api/handler/redis/RedisHandler.java:171 | two names never each sort before the other |
| StringOrder.Transitive | src/main/java/io/rcktapp/api/handler/redis/RedisHandler.java:171 | the name order is transitive |
| StringOrder.Total | src/main/java/io/rcktapp/api/handler/redis/RedisHandler.java:171 | of two different names one sorts first, so the `TreeMap` order is a strict total order |
| RedisHandler.Insert | src/main/java/io/rcktapp/api/handler/redis/RedisHandler.java:171-173 | putting a parameter into the sorted map keeps the same entries plus the new one (as a multiset) |
| RedisHandler.TreeOrder | src/main/java/io/rcktapp/api/handler/redis/RedisHandler.java:171-173 | the `TreeMap` holds exactly the request's parameters, none lost or invented |
| RedisHandler.InsertSorted | src/main/java/io/rcktapp/api/handler/redis/RedisHandler.java:171-173 | inserting a parameter with a new name into a sorted list keeps it sorted by `compareTo` |
| RedisHandler.TreeOrderSorted | src/main/java/io/rcktapp/api/handler/redis/RedisHandler.java:171-177 | iteration runs in strictly ascending name order |
| RedisHandler.SortedUnique | src/main/java/io/rcktapp/api/handler/redis/RedisHandler.java:171-177 | two name-sorted lists with the same entries are equal: the sorted order is determined by the entries alone |
| RedisHandler.ParamMapEntries | src/main/java/io/rcktapp/api/handler/redis/RedisHandler.java:171-173 | two requests with the same parameter map hold the same entries |
| RedisHandler.TreeOrderIndependentOfInsertion | src/main/java/io/rcktapp/api/handler/redis/RedisHandler.java:171-177 | the iteration order depends only on the parameter map, not on the order the parameters arrived in |
| RedisHandler.Renders | src/main/java/io/rcktapp/api/handler/redis/RedisHandler.java:187-192 | a parameter is written `name=value`, or just `name` when its value is empty |
| RedisHandler.ParamsLoop | src/main/java/io/rcktapp/api/handler/redis/RedisHandler.java:177-194 | the loop only appends to what it has built; its first addition is `?` for the first entry and `&` for any later one |
| RedisHandler.ParamsLoopRest | src/main/java/io/rcktapp/api/handler/redis/RedisHandler.java:175-194 | after the first parameter every further one is written after `&` |
| RedisHandler.ParamsLoopIsQueryString | src/main/java/io/rcktapp/api/handler/redis/RedisHandler.java:175-194 | the loop writes `?` and then the parameters joined by `&`, and nothing when there are none |
| RedisHandler.AfterScheme | src/main/java/io/rcktapp/api/handler/redis/RedisHandler.java:196-197 | the key is the URL after its first `://`; without one, `indexOf` gives -1 and the key starts at offset 2, which needs a URL of at least two characters |
| RedisHandler.CacheKey | src/main/java/io/rcktapp/api/handler/redis/RedisHandler.java:169-202 | the key is the URL after the scheme, then the path, then `?` and the parameters in name order joined by `&`; a URL too short for the offset is an error |
| RedisHandler.CacheKeyWithoutParams | src/main/java/io/rcktapp/api/handler/redis/RedisHandler.java:173-199 | a request without parameters gets a key without `?`: the URL after the scheme followed by the path |
| RedisHandler.CacheKeyIndependentOfInsertion | src/main/java/io/rcktapp/api/handler/redis/RedisHandler.java:169-202 | requests with the same URL and parameter map share one cache key, whatever the parameter order |
| RedisHandler.CacheKeyListsSortedParams | src/main/java/io/rcktapp/api/handler/redis/RedisHandler.java:169-202 | the key lists each parameter exactly once, in ascending name order |
| RedisHandler.RemoveParam | src/main/java/io/rcktapp/api/handler/redis/RedisHandler.java:84-85 | the `nocache` parameter is dropped and every other parameter is kept |
| RedisHandler.Read | src/main/java/io/rcktapp/api/handler/redis/RedisHandler.java:103-111 | a value is read iff taking a connection and reading both succeed and the key is present; it is the stored string |
| RedisHandler.Store | src/main/java/io/rcktapp/api/handler/redis/RedisHandler.java:133-143 | only a 200 answer with a body is stored, under the key with the TTL, when a connection is held and `setex` succeeds; no other key changes, and a failure leaves the cache as it was |
| RedisHandler.Service | src/main/java/io/rcktapp/api/handler/redis/RedisHandler.java:72-162 | the decision table: non-GET, nested or `nocache` requests bypass the cache; any other GET consults the cache under its `CacheKey`, and a URL too short for that key is an error; a hit is served unchanged; a miss runs the chain, whatever it answers, and then makes the `Store` attempt for the key with the configured TTL; a failed read acts as a miss |
| RedisHandler.ReadFaultActsLikeAMiss | src/main/java/io/rcktapp/api/handler/redis/RedisHandler.java:103-111 | a Redis read that throws leads to the same outcome as a cache miss |
| RedisHandler.OnlyTheKeyChanges | src/main/java/io/rcktapp/api/handler/redis/RedisHandler.java:103-144 | serving a request changes the cache at most at its own key |
| RedisHandler.StoreThenHit | src/main/java/io/rcktapp/api/handler/redis/RedisHandler.java:113-144 | after a miss has stored a 200 answer, the same request is a hit that serves that answer |
| RedisHandler.PoolKey | src/main/java/io/rcktapp/api/handler/redis/RedisHandler.java:206-209 | a configured `redisPoolKey` is the key; without one the key is `host:port`, an unset host written as `null` |
| RedisHandler.GetPool | src/main/java/io/rcktapp/api/handler/redis/RedisHandler.java:204-238 | an existing pool for the key is returned unchanged; otherwise one is created and registered under the key |
| RedisHandler.GetPoolCreatesOnce | src/main/java/io/rcktapp/api/handler/redis/RedisHandler.java:209-235 | one `getPool` call keeps the creation log free of repeats and in step with the registered pools: a key that has a pool is never created again |
| RedisHandler.PoolCreatedOncePerKey | src/main/java/io/rcktapp/api/handler/redis/RedisHandler.java:209-235 | over any sequence of requests each pool key is created at most once |
| SqlDelete.Begin | src/main/java/io/rocketpartners/cloud/handler/sql/SqlDeleteAction.java:51-59 | a call is the root iff the variables hold no batch lists; a root puts two empty lists in; either way the call works on the lists the variables hold, so a nested call shares its root's lists |
| SqlDelete.BatchAllowed | src/main/java/io/rocketpartners/cloud/handler/sql/SqlDeleteAction.java:111-116 | a request with an entity key always goes ahead; a batch needs batch deletes enabled, and then membership of the allow list if it is non-empty, otherwise absence from the deny list |
| SqlDelete.BasePathAsWritten | src/main/java/io/rocketpartners/cloud/handler/sql/SqlDeleteAction.java:85-87 | as written: when the URL has a `?` after its first character, the path is the corrected path without its last character; otherwise it is the whole URL |
| SqlDelete.BasePath | src/main/java/io/rocketpartners/cloud/handler/sql/SqlDeleteAction.java:85-87 | corrected: the collection path is the request URL up to but excluding its `?` |
| SqlDelete.CheckUrls | src/main/java/io/rocketpartners/cloud/handler/sql/SqlDeleteAction.java:76-94 | an accepted body yields one URL per element, each the element's own string, in order; every rejection is a 400 |
| SqlDelete.CheckUrlsAcceptsExactly | src/main/java/io/rocketpartners/cloud/handler/sql/SqlDeleteAction.java:76-94 | the body is accepted iff every element is a string URL that starts, ignoring case, with the request's path |
| SqlDelete.CheckUrlsBlamesCollection | src/main/java/io/rocketpartners/cloud/handler/sql/SqlDeleteAction.java:84-92 | when every element is a string, a rejected body gets the wrong-collection message naming the collection path |
| SqlDelete.QueryParamsKeepRequest | src/main/java/io/rocketpartners/cloud/handler/sql/SqlDeleteAction.java:197-202 | an entity key adds its `in(\`key\`,id)` term with no value; every other parameter is passed on unchanged, and no other is added |
| SqlDelete.CleanSqlChangesOnlyWithHint | src/main/java/io/rocketpartners/cloud/handler/sql/SqlDeleteAction.java:214 | removing `SQL_CALC_FOUND_ROWS` shortens the statement iff the statement contains it, and changes nothing otherwise |
| SqlDelete.HasWhereFindsToken | src/main/java/io/rocketpartners/cloud/handler/sql/SqlDeleteAction.java:216 | the where test holds iff ` where ` occurs somewhere in the lower-cased statement |
| SqlDelete.CastAll | src/main/java/io/rocketpartners/cloud/handler/sql/SqlDeleteAction.java:221-227 | the values are cast one by one: it succeeds iff every cast does, giving each value's cast in order, and a failure is the error of some value's cast |
| SqlDelete.FindIds | src/main/java/io/rocketpartners/cloud/handler/sql/SqlDeleteAction.java:183-234 | every failure surfaces as a 500; on success exactly one select is appended to the lists and the earlier selects and arguments stay in front |
| SqlDelete.FindIdsSelects | src/main/java/io/rocketpartners/cloud/handler/sql/SqlDeleteAction.java:183-234 | on the request's own collection: it succeeds iff the query builds, its prepared select has ` where ` and every value casts; a select without ` where ` is refused with the no-where message; on success the appended select is the cleaned prepared one, followed by one cast argument per query value, in order |
| SqlDelete.Service | src/main/java/io/rocketpartners/cloud/handler/sql/SqlDeleteAction.java:49-136 | no other chain variable changes; as written every call leaves the variables without the lists, and as corrected a root leaves them as it found them while a nested call leaves its root's lists there, holding what it added; the lists only grow; as corrected a nested call never deletes; a delete without a body adds one select |
| SqlDelete.ServiceRootCloses | src/main/java/io/rocketpartners/cloud/handler/sql/SqlDeleteAction.java:49-136 | a root that gets through the `try` ends with a delete of the union of all the lists' selects with all their arguments, issued on the table of the root request's collection; as corrected, a root deletes at most once, and a root that fails after deleting ends with the exception of that `delete` (its select, its `DELETE`, or an id that is not a long) |
| SqlDelete.ServiceBodySelects | src/main/java/io/rocketpartners/cloud/handler/sql/SqlDeleteAction.java:61-103 | a call with a body succeeds only on a JSON array, and as corrected the body adds one select per URL to the lists |
| SqlDelete.Finally | src/main/java/io/rocketpartners/cloud/handler/sql/SqlDeleteAction.java:131-135 | as written every call removes the lists from the variables; as corrected only the root does, and a nested call leaves its root's lists there, holding what it added; no other variable changes |
| SqlDelete.Handle | src/main/java/io/rocketpartners/cloud/handler/sql/SqlDeleteAction.java:61-124 | corrected (cut at the `?`, lists removed only by the root): key plus body, non-array and foreign URL are 400s that leave the lists as they were; every URL is checked before any nested delete runs; a refused batch is a 400; a keyed or batch request runs `findIds`; the body's nested deletes delete nothing |
| SqlDelete.NestedDeletes | src/main/java/io/rocketpartners/cloud/handler/sql/SqlDeleteAction.java:96-103 | the first nested delete that fails stops the loop with a 500 naming a URL of the body; once the lists have left the variables the handler's own lists receive nothing more; as corrected nothing is deleted and each URL adds one select |
| SqlDelete.NestedCallInBatch | src/main/java/io/rocketpartners/cloud/handler/sql/SqlDeleteAction.java:96-103 | a nested delete inside an open batch succeeds iff its URL is routed to this action, its batch rule lets it through and its select has a where clause; it deletes nothing and appends its select to the shared lists |
| SqlDelete.NestedDeletesSucceedExactly | src/main/java/io/rocketpartners/cloud/handler/sql/SqlDeleteAction.java:96-103 | corrected: the nested deletes of a body all go through iff every URL's nested delete succeeds |
| SqlDelete.NestedDeletesInOrder | src/main/java/io/rocketpartners/cloud/handler/sql/SqlDeleteAction.java:96-103 | corrected: the nested deletes run in URL order and delete nothing; their selects reach the root's lists in URL order |
| SqlDelete.NestedFailureNamesFirst | src/main/java/io/rocketpartners/cloud/handler/sql/SqlDeleteAction.java:96-103 | corrected: a failed body's 500 names the first URL whose nested delete fails |
| SqlDelete.FailedNestedDeleteAbortsBatch | src/main/java/io/rocketpartners/cloud/handler/sql/SqlDeleteAction.java:96-136 | corrected: a root whose body holds a URL whose nested delete fails ends with a 500 naming that URL or an earlier one of the body, and deletes nothing: the batch is all or nothing |
| SqlDelete.UnionLoop | src/main/java/io/rocketpartners/cloud/handler/sql/SqlDeleteAction.java:148-154 | the loop only appends to what it has built |
| SqlDelete.UnionSql | src/main/java/io/rocketpartners/cloud/handler/sql/SqlDeleteAction.java:140-155 | one select is used as is; several are joined with `UNION` and trimmed |
| SqlDelete.UnionLoopJoins | src/main/java/io/rocketpartners/cloud/handler/sql/SqlDeleteAction.java:148-153 | the loop writes a line break and then the selects separated by `UNION` lines |
| SqlDelete.UnionOfTrimmedSelects | src/main/java/io/rocketpartners/cloud/handler/sql/SqlDeleteAction.java:140-155 | for selects that start and end with significant characters, the statement is their join: n selects and n-1 separators |
| SqlDelete.RecordChanges | src/main/java/io/rocketpartners/cloud/handler/sql/SqlDeleteAction.java:176-179 | one `DELETE` change per id, in order, carrying the id parsed as a long; the loop stops at the first id that does not parse, and covers the whole list when it completes |
| SqlDelete.RecordChangesFlag | src/main/java/io/rocketpartners/cloud/handler/sql/SqlDeleteAction.java:176-179 | the loop completes iff every id's text parses as a 64-bit long; otherwise `Long.parseLong` stops it |
| Strings.ParseLongOfIntToString | src/main/java/io/rocketpartners/cloud/handler/sql/SqlDeleteAction.java:178 | `Long.parseLong(id + "")` gives back an id exactly when it fits in 64 bits |
| SqlDelete.RecordChangesOfNumbers | src/main/java/io/rocketpartners/cloud/handler/sql/SqlDeleteAction.java:176-179 | for numeric ids the loop completes iff every id fits in 64 bits, and each change carries its id |
| SqlDelete.Delete | src/main/java/io/rocketpartners/cloud/handler/sql/SqlDeleteAction.java:138-169 | the ids are selected by the union of all the lists' selects, with all their arguments in order |
| SqlDelete.DeleteSendsStatement | src/main/java/io/rocketpartners/cloud/handler/sql/SqlDeleteAction.java:159-174 | the `DELETE … IN` statement is sent iff the select answers with ids, and it is the statement naming them on the collection's table |
| SqlDelete.DeleteIssuesStatement | src/main/java/io/rocketpartners/cloud/handler/sql/SqlDeleteAction.java:157-181 | a select (or connection) that throws sends no `DELETE`, records no change and ends the call with its exception; a `DELETE` that throws records no change and ends the call with its exception; otherwise the only failure is an id that is not a long, after the `DELETE` has run; the call completes iff the select answers, the `DELETE` (if sent) executes and every id parses as a long |
| SqlDelete.DeleteRecordsChanges | src/main/java/io/rocketpartners/cloud/handler/sql/SqlDeleteAction.java:169-179 | once the database has answered, one `DELETE` change per selected id, in order, carrying the id parsed as a long, for a prefix of the ids, and for all of them when the call completes |
| SqlDelete.DeleteStatementNamesEveryId | src/main/java/io/rocketpartners/cloud/handler/sql/SqlDeleteAction.java:166-173 | the statement starts `DELETE FROM` the collection's quoted table `WHERE` its quoted id column `IN (`, ends with `)` and contains the text of every selected id |
| SqlDelete.OneStatementPerBatch | src/main/java/io/rocketpartners/cloud/handler/sql/SqlDeleteAction.java:96-136 | corrected: a root delete whose body names N URLs, each of whose nested deletes succeeds, collects the N selects in URL order and issues one delete, whose select is their union and whose statement is on the root's table |
| SqlDelete.NestedNeverDeletes | src/main/java/io/rocketpartners/cloud/handler/sql/SqlDeleteAction.java:51-136 | corrected: a call inside an open batch deletes nothing; it only adds to its root's lists and leaves them in the variables |
| SqlDelete.ForeignUrlRejectedUpFront | src/main/java/io/rocketpartners/cloud/handler/sql/SqlDeleteAction.java:76-103 | corrected cut: a body with a non-string element, or with a URL that does not start with the collection path ignoring case, fails with 400 before any nested delete runs; the lists are untouched and nothing is deleted. The test is a prefix test, so `/booksellers/1` passes under `/books` |
| SqlDelete.NestedRootDeletesAlone | src/main/java/io/rocketpartners/cloud/handler/sql/SqlDeleteAction.java:49-136 | as written: a nested delete that finds no lists is a root of its own; it deletes its select's ids at once and leaves the variables as it found them |
| SqlDelete.NestedRootsDeleteEach | src/main/java/io/rocketpartners/cloud/handler/sql/SqlDeleteAction.java:96-103 | as written: once the lists have left the variables, every further URL's nested delete runs a delete of its own, one per URL, in order |
| SqlDelete.AsWrittenFirstUrlStays | src/main/java/io/rocketpartners/cloud/handler/sql/SqlDeleteAction.java:96-135 | as written: of a body's nested deletes only the first adds to the root's lists; each later URL gets a delete of its own |
| SqlDelete.AsWrittenDeletesPerUrl | src/main/java/io/rocketpartners/cloud/handler/sql/SqlDeleteAction.java:49-136 | as written: a root delete whose body names N URLs, each of whose nested deletes succeeds, runs N deletes, each issuing a `DELETE` when its select finds ids; the root's combined select covers only the first URL |
| SqlDelete.BasePathAsWrittenAcceptsOtherCollection | src/main/java/io/rocketpartners/cloud/handler/sql/SqlDeleteAction.java:85-92 | with the cut as written, a request to `/books?q` accepts `/bookmarks/1`; the corrected cut refuses it |
| ElasticDb.StatusFor | src/main/java/io/rcktapp/api/handler/elastic/ElasticDb.java:56-63 | codes 400, 401, 403 and 404 keep their status; every other code is a 500 |
| ElasticDb.FieldColumns | src/main/java/io/rcktapp/api/handler/elastic/ElasticDb.java:204-221 | corrected: an untyped property adds no column; the columns of a property all start with its dotted name; it fails only for a nested property without properties, with a NullPointerException |
| ElasticDb.AddColumns | src/main/java/io/rcktapp/api/handler/elastic/ElasticDb.java:200-223 | corrected: flattening succeeds iff every nested property has properties; all column names start with the prefix |
| ElasticDb.FieldColumnsAreLeaves | src/main/java/io/rcktapp/api/handler/elastic/ElasticDb.java:204-221 | a property's columns are exactly its typed non-nested leaves, named by their dotted path |
| ElasticDb.AddColumnsAreLeaves | src/main/java/io/rcktapp/api/handler/elastic/ElasticDb.java:200-223 | a column of type `t` named `n` is produced iff some path to a non-nested leaf of type `t`, written with dots after the prefix, is `n` |
| ElasticDb.FieldColumnsAsWritten | src/main/java/io/rcktapp/api/handler/elastic/ElasticDb.java:204-221 | as written: a property's columns are computed iff it has a type and every nested property under it has properties, each with a type; every other property throws a NullPointerException |
| ElasticDb.AddColumnsAsWritten | src/main/java/io/rcktapp/api/handler/elastic/ElasticDb.java:200-223 | as written: a mapping is flattened iff every property in it, at any depth, has a type and every nested one has properties; otherwise it throws a NullPointerException |
| ElasticDb.FieldAsWrittenAgrees | src/main/java/io/rcktapp/api/handler/elastic/ElasticDb.java:204-221 | wherever the code as written succeeds on a property it gives the corrected columns |
| ElasticDb.AsWrittenAgrees | src/main/java/io/rcktapp/api/handler/elastic/ElasticDb.java:200-223 | wherever the code as written succeeds on a mapping it gives the corrected columns |
| ElasticDb.UntypedObjectThrowsAsWritten | src/main/java/io/rcktapp/api/handler/elastic/ElasticDb.java:207-215 | an object property without `type` makes the code as written throw, and the corrected definition skips it |
| ElasticDb.Upsert | src/main/java/io/rcktapp/api/handler/elastic/ElasticDb.java:174-190 | the alias's table is reused if it exists and created otherwise, then gets the index and the columns; no other table changes |
| ElasticDb.UpsertValid | src/main/java/io/rcktapp/api/handler/elastic/ElasticDb.java:176-187 | each alias keeps one table named after it, added to the database once and in order |
| ElasticDb.AddToAliasesValid | src/main/java/io/rcktapp/api/handler/elastic/ElasticDb.java:170-191 | the alias loop keeps one table per alias and the earlier tables' order |
| ElasticDb.AddToAliasesTables | src/main/java/io/rcktapp/api/handler/elastic/ElasticDb.java:170-191 | each alias's table gets the index and the mapping's columns exactly once; the other tables are unchanged |
| ElasticDb.AddToAliasesKeys | src/main/java/io/rcktapp/api/handler/elastic/ElasticDb.java:170-191 | afterwards there is a table for every alias of the index and no other new one |
| ElasticDb.BuildAliasTables | src/main/java/io/rcktapp/api/handler/elastic/ElasticDb.java:164-192 | corrected: an index without aliases changes nothing; otherwise every alias gets a table (new ones named after it) holding the index and the flattened mapping; it fails iff the mapping cannot be flattened |
| ElasticDb.AliasedSnoc | src/main/java/io/rcktapp/api/handler/elastic/ElasticDb.java:95-99 | an alias is carried by the indexes seen so far iff it was before or the next index carries it |
| ElasticDb.UnaliasedHasNothing | src/main/java/io/rcktapp/api/handler/elastic/ElasticDb.java:95-99 | an alias no index carries collects no indexes and no columns |
| ElasticDb.ReflectTables | src/main/java/io/rcktapp/api/handler/elastic/ElasticDb.java:88-99 | corrected: reflection succeeds iff every aliased index's mapping can be flattened; the catalog keeps one table per alias |
| ElasticDb.ReflectedTablesAreAliases | src/main/java/io/rcktapp/api/handler/elastic/ElasticDb.java:93-99 | there is one reflected table per alias of any index, and no other |
| ElasticDb.ReflectedTablesGatherIndexes | src/main/java/io/rcktapp/api/handler/elastic/ElasticDb.java:93-99 | each alias table lists the indexes carrying the alias, in order, and their columns, index after index |
| ElasticDb.ReflectedTableList | src/main/java/io/rcktapp/api/handler/elastic/ElasticDb.java:93-99 | the reflected tables, in order, are named after aliases, cover every alias, have distinct names, and each gathers the indexes carrying its alias and their columns |
| ElasticDb.ReflectDb | src/main/java/io/rcktapp/api/handler/elastic/ElasticDb.java:74-107 | corrected: nothing happens unless bootstrapping; a failed fetch fails with `SC_MAP`'s status or 500; after a successful fetch it succeeds iff every aliased index's mapping can be flattened, and then it keeps the existing tables and adds one table per alias, with distinct names, each holding the indexes that carry its alias and their columns |
| ElasticDb.LowerFirst | src/main/java/io/rcktapp/api/handler/elastic/ElasticDb.java:118 | only the first character is lower-cased: the result equals the name ignoring case and does not start with an upper-case letter |
| ElasticDb.CollectionName | src/main/java/io/rcktapp/api/handler/elastic/ElasticDb.java:116-121 | a name exists iff the table name is non-empty |
| ElasticDb.CollectionNameKeepsPlural | src/main/java/io/rcktapp/api/handler/elastic/ElasticDb.java:116-121 | a lower-case name ending in `s` is used unchanged |
| ElasticDb.CollectionNamePluralisesOnlyOthers | src/main/java/io/rcktapp/api/handler/elastic/ElasticDb.java:116-121 | the pluraliser is applied exactly when the lower-cased name does not end in `s` |
| ElasticDb.Attributes | src/main/java/io/rcktapp/api/handler/elastic/ElasticDb.java:132-145 | one attribute per column |
| ElasticDb.AttributesDescribeColumns | src/main/java/io/rcktapp/api/handler/elastic/ElasticDb.java:132-145 | the attributes give back the table's columns, in order, and each hint is `table.column` |
| ElasticDb.ConfigApi | src/main/java/io/rcktapp/api/handler/elastic/ElasticDb.java:109-150 | one collection per table, in order, named by `CollectionName`, bound to its table with its columns as attributes, each hinted `table.column`; an empty table name stops the loop at that table |

## Left out

- Redis I/O (Jedis) is not modelled. Reads, writes and their failures are parameters and results. Pool settings are opaque values. Closing connections and the response text of a hit are not modelled: the cached string is passed through as the body.
- The concurrency of `getPool` (its `synchronized` block) is not modelled. The registry is a map threaded through the calls.
- A query parameter with a `null` value in the cache key is not modelled. Values are strings, and an empty one is written as the bare name.
- JDBC is not modelled. `getConnection` and `Sql.selectList` together are the `selectIds` parameter, and `Sql.execute` is the `execute` parameter. Each may fail with the exception it throws, which ends the call; which exception that is, is part of the parameter.
- `rql.buildQuery` and `getPreparedStmt` are not modelled; they are the `buildQuery` parameter. `cast` is a parameter that may fail, and `Sql.check` is taken as the identity.
- `getDb` and `getCollection` are not modelled: `Db.collections` gives each collection key its query builder, cast, id select, quoted table and id column. `findIds` works on its own request's collection and `delete` on the root request's, as the code does.
- Selected ids are their text `id + ""`; `Long.parseLong` of that text decides whether a change is recorded.
- SqlDelete.FindIds: when a cast fails after the select was appended, the code has already added the select and the earlier arguments to the lists; the model leaves them unchanged. The failure ends the whole batch with no delete, so those lists are never read.
- `Chain` is not part of this model. Its variables are taken as one set shared by a request and the requests nested in it: a `Context` holds the two batch lists as one entry, since the code always puts and removes them together, and every other variable in a map.
- The `finally` block is modelled in two modes: `RemoveAlways`, every call removing the lists as the code reads, and `RemoveAtRoot`, only the root removing them as evidently intended (see Findings). The properties of the nested deletes are stated for the second, and the as-written lemmas for the first. The as-written lemmas use the corrected cut of the collection path; since the cut as written accepts every URL the corrected cut accepts, what they show also happens in the code as written.
- `Service.include` is not modelled: it is the `route` parameter. A nested delete runs `Service` on a body-less request, and a nested status other than 200 is a failure.
- `ApiException` is not part of this model. Its one-argument constructor gets a status in ElasticDb and a message in SqlDeleteAction. ElasticDb's argument is read as the status, with an empty message. SqlDeleteAction's nested-delete failure is taken to be a 500 that carries its text as the message.
- Exceptions that are not `ApiException`s are modelled as errors with status 500 named after the exception. These are `NumberFormatException` from `Long.parseLong` in `delete` and `StringIndexOutOfBoundsException` from a short API URL in `getCacheKey`.
- RedisHandler.Service: a cached value is taken to be JSON text, as this handler stores it, so `JS.toJSObject` (RedisHandler.java:117) does not throw on a hit; and `chain.go()` (line 126) is taken to return normally, leaving a status and a body. An exception from either ends `service` in the code, and the model does not represent it.
- `Utils.empty` is not part of this model. It is taken to hold exactly for a missing or empty entity key, and a missing key is modelled as the empty string.
- The indexes of `GET _all` are taken in the order given. The code iterates `asMap()` of the parsed answer, whose type and order are not part of this model.
- ElasticDb.BuildAliasTables: a mapping that cannot be flattened fails before any table changes. The code has already added the first alias's table when it throws, but the exception ends bootstrapping either way.
- `Table.addColumn` and `Db.addTable` are not part of this model. `addColumn` is taken to append, so a column path found in two indexes of one alias appears twice. `addTable` is taken to skip a table that is already present.
- The HTTP fetch (`Web.get`) and the JSON parse are not modelled; the fetched answer is the `Fetched` value. `English.plural` is a parameter.
- `bootstrapApi`, `setType` and the Elasticsearch URL are not modelled. The `nullable` flag of reflected columns is not modelled: every reflected column is nullable.
- A missing `mappings`, `_doc` or `properties` member on an index is not modelled. Indexes are given already parsed.
- Unicode case conversion is not modelled. Lower-casing is ASCII only.
- `compareTo` compares Dafny characters, which are Unicode scalar values. Java compares UTF-16 code units, and the two orders differ only for characters outside the Basic Multilingual Plane.
- Several lemmas need no proof beyond the definitions they speak about. They state those definitions' consequences in the handlers' terms: SqlDelete.ServiceRootCloses, SqlDelete.ServiceBodySelects, SqlDelete.DeleteSendsStatement, SqlDelete.NestedNeverDeletes, SqlDelete.QueryParamsKeepRequest, SqlDelete.HasWhereFindsToken, ElasticDb.AttributesDescribeColumns, RedisHandler.ReadFaultActsLikeAMiss, RedisHandler.OnlyTheKeyChanges and RedisHandler.StoreThenHit.

## Findings

| source | as written | input that shows it | evidently intended | confidence | as-written member | corrected member |
|---|---|---|---|---|---|---|
| src/main/java/io/rocketpartners/cloud/handler/sql/SqlDeleteAction.java:85-89 | the collection path is cut one character before the `?` | a DELETE to `/books?q` whose body lists `/bookmarks/1`: the path becomes `/book`, so the foreign URL is accepted and its select is built on its own collection, while the delete runs on the root's table | cut at the `?`, keeping `/books`, which refuses `/bookmarks/1` | high; not executed | SqlDelete.BasePathAsWrittenAcceptsOtherCollection | SqlDelete.BasePath |
| src/main/java/io/rcktapp/api/handler/elastic/ElasticDb.java:207-215 | `getString("type")` is dereferenced before `hasProperty("type")` is checked, so a property without a type throws a NullPointerException and reflection fails | a mapping `address: { properties: { city: { type: keyword } } }` (an object field, which Elasticsearch reports without a `type`) | a property without a type is skipped, as the guard at line 211 shows | medium; not executed | ElasticDb.UntypedObjectThrowsAsWritten | ElasticDb.AddColumns |
| src/main/java/io/rocketpartners/cloud/handler/sql/SqlDeleteAction.java:131-135 | every call's `finally` removes the batch lists, so the first nested delete of a body removes its root's lists | a root DELETE with the body `["/books/1", "/books/2"]`: the nested delete of `/books/1` adds its select and removes the lists; the nested delete of `/books/2` finds none, becomes a root and deletes at once; the root's combined select covers `/books/1` only, so two DELETE statements run | only the root removes the lists, so one combined DELETE covers both URLs, as the rootDelete flag and the UNION in `delete` show | medium, since it rests on nested requests sharing the chain's variables; not executed | SqlDelete.AsWrittenDeletesPerUrl | SqlDelete.OneStatementPerBatch |
