/**
 The SQL delete action. A root delete (one whose chain context holds no batch
 lists yet) creates the lists of SELECT statements and arguments; each delete it
 triggers (directly, or through nested deletes of the URLs in a JSON body)
 appends one SELECT that finds the ids to delete; the root then folds the
 SELECTs into one UNION, deletes the selected ids with one statement and
 records one change per id. JDBC, the query builder and the routing of nested
 URLs are abstract functions of the `Db` record; each request works on the
 database of its own collection.
 */
module SqlDelete {
  import opened Api
  import opened Strings

  const SqlsKey := "batch.delete.sqls"
  const ArgsKey := "batch.delete.args"

  const LineBreak := "\r\n"
  const UnionSeparator := "\r\n UNION "
  /** What stands between two SELECTs of the combined statement. */
  const UnionGlue := UnionSeparator + LineBreak
  const FoundRowsHint := "SQL_CALC_FOUND_ROWS"
  const WhereToken := " where "
  const DeleteAction := "DELETE"

  const BodyWithKeyMessage := "You can't DELETE to an entity key in the url and also include a JSON body."
  const NotUrlArrayMessage := "The JSON body to a DELETE must be an array that contains string urls."
  const NotAllowedMessage := "Batch deletes are not allowed for this collection"
  const NoWhereMessage := "You can't delete from a table without a where clause or an individual ID."
  const BadIdMessage := "NumberFormatException"

  function WrongCollectionMessage(path: string): string {
    "All delete request must be for the collection in the original request: '" + path + "'"
  }

  function NestedFailedMessage(url: string): string {
    "Nested delete url: " + url + " failed!"
  }

  // ---- data ----------------------------------------------------------------

  /** A JSON value, as far as the delete action looks into it. */
  datatype Json = JString(text: string) | JArray(items: seq<Json>) | JObject | JScalar

  /** Request parameters; the added key predicate has a null value. */
  type QueryParams = map<string, Option<string>>

  datatype Request = Request(entityKey: string, json: Option<Json>, url: string, collectionKey: string, params: QueryParams)

  /** Where a nested delete URL leads: the entity key, collection and parameters
      of the request the service builds for it. */
  datatype Target = Target(entityKey: string, collectionKey: string, params: QueryParams)

  /** A prepared SELECT and the column/value pairs bound to its placeholders. */
  datatype Query = Query(prepared: string, values: seq<(string, string)>)

  /** What the action sees of one collection and its database: the key
      attribute, the query builder (`rql.buildQuery` and `getPreparedStmt`; an
      `Err` is any exception it throws), `cast` of a bound value (an `Err` is
      the exception it throws), `Sql.selectList` with each selected id given
      as its text `id + ""` (an `Err` is the exception it, or `getConnection`
      before it, throws), `Sql.execute` of a statement (the exception it
      throws, if any), the quoted table and id column, and the collection's
      name. */
  datatype CollectionDb = CollectionDb(
    keyAttr: string,
    buildQuery: QueryParams -> Result<Query>,
    cast: (string, string) -> Result<string>,
    selectIds: (string, seq<string>) -> Result<seq<string>>,
    execute: string -> Option<ApiError>,
    table: string,
    idCol: string,
    name: string)

  /** The collaborators of the action: the collection of each collection key
      (`getDb` and `getCollection` of a request's collection key), and the
      routing of a nested DELETE (`None` when it does not answer 200 before
      reaching this action). */
  datatype Db = Db(collections: string -> CollectionDb, route: string -> Option<Target>)

  datatype BatchConfig = BatchConfig(allowBatchDelete: bool, batchAllow: seq<string>, batchDeny: seq<string>)

  const DefaultBatchConfig := BatchConfig(true, [], [])

  /** The contents of the two batch lists. */
  datatype Batch = Batch(sqls: seq<string>, args: seq<string>)

  /** The chain context: one bag of entries that a chain shares, by reference,
      with every nested chain it starts. The two batch entries, under `SqlsKey`
      and `ArgsKey`, are put and removed together and only by this action, so
      they are kept apart from the other entries: `lists` holds them while a
      batch is open. */
  datatype Context = Context(others: map<string, seq<string>>, lists: Option<Batch>)

  /** What the `finally` block of `service` does with the batch lists.
      `RemoveAlways` is the code as written: every call removes them from the
      shared bag, nested calls included. `RemoveAtRoot` is the evident intent:
      only the root delete, which created them, removes them. */
  datatype Cleanup = RemoveAlways | RemoveAtRoot

  datatype Change = Change(action: string, collection: string, id: int)

  /** What one call of `delete` sends to the database: the combined SELECT and
      its arguments, the DELETE statement if it was sent, and the changes
      recorded for the response. */
  datatype Deletion = Deletion(sql: string, args: seq<string>, statement: Option<string>, changes: seq<Change>)

  /** The state an action call leaves: the shared context, the batch lists
      the call worked on, every `delete` run during the call (nested ones
      first, in order), and the exception it ends with, if any. */
  datatype Outcome = Outcome(ctx: Context, batch: Batch, deletions: seq<Deletion>, error: Option<ApiError>)

  /** The progress of the work inside the `try`. */
  datatype Step = Step(ctx: Context, batch: Batch, deletions: seq<Deletion>, failure: Option<ApiError>)

  // ---- the chain context ---------------------------------------------------

  /** A delete is the root of its batch when the bag holds no batch lists yet. */
  predicate IsRoot(ctx: Context) {
    ctx.lists.None?
  }

  /** Whether the call is the root, the bag once the lists are in it, and the
      lists the call works on. */
  datatype Prologue = Prologue(root: bool, ctx: Context, batch: Batch)

  /** The lines before the `try`: a root delete puts two empty lists in the bag;
      then both lists are read back from it, so a nested delete works on the
      lists of the delete that opened the batch. */
  function Begin(ctx: Context): (p: Prologue)
    ensures p.root <==> IsRoot(ctx)
    ensures p.ctx.lists == Some(p.batch)
    ensures p.root ==> p.batch == Batch([], [])
    ensures !p.root ==> p.ctx == ctx
    ensures p.ctx.others == ctx.others
  {
    var root := IsRoot(ctx);
    var withLists := if root then ctx.(lists := Some(Batch([], []))) else ctx;
    Prologue(root, withLists, withLists.lists.value)
  }

  /** The bag as it stands while a handler holds the lists `batch`: when the
      bag has batch lists, they are the very lists the handler appends to. */
  function Sync(ctx: Context, batch: Batch): Context {
    if ctx.lists.Some? then ctx.(lists := Some(batch)) else ctx
  }

  // ---- the batch rule --------------------------------------------------------

  /** The condition under which a delete without a body goes ahead; `collection`
      is the lower-cased collection key. */
  function BatchAllowed(cfg: BatchConfig, entityKey: string, collection: string): (allowed: bool)
    ensures allowed <==>
      || |entityKey| > 0
      || (cfg.allowBatchDelete &&
          if |cfg.batchAllow| > 0 then collection in cfg.batchAllow else collection !in cfg.batchDeny)
  {
    || |entityKey| > 0
    || (cfg.allowBatchDelete &&
        (|| (|cfg.batchAllow| == 0 && |cfg.batchDeny| == 0)
         || (|cfg.batchAllow| > 0 && collection in cfg.batchAllow)
         || (|cfg.batchAllow| == 0 && collection !in cfg.batchDeny)))
  }

  // ---- validating a JSON body ------------------------------------------------

  /** The request URL without its query string, as the code reads: the
      character just before the '?' is cut off as well. */
  function BasePathAsWritten(url: string): (path: string)
    ensures IndexOf(url, "?") > 0 ==> |BasePath(url)| > 0 && path == BasePath(url)[..|BasePath(url)| - 1]
    ensures IndexOf(url, "?") <= 0 ==> path == BasePath(url)
  {
    var q := IndexOf(url, "?");
    if q > 0 then url[..q - 1] else url
  }

  /** The request URL without its query string: everything before the first
      '?', unless the URL starts with one. */
  function BasePath(url: string): (path: string)
    ensures path <= url
    ensures IndexOf(url, "?") > 0 ==> |path| < |url| && url[|path|] == '?' && '?' !in path
    ensures IndexOf(url, "?") <= 0 ==> path == url
  {
    var q := IndexOf(url, "?");
    if q > 0 then
      assert OccursAt(url, "?", q);
      assert url[q..q + 1] == "?";
      assert forall j :: 0 <= j < q ==> url[j] != '?' by {
        forall j | 0 <= j < q ensures url[j] != '?' {
          assert !OccursAt(url, "?", j);
          assert url[j..j + 1] == [url[j]];
        }
      }
      url[..q]
    else url
  }

  /** A body URL is accepted when, ignoring case, it starts with the request's path. */
  predicate InCollection(url: string, path: string) {
    StartsWith(Lower(url), Lower(path))
  }

  /** A body element that names a URL of the request's collection. */
  predicate Accepted(item: Json, path: string) {
    item.JString? && InCollection(item.text, path)
  }

  /** The loop over the body's elements: each must be a string and lie in the
      request's collection; the first element that fails decides the error. */
  function CheckUrls(items: seq<Json>, path: string): (r: Result<seq<string>>)
    ensures r.Ok? ==> |r.value| == |items| && forall i :: 0 <= i < |items| ==> items[i].JString? && r.value[i] == items[i].text
    ensures r.Err? ==> r.error.status == Sc400BadRequest
  {
    if |items| == 0 then Ok([])
    else if !items[0].JString? then Err(ApiError(Sc400BadRequest, NotUrlArrayMessage))
    else if !InCollection(items[0].text, path) then Err(ApiError(Sc400BadRequest, WrongCollectionMessage(path)))
    else
      match CheckUrls(items[1..], path)
      case Err(e) => Err(e)
      case Ok(texts) =>
        assert forall i :: 1 <= i < |items| ==> items[i] == items[1..][i - 1];
        Ok([items[0].text] + texts)
  }

  /** The body passes iff every element names a URL of the collection. */
  lemma {:induction false} CheckUrlsAcceptsExactly(items: seq<Json>, path: string)
    ensures CheckUrls(items, path).Ok? <==> forall i :: 0 <= i < |items| ==> Accepted(items[i], path)
  {
    if |items| > 0 {
      var rest := items[1..];
      CheckUrlsAcceptsExactly(rest, path);
      assert forall i :: 1 <= i < |items| ==> items[i] == rest[i - 1];
    }
  }

  /** When every element is a string, a failure is the wrong-collection error. */
  lemma {:induction false} CheckUrlsBlamesCollection(items: seq<Json>, path: string)
    requires forall i :: 0 <= i < |items| ==> items[i].JString?
    ensures CheckUrls(items, path).Err? ==>
      CheckUrls(items, path).error == ApiError(Sc400BadRequest, WrongCollectionMessage(path))
  {
    if |items| > 0 {
      assert items[0].JString?;
      if !InCollection(items[0].text, path) {
        assert CheckUrls(items, path) == Err(ApiError(Sc400BadRequest, WrongCollectionMessage(path)));
      } else {
        var rest := items[1..];
        forall i | 0 <= i < |rest| ensures rest[i].JString? {
          assert rest[i] == items[i + 1];
        }
        CheckUrlsBlamesCollection(rest, path);
        assert CheckUrls(items, path).Err? ==> CheckUrls(items, path).error == CheckUrls(rest, path).error;
      }
    }
  }

  // ---- findIds ---------------------------------------------------------------

  /** The key predicate `findIds` adds for an entity key. */
  function InParam(keyAttr: string, entityKey: string): string {
    "in(`" + keyAttr + "`," + entityKey + ")"
  }

  /** The parameters handed to the query builder. */
  function QueryParamsFor(req: Request, keyAttr: string): QueryParams {
    if |req.entityKey| > 0 then req.params[InParam(keyAttr, req.entityKey) := None] else req.params
  }

  /** An entity key adds its key predicate, with no value; every other
      parameter is passed on unchanged, and nothing else is added. */
  lemma QueryParamsKeepRequest(req: Request, keyAttr: string)
    ensures var params := QueryParamsFor(req, keyAttr);
      && (|req.entityKey| > 0 ==>
            InParam(keyAttr, req.entityKey) in params && params[InParam(keyAttr, req.entityKey)].None?)
      && (forall k :: k in req.params && (|req.entityKey| == 0 || k != InParam(keyAttr, req.entityKey)) ==>
            k in params && params[k] == req.params[k])
      && (forall k :: k in params ==> k in req.params || (|req.entityKey| > 0 && k == InParam(keyAttr, req.entityKey)))
  {
  }

  /** The prepared statement with the MySQL row-count hint removed. */
  function CleanSql(prepared: string): string {
    RemoveAll(prepared, FoundRowsHint)
  }

  /** Cleaning changes the statement exactly when it carries the hint. */
  lemma CleanSqlChangesOnlyWithHint(prepared: string)
    ensures Contains(prepared, FoundRowsHint) <==> |CleanSql(prepared)| < |prepared|
    ensures !Contains(prepared, FoundRowsHint) ==> CleanSql(prepared) == prepared
  {
    RemoveAllShortens(prepared, FoundRowsHint);
  }

  predicate HasWhere(sql: string) {
    Contains(Lower(sql), WhereToken)
  }

  /** A statement has a where clause when ` where `, in any case, occurs in it. */
  lemma HasWhereFindsToken(sql: string)
    ensures HasWhere(sql) <==> exists j :: OccursAt(Lower(sql), WhereToken, j)
  {
  }

  /** Every bound value casts without an exception. */
  predicate AllCast(cast: (string, string) -> Result<string>, values: seq<(string, string)>) {
    forall i :: 0 <= i < |values| ==> cast(values[i].0, values[i].1).Ok?
  }

  /** The loop casting the bound values to arguments, in order; the first cast
      that throws ends it with its exception. */
  function CastAll(cast: (string, string) -> Result<string>, values: seq<(string, string)>): (r: Result<seq<string>>)
    ensures r.Ok? <==> AllCast(cast, values)
    ensures r.Ok? ==> |r.value| == |values| && forall i :: 0 <= i < |values| ==> r.value[i] == cast(values[i].0, values[i].1).value
    ensures r.Err? ==> exists i :: 0 <= i < |values| && cast(values[i].0, values[i].1) == Err(r.error)
  {
    if |values| == 0 then Ok([])
    else
      match cast(values[0].0, values[0].1)
      case Err(e) => Err(e)
      case Ok(arg) =>
        var rest := values[1..];
        assert forall i :: 1 <= i < |values| ==> values[i] == rest[i - 1];
        match CastAll(cast, rest)
        case Err(e) =>
          assert exists i :: 0 <= i < |rest| && cast(rest[i].0, rest[i].1) == Err(e);
          Err(e)
        case Ok(args) => Ok([arg] + args)
  }

  /** `findIds` on the collection of the request: appends the SELECT finding
      the ids to delete and its arguments. Every exception, the missing-where
      rejection and a failed cast included, becomes a 500. */
  function FindIds(req: Request, db: Db, batch: Batch): (r: Result<Batch>)
    ensures r.Err? ==> r.error.status == Sc500InternalServerError
    ensures r.Ok? ==> |r.value.sqls| == |batch.sqls| + 1 && batch.sqls <= r.value.sqls && batch.args <= r.value.args
  {
    var c := db.collections(req.collectionKey);
    match c.buildQuery(QueryParamsFor(req, c.keyAttr))
    case Err(e) => Err(ApiError(Sc500InternalServerError, e.message))
    case Ok(q) =>
      var sql := CleanSql(q.prepared);
      if !HasWhere(sql) then Err(ApiError(Sc500InternalServerError, NoWhereMessage))
      else
        match CastAll(c.cast, q.values)
        case Err(e) => Err(ApiError(Sc500InternalServerError, e.message))
        case Ok(args) => Ok(Batch(batch.sqls + [sql], batch.args + args))
  }

  /** `findIds` succeeds exactly when the query builds, has a where clause and
      every bound value casts; a missing where clause is reported as such; on
      success the cleaned SELECT is appended to the lists and the casts of the
      bound values, in order, to the arguments. */
  lemma FindIdsSelects(req: Request, db: Db, batch: Batch)
    ensures var r := FindIds(req, db, batch);
      var c := db.collections(req.collectionKey);
      var built := c.buildQuery(QueryParamsFor(req, c.keyAttr));
      r.Ok? <==>
        && built.Ok?
        && HasWhere(CleanSql(built.value.prepared))
        && AllCast(c.cast, built.value.values)
    ensures var c := db.collections(req.collectionKey);
      var built := c.buildQuery(QueryParamsFor(req, c.keyAttr));
      built.Ok? && !HasWhere(CleanSql(built.value.prepared)) ==>
        FindIds(req, db, batch) == Err(ApiError(Sc500InternalServerError, NoWhereMessage))
    ensures var r := FindIds(req, db, batch);
      r.Ok? ==>
      var c := db.collections(req.collectionKey);
      var q := c.buildQuery(QueryParamsFor(req, c.keyAttr)).value;
      && r.value.sqls == batch.sqls + [CleanSql(q.prepared)]
      && |r.value.args| == |batch.args| + |q.values|
      && r.value.args[..|batch.args|] == batch.args
      && forall i :: 0 <= i < |q.values| ==> r.value.args[|batch.args| + i] == c.cast(q.values[i].0, q.values[i].1).value
  {
  }


  // ---- service -------------------------------------------------------------

  /** `service`. The lists are read (and, for a root delete, created) before the
      `try`; the `finally` block removes them from the shared bag as `mode` says. */
  function Service(ctx: Context, req: Request, cfg: BatchConfig, db: Db, mode: Cleanup): (out: Outcome)
    // no other entry of the bag changes
    ensures out.ctx.others == ctx.others
    // as written, every call leaves the bag without the lists; as intended, a
    // root leaves the bag as it found it and a nested call leaves the root's
    // lists in it, holding what the call added
    ensures mode == RemoveAlways ==> out.ctx.lists.None?
    ensures mode == RemoveAtRoot && IsRoot(ctx) ==> out.ctx == ctx
    ensures mode == RemoveAtRoot && !IsRoot(ctx) ==> out.ctx == ctx.(lists := Some(out.batch))
    // the lists the call works on only grow
    ensures Begin(ctx).batch.sqls <= out.batch.sqls && Begin(ctx).batch.args <= out.batch.args
    // as intended, a nested call never deletes
    ensures mode == RemoveAtRoot && !IsRoot(ctx) ==> out.deletions == []
    // a delete without a body adds exactly one SELECT
    ensures out.error.None? && req.json.None? ==> |out.batch.sqls| == |Begin(ctx).batch.sqls| + 1
    decreases if req.json.Some? then 1 else 0, 2, 0
  {
    var p := Begin(ctx);
    var step := Handle(p.ctx, req, cfg, db, mode, p.batch);
    var after := Finally(ctx, step.ctx, step.batch, mode);
    if step.failure.Some? then Outcome(after, step.batch, step.deletions, step.failure)
    else if !p.root then Outcome(after, step.batch, step.deletions, None)
    else
      var deletion := Delete(step.batch, db.collections(req.collectionKey));
      Outcome(after, step.batch, step.deletions + [deletion.0], deletion.1)
  }

  /** A root that gets through the `try` ends with one delete of all its lists
      hold. As intended, a root deletes at most once and fails afterwards only
      with the exception its delete ends with. */
  lemma ServiceRootCloses(ctx: Context, req: Request, cfg: BatchConfig, db: Db, mode: Cleanup)
    ensures var out := Service(ctx, req, cfg, db, mode);
      && (IsRoot(ctx) && out.error.None? ==>
            && |out.deletions| > 0
            && out.deletions[|out.deletions| - 1].sql == UnionSql(out.batch.sqls)
            && out.deletions[|out.deletions| - 1].args == out.batch.args)
      // the DELETE is issued on the table of the root request's collection
      && (IsRoot(ctx) && out.error.None? && out.deletions[|out.deletions| - 1].statement.Some? ==>
            DeleteHead(db.collections(req.collectionKey)) <= out.deletions[|out.deletions| - 1].statement.value)
      && (mode == RemoveAtRoot && IsRoot(ctx) ==> |out.deletions| <= 1)
      && (mode == RemoveAtRoot && |out.deletions| > 0 && out.error.Some? ==>
            IsRoot(ctx) && out.error == Delete(out.batch, db.collections(req.collectionKey)).1)
  {
    var p := Begin(ctx);
    var step := Handle(p.ctx, req, cfg, db, mode, p.batch);
    var after := Finally(ctx, step.ctx, step.batch, mode);
    var c := db.collections(req.collectionKey);
    var deletion := Delete(step.batch, c);
    DeleteSendsStatement(UnionSql(step.batch.sqls), step.batch.args, c);
    assert Service(ctx, req, cfg, db, mode) ==
      if step.failure.Some? then Outcome(after, step.batch, step.deletions, step.failure)
      else if !p.root then Outcome(after, step.batch, step.deletions, None)
      else Outcome(after, step.batch, step.deletions + [deletion.0], deletion.1);
  }

  /** A call with a body succeeds only on an array, and as intended its body
      adds one SELECT per URL to the lists. */
  lemma ServiceBodySelects(ctx: Context, req: Request, cfg: BatchConfig, db: Db, mode: Cleanup)
    ensures var out := Service(ctx, req, cfg, db, mode);
      && (out.error.None? && req.json.Some? ==> req.json.value.JArray?)
      && (mode == RemoveAtRoot && out.error.None? && req.json.Some? ==>
            |out.batch.sqls| == |Begin(ctx).batch.sqls| + |req.json.value.items|)
  {
    var p := Begin(ctx);
    var step := Handle(p.ctx, req, cfg, db, mode, p.batch);
    var out := Service(ctx, req, cfg, db, mode);
    assert out.batch == step.batch;
    assert out.error.None? ==> step.failure.None?;
  }

  /** The `finally` block, leaving the bag `ctx` the call started from as
      `inner`, its lists holding `batch`: the lists are removed by every call as
      written, and only by the root as intended. */
  function Finally(ctx: Context, inner: Context, batch: Batch, mode: Cleanup): (after: Context)
    requires inner.others == ctx.others
    ensures after.others == ctx.others
    ensures mode == RemoveAlways ==> after.lists.None?
    ensures mode == RemoveAtRoot && IsRoot(ctx) ==> after == ctx
    ensures mode == RemoveAtRoot && !IsRoot(ctx) ==> after == ctx.(lists := Some(batch))
  {
    if mode == RemoveAlways || IsRoot(ctx) then inner.(lists := None) else inner.(lists := Some(batch))
  }

  /** The body of the `try`, working on the lists `batch`; `ctx` is the bag,
      which holds the batch lists when the `try` starts. */
  function Handle(ctx: Context, req: Request, cfg: BatchConfig, db: Db, mode: Cleanup, batch: Batch): (step: Step)
    requires ctx.lists.Some?
    ensures step.ctx.others == ctx.others
    ensures mode == RemoveAtRoot ==> step.ctx.lists.Some? && step.deletions == []
    ensures req.json.Some? && |req.entityKey| > 0 ==>
      step == Step(ctx, batch, [], Some(ApiError(Sc400BadRequest, BodyWithKeyMessage)))
    ensures req.json.Some? && |req.entityKey| == 0 && !req.json.value.JArray? ==>
      step == Step(ctx, batch, [], Some(ApiError(Sc400BadRequest, NotUrlArrayMessage)))
    // every URL is checked before any nested delete is issued
    ensures (&& req.json.Some? && req.json.value.JArray? && |req.entityKey| == 0
             && CheckUrls(req.json.value.items, BasePath(req.url)).Err?) ==>
      step == Step(ctx, batch, [], Some(CheckUrls(req.json.value.items, BasePath(req.url)).error))
    ensures req.json.None? && !BatchAllowed(cfg, req.entityKey, Lower(req.collectionKey)) ==>
      step == Step(ctx, batch, [], Some(ApiError(Sc400BadRequest, NotAllowedMessage)))
    ensures req.json.None? && BatchAllowed(cfg, req.entityKey, Lower(req.collectionKey)) ==>
      step == match FindIds(req, db, batch)
              case Ok(b) => Step(ctx, b, [], None)
              case Err(e) => Step(ctx, batch, [], Some(e))
    ensures batch.sqls <= step.batch.sqls && batch.args <= step.batch.args
    ensures step.failure.None? && req.json.None? ==> |step.batch.sqls| == |batch.sqls| + 1
    ensures step.failure.None? && req.json.Some? ==> req.json.value.JArray?
    ensures mode == RemoveAtRoot && step.failure.None? && req.json.Some? ==>
      |step.batch.sqls| == |batch.sqls| + |req.json.value.items|
    decreases if req.json.Some? then 1 else 0, 1, 0
  {
    match req.json
    case Some(body) =>
      if |req.entityKey| > 0 then Step(ctx, batch, [], Some(ApiError(Sc400BadRequest, BodyWithKeyMessage)))
      else if !body.JArray? then Step(ctx, batch, [], Some(ApiError(Sc400BadRequest, NotUrlArrayMessage)))
      else
        (match CheckUrls(body.items, BasePath(req.url))
         case Err(e) => Step(ctx, batch, [], Some(e))
         case Ok(urls) => NestedDeletes(ctx, urls, cfg, db, mode, batch))
    case None =>
      if BatchAllowed(cfg, req.entityKey, Lower(req.collectionKey)) then
        match FindIds(req, db, batch)
        case Ok(b) => Step(ctx, b, [], None)
        case Err(e) => Step(ctx, batch, [], Some(e))
      else Step(ctx, batch, [], Some(ApiError(Sc400BadRequest, NotAllowedMessage)))
  }

  /** The request a nested DELETE of `url` reaches this action with: no body. */
  function NestedRequest(url: string, t: Target): Request {
    Request(t.entityKey, None, url, t.collectionKey, t.params)
  }

  /** The nested DELETEs of the body's URLs, in order. Each runs in a nested
      chain that shares the bag; `batch` is what the handler's own lists hold.
      The first one that does not answer 200 aborts the batch. */
  function NestedDeletes(ctx: Context, urls: seq<string>, cfg: BatchConfig, db: Db, mode: Cleanup, batch: Batch): (step: Step)
    ensures step.ctx.others == ctx.others
    // once the lists have left the bag, the handler's own lists receive nothing more
    ensures ctx.lists.None? ==> step.ctx.lists.None? && step.batch == batch
    ensures mode == RemoveAtRoot && ctx.lists.Some? ==> step.ctx.lists.Some? && step.deletions == []
    ensures batch.sqls <= step.batch.sqls && batch.args <= step.batch.args
    ensures mode == RemoveAtRoot && ctx.lists.Some? && step.failure.None? ==>
      |step.batch.sqls| == |batch.sqls| + |urls|
    ensures step.failure.Some? ==>
      exists url :: url in urls && step.failure == Some(ApiError(Sc500InternalServerError, NestedFailedMessage(url)))
    decreases 1, 0, |urls|
  {
    if |urls| == 0 then Step(ctx, batch, [], None)
    else
      var url := urls[0];
      var failed := Some(ApiError(Sc500InternalServerError, NestedFailedMessage(url)));
      match db.route(url)
      case None => Step(ctx, batch, [], failed)
      case Some(t) =>
        var bag := Sync(ctx, batch);
        var nested := Service(bag, NestedRequest(url, t), cfg, db, mode);
        // a nested call that found the lists in the bag appended to these very lists
        var ours := if bag.lists.Some? then nested.batch else batch;
        if nested.error.Some? then Step(nested.ctx, ours, nested.deletions, failed)
        else
          var rest := NestedDeletes(nested.ctx, urls[1..], cfg, db, mode, ours);
          assert forall u :: u in urls[1..] ==> u in urls;
          Step(rest.ctx, rest.batch, nested.deletions + rest.deletions, rest.failure)
  }

  // ---- delete ----------------------------------------------------------------

  /** The loop of `delete` for other than one SELECT: each SELECT on a new
      line, with a UNION after every one but the last. */
  function UnionLoop(sqls: seq<string>, i: nat, acc: string): (r: string)
    requires i <= |sqls|
    ensures acc <= r
    decreases |sqls| - i
  {
    if i == |sqls| then acc
    else
      var withSql := acc + LineBreak + sqls[i];
      UnionLoop(sqls, i + 1, if i < |sqls| - 1 then withSql + UnionSeparator else withSql)
  }

  /** The combined SELECT: a single SELECT unchanged, otherwise the loop's text trimmed. */
  function UnionSql(sqls: seq<string>): (sql: string)
    ensures |sqls| == 1 ==> sql == sqls[0]
    ensures |sqls| == 0 ==> sql == ""
    ensures |sqls| > 1 ==> sql == Trim(LineBreak + Join(sqls, UnionGlue))
  {
    if |sqls| == 1 then sqls[0]
    else
      if |sqls| > 1 then
        UnionLoopJoins(sqls);
        Trim(UnionLoop(sqls, 0, ""))
      else Trim(UnionLoop(sqls, 0, ""))
  }

  /** What the loop has built once the first `i` SELECTs are in. */
  function UnionPrefix(sqls: seq<string>, i: nat): string
    requires 0 < i <= |sqls|
  {
    LineBreak + Join(sqls[..i], UnionGlue) + (if i < |sqls| then UnionSeparator else "")
  }

  lemma {:induction false} UnionLoopFrom(sqls: seq<string>, i: nat)
    requires 0 < i <= |sqls|
    ensures UnionLoop(sqls, i, UnionPrefix(sqls, i)) == LineBreak + Join(sqls, UnionGlue)
    decreases |sqls| - i
  {
    if i == |sqls| {
      assert sqls[..i] == sqls;
    } else {
      var j := Join(sqls[..i], UnionGlue);
      var withSql := UnionPrefix(sqls, i) + LineBreak + sqls[i];
      assert sqls[..i + 1] == sqls[..i] + [sqls[i]];
      JoinSnoc(sqls[..i], sqls[i], UnionGlue);
      assert withSql == LineBreak + (j + UnionGlue + sqls[i]);
      assert withSql == LineBreak + Join(sqls[..i + 1], UnionGlue);
      var next := if i < |sqls| - 1 then withSql + UnionSeparator else withSql;
      assert next == UnionPrefix(sqls, i + 1);
      UnionLoopFrom(sqls, i + 1);
    }
  }

  /** The loop yields the SELECTs joined by UNIONs, after a leading line break. */
  lemma UnionLoopJoins(sqls: seq<string>)
    requires |sqls| > 0
    ensures UnionLoop(sqls, 0, "") == LineBreak + Join(sqls, UnionGlue)
  {
    assert sqls[..1] == [sqls[0]];
    assert Join(sqls[..1], UnionGlue) == sqls[0];
    assert "" + LineBreak + sqls[0] == LineBreak + sqls[0];
    assert UnionLoop(sqls, 0, "") == UnionLoop(sqls, 1, UnionPrefix(sqls, 1));
    UnionLoopFrom(sqls, 1);
  }

  /** The first and last characters of a join are those of its first and last parts. */
  lemma {:induction false} JoinEnds(parts: seq<string>, sep: string)
    requires |parts| > 0 && forall i :: 0 <= i < |parts| ==> |parts[i]| > 0
    ensures var j := Join(parts, sep);
      |j| > 0 && j[0] == parts[0][0] && j[|j| - 1] == parts[|parts| - 1][|parts[|parts| - 1]| - 1]
  {
    if |parts| > 1 {
      JoinEnds(parts[1..], sep);
    }
  }

  /** When the SELECTs carry no surrounding blanks, the combined statement is
      exactly the SELECTs in order with one UNION between each neighbouring
      pair, and its length accounts for n - 1 separators. */
  lemma UnionOfTrimmedSelects(sqls: seq<string>)
    requires |sqls| > 1
    requires forall i :: 0 <= i < |sqls| ==> |sqls[i]| > 0
    requires !IsTrimmed(sqls[0][0]) && !IsTrimmed(sqls[|sqls| - 1][|sqls[|sqls| - 1]| - 1])
    ensures UnionSql(sqls) == Join(sqls, UnionGlue)
    ensures |UnionSql(sqls)| == SumLengths(sqls) + (|sqls| - 1) * |UnionGlue|
  {
    JoinEnds(sqls, UnionGlue);
    TrimPadded(LineBreak, Join(sqls, UnionGlue));
    JoinLength(sqls, UnionGlue);
  }

  /** `Long.parseLong(id + "")` for each selected id, recording a change per
      id until one fails to parse; the flag says whether all did. */
  function RecordChanges(collection: string, ids: seq<string>): (r: (seq<Change>, bool))
    ensures |r.0| <= |ids|
    ensures r.1 ==> |r.0| == |ids|
    // the loop stops at the first id that is not a long
    ensures !r.1 ==> |r.0| < |ids| && ParseLong(ids[|r.0|]).None?
    ensures forall i :: 0 <= i < |r.0| ==>
      ParseLong(ids[i]).Some? && r.0[i] == Change(DeleteAction, collection, ParseLong(ids[i]).value)
  {
    if |ids| == 0 then ([], true)
    else
      match ParseLong(ids[0])
      case None => ([], false)
      case Some(v) =>
        var rest := RecordChanges(collection, ids[1..]);
        assert forall i :: 1 <= i < |ids| ==> ids[i] == ids[1..][i - 1];
        ([Change(DeleteAction, collection, v)] + rest.0, rest.1)
  }

  /** Every id parses as a Java long. */
  predicate AllLongs(ids: seq<string>) {
    forall i :: 0 <= i < |ids| ==> ParseLong(ids[i]).Some?
  }

  /** The flag is set exactly when every id parses as a Java long. */
  lemma RecordChangesFlag(collection: string, ids: seq<string>)
    ensures RecordChanges(collection, ids).1 <==> AllLongs(ids)
  {
  }

  /** The text of numeric ids, as `id + ""` writes them. */
  function IdTexts(ns: seq<int>): (r: seq<string>)
    ensures |r| == |ns| && forall i :: 0 <= i < |ns| ==> r[i] == IntToString(ns[i])
  {
    seq(|ns|, i requires 0 <= i < |ns| => IntToString(ns[i]))
  }

  /** Numeric ids are recorded as themselves, all of them, exactly when they
      fit in a Java long. */
  lemma RecordChangesOfNumbers(collection: string, ns: seq<int>)
    ensures var r := RecordChanges(collection, IdTexts(ns));
      && (r.1 <==> forall i :: 0 <= i < |ns| ==> LongMin <= ns[i] <= LongMax)
      && forall i :: 0 <= i < |r.0| ==> r.0[i] == Change(DeleteAction, collection, ns[i])
  {
    var ids := IdTexts(ns);
    forall i | 0 <= i < |ns| ensures ParseLong(ids[i]) == InLongRange(ns[i]) {
      ParseLongOfIntToString(ns[i]);
    }
    RecordChangesFlag(collection, ids);
  }

  function DeleteStatement(c: CollectionDb, ids: seq<string>): string {
    DeleteHead(c) + Join(ids, ",") + ")"
  }

  function DeleteHead(c: CollectionDb): string {
    "DELETE FROM " + c.table + " WHERE " + c.idCol + " IN ("
  }

  /** The DELETE targets the collection's table and names every selected id in
      its IN list. */
  lemma DeleteStatementNamesEveryId(c: CollectionDb, ids: seq<string>)
    ensures var r := DeleteStatement(c, ids);
      && DeleteHead(c) <= r && r[|r| - 1] == ')'
      && forall i :: 0 <= i < |ids| ==> Contains(r, ids[i])
  {
    var r := DeleteStatement(c, ids);
    forall i | 0 <= i < |ids| ensures Contains(r, ids[i]) {
      JoinHasPart(ids, ",", i);
      var j :| OccursAt(Join(ids, ","), ids[i], j);
      OccursInMiddle(DeleteHead(c), Join(ids, ","), ")", ids[i], j);
    }
  }

  /** `delete` on the collection `c` of the chain's request: one combined
      SELECT, one DELETE when it found ids, and one change per id. The
      exception the call ends with, if any, is the SELECT's (or that of the
      connection it needs), the DELETE's, or a `NumberFormatException` for an
      id that is not a long, which comes after the DELETE. */
  function Delete(batch: Batch, c: CollectionDb): (r: (Deletion, Option<ApiError>))
    ensures r.0.sql == UnionSql(batch.sqls) && r.0.args == batch.args
  {
    SelectAndDelete(UnionSql(batch.sqls), batch.args, c)
  }

  /** The rest of `delete` once the combined SELECT `sql` is built. */
  function SelectAndDelete(sql: string, args: seq<string>, c: CollectionDb): (r: (Deletion, Option<ApiError>))
    ensures r.0.sql == sql && r.0.args == args
  {
    match c.selectIds(sql, args)
    case Err(e) => (Deletion(sql, args, None, []), Some(e))
    case Ok(ids) =>
      var statement := if |ids| > 0 then Some(DeleteStatement(c, ids)) else None;
      var executed := if |ids| > 0 then c.execute(DeleteStatement(c, ids)) else None;
      if executed.Some? then (Deletion(sql, args, statement, []), executed)
      else
        var changes := RecordChanges(c.name, ids);
        (Deletion(sql, args, statement, changes.0),
         if changes.1 then None else Some(ApiError(Sc500InternalServerError, BadIdMessage)))
  }

  /** The DELETE is sent exactly when the combined SELECT answers with ids,
      and names them. */
  lemma DeleteSendsStatement(sql: string, args: seq<string>, c: CollectionDb)
    ensures var r := SelectAndDelete(sql, args, c);
      var selected := c.selectIds(sql, args);
      && (r.0.statement.Some? <==> selected.Ok? && |selected.value| > 0)
      && (r.0.statement.Some? ==> r.0.statement.value == DeleteStatement(c, selected.value))
  {
  }

  /** The call completes exactly when the database answers both statements and
      every id parses as a long; a failing statement records nothing and ends
      the call with its own exception. */
  lemma DeleteIssuesStatement(sql: string, args: seq<string>, c: CollectionDb)
    ensures var r := SelectAndDelete(sql, args, c);
      var selected := c.selectIds(sql, args);
      var sent := if selected.Ok? && |selected.value| > 0 then Some(DeleteStatement(c, selected.value)) else None;
      && r.0.statement == sent
      // a SELECT that throws sends no DELETE, records nothing and ends the call
      && (selected.Err? ==> r.0.changes == [] && r.1 == Some(selected.error))
      // a DELETE that throws records nothing and ends the call
      && (sent.Some? && c.execute(sent.value).Some? ==> r.0.changes == [] && r.1 == c.execute(sent.value))
      && (r.1.None? <==> selected.Ok? && (sent.None? || c.execute(sent.value).None?) && AllLongs(selected.value))
      // once the database has answered, the only failure is an id that is not a long
      && (selected.Ok? && (sent.None? || c.execute(sent.value).None?) && r.1.Some? ==>
            r.1 == Some(ApiError(Sc500InternalServerError, BadIdMessage)))
  {
    match c.selectIds(sql, args)
    case Err(e) =>
    case Ok(ids) =>
      if |ids| == 0 || c.execute(DeleteStatement(c, ids)).None? {
        var recorded := RecordChanges(c.name, ids);
        RecordChangesFlag(c.name, ids);
        var statement := if |ids| > 0 then Some(DeleteStatement(c, ids)) else None;
        assert SelectAndDelete(sql, args, c) ==
          (Deletion(sql, args, statement, recorded.0),
           if recorded.1 then None else Some(ApiError(Sc500InternalServerError, BadIdMessage)));
      }
  }

  /** Once the database has answered, a change is recorded per selected id, in
      order, as long as the ids parse, and for all of them when the call
      completes. */
  lemma DeleteRecordsChanges(sql: string, args: seq<string>, c: CollectionDb)
    ensures var r := SelectAndDelete(sql, args, c);
      var selected := c.selectIds(sql, args);
      var changes := r.0.changes;
      selected.Ok? ==>
        && |changes| <= |selected.value|
        && (r.1.None? ==> |changes| == |selected.value|)
        && forall i :: 0 <= i < |changes| ==>
             && ParseLong(selected.value[i]).Some?
             && changes[i] == Change(DeleteAction, c.name, ParseLong(selected.value[i]).value)
  {
    match c.selectIds(sql, args)
    case Err(e) =>
    case Ok(ids) =>
      var recorded := RecordChanges(c.name, ids);
      if |ids| == 0 || c.execute(DeleteStatement(c, ids)).None? {
        var statement := if |ids| > 0 then Some(DeleteStatement(c, ids)) else None;
        assert SelectAndDelete(sql, args, c) ==
          (Deletion(sql, args, statement, recorded.0),
           if recorded.1 then None else Some(ApiError(Sc500InternalServerError, BadIdMessage)));
      }
  }

  // ---- properties relating several calls -------------------------------------

  /** The nested delete of `url` succeeds whatever the batch holds: the URL is
      routed to this action, its batch rule lets it through, and `findIds`
      builds a SELECT with a where clause. */
  predicate NestedOk(cfg: BatchConfig, db: Db, url: string) {
    && db.route(url).Some?
    && var r := NestedRequest(url, db.route(url).value);
    && BatchAllowed(cfg, r.entityKey, Lower(r.collectionKey))
    && FindIds(r, db, Batch([], [])).Ok?
  }

  /** The SELECT that `findIds` builds for the nested delete of `url`. */
  function NestedSelect(cfg: BatchConfig, db: Db, url: string): string
    requires NestedOk(cfg, db, url)
  {
    FindIds(NestedRequest(url, db.route(url).value), db, Batch([], [])).value.sqls[0]
  }

  /** The SELECTs of the nested deletes of `urls`, in order. */
  function NestedSelects(cfg: BatchConfig, db: Db, urls: seq<string>): (r: seq<string>)
    requires forall i :: 0 <= i < |urls| ==> NestedOk(cfg, db, urls[i])
    ensures |r| == |urls|
  {
    if |urls| == 0 then []
    else
      assert forall i :: 0 <= i < |urls| - 1 ==> urls[1..][i] == urls[i + 1];
      [NestedSelect(cfg, db, urls[0])] + NestedSelects(cfg, db, urls[1..])
  }

  /** The database never fails a delete: every SELECT of every collection
      answers, every id it finds parses as a Java long, and every DELETE
      statement executes. */
  ghost predicate DbSucceeds(db: Db) {
    && (forall key, sql, args :: SelectSucceeds(db.collections(key).selectIds(sql, args)))
    && (forall key, statement :: db.collections(key).execute(statement).None?)
  }

  predicate SelectSucceeds(selected: Result<seq<string>>) {
    selected.Ok? && AllLongs(selected.value)
  }

  /** Every SELECT of every collection that answers finds at least one id. */
  ghost predicate FindsIds(db: Db) {
    forall key, sql, args :: FindsSome(db.collections(key).selectIds(sql, args))
  }

  predicate FindsSome(selected: Result<seq<string>>) {
    selected.Ok? ==> |selected.value| > 0
  }

  /** One nested delete inside an open batch: it succeeds exactly when
      `NestedOk` says so, deletes nothing itself, and appends its SELECT to the
      lists it found in the bag. */
  lemma NestedCallInBatch(ctx: Context, url: string, cfg: BatchConfig, db: Db, mode: Cleanup, batch: Batch)
    requires ctx.lists.Some? && db.route(url).Some?
    ensures var nested := Service(Sync(ctx, batch), NestedRequest(url, db.route(url).value), cfg, db, mode);
      && (nested.error.None? <==> NestedOk(cfg, db, url))
      && nested.deletions == []
      && (nested.error.None? ==> nested.batch.sqls == batch.sqls + [NestedSelect(cfg, db, url)])
  {
    var bag := Sync(ctx, batch);
    var req := NestedRequest(url, db.route(url).value);
    var p := Begin(bag);
    assert !p.root && p.batch == batch;
    var alone := FindIds(req, db, Batch([], []));
    var here := FindIds(req, db, batch);
    FindIdsSelects(req, db, Batch([], []));
    FindIdsSelects(req, db, batch);
    assert here.Ok? <==> alone.Ok?;
    if here.Ok? {
      assert alone.value.sqls == [] + [here.value.sqls[|batch.sqls|]];
    }
  }

  /** As intended, the first nested delete of a batch either fails, naming its
      URL, or hands the rest of the batch a bag that still holds the lists,
      now with its SELECT added. */
  lemma NestedDeletesFirst(ctx: Context, urls: seq<string>, cfg: BatchConfig, db: Db, batch: Batch)
    returns (next: Context, nextBatch: Batch)
    requires ctx.lists.Some? && |urls| > 0
    ensures var step := NestedDeletes(ctx, urls, cfg, db, RemoveAtRoot, batch);
      && (!NestedOk(cfg, db, urls[0]) ==>
            step.failure == Some(ApiError(Sc500InternalServerError, NestedFailedMessage(urls[0]))))
      && (NestedOk(cfg, db, urls[0]) ==>
            && next.lists.Some?
            && nextBatch.sqls == batch.sqls + [NestedSelect(cfg, db, urls[0])]
            && step.failure == NestedDeletes(next, urls[1..], cfg, db, RemoveAtRoot, nextBatch).failure
            && step.batch == NestedDeletes(next, urls[1..], cfg, db, RemoveAtRoot, nextBatch).batch)
  {
    next, nextBatch := ctx, batch;
    if db.route(urls[0]).Some? {
      var nested := Service(Sync(ctx, batch), NestedRequest(urls[0], db.route(urls[0]).value), cfg, db, RemoveAtRoot);
      NestedCallInBatch(ctx, urls[0], cfg, db, RemoveAtRoot, batch);
      next, nextBatch := nested.ctx, nested.batch;
    }
  }

  /** As intended, a batch of nested deletes goes through exactly when every
      URL's nested delete succeeds. */
  lemma {:induction false} NestedDeletesSucceedExactly(ctx: Context, urls: seq<string>, cfg: BatchConfig, db: Db, batch: Batch)
    requires ctx.lists.Some?
    ensures NestedDeletes(ctx, urls, cfg, db, RemoveAtRoot, batch).failure.None? <==>
      forall i :: 0 <= i < |urls| ==> NestedOk(cfg, db, urls[i])
    decreases |urls|
  {
    if |urls| > 0 {
      var next, nextBatch := NestedDeletesFirst(ctx, urls, cfg, db, batch);
      if NestedOk(cfg, db, urls[0]) {
        var rest := urls[1..];
        NestedDeletesSucceedExactly(next, rest, cfg, db, nextBatch);
        assert forall i :: 0 <= i < |rest| ==> rest[i] == urls[i + 1];
        assert (forall i :: 0 <= i < |urls| ==> NestedOk(cfg, db, urls[i])) <==>
               (forall i :: 0 <= i < |rest| ==> NestedOk(cfg, db, rest[i]));
      }
    }
  }

  /** As intended, the nested deletes of a body run in URL order, deleting
      nothing along the way: when they all succeed, the lists have received
      each URL's SELECT, in order. */
  lemma {:induction false} NestedDeletesInOrder(ctx: Context, urls: seq<string>, cfg: BatchConfig, db: Db, batch: Batch)
    requires ctx.lists.Some?
    requires forall i :: 0 <= i < |urls| ==> NestedOk(cfg, db, urls[i])
    ensures var step := NestedDeletes(ctx, urls, cfg, db, RemoveAtRoot, batch);
      && step.deletions == []
      && step.failure.None?
      && step.batch.sqls == batch.sqls + NestedSelects(cfg, db, urls)
    decreases |urls|
  {
    NestedDeletesSucceedExactly(ctx, urls, cfg, db, batch);
    if |urls| > 0 {
      var next, nextBatch := NestedDeletesFirst(ctx, urls, cfg, db, batch);
      var rest := urls[1..];
      assert forall i :: 0 <= i < |rest| ==> rest[i] == urls[i + 1];
      NestedDeletesInOrder(next, rest, cfg, db, nextBatch);
      assert nextBatch.sqls + NestedSelects(cfg, db, rest) == batch.sqls + NestedSelects(cfg, db, urls);
    }
  }

  /** As intended, a failed batch names the first URL whose nested delete fails. */
  lemma {:induction false} NestedFailureNamesFirst(ctx: Context, urls: seq<string>, cfg: BatchConfig, db: Db, batch: Batch)
    requires ctx.lists.Some?
    requires NestedDeletes(ctx, urls, cfg, db, RemoveAtRoot, batch).failure.Some?
    ensures exists k ::
      && 0 <= k < |urls| && !NestedOk(cfg, db, urls[k])
      && (forall j :: 0 <= j < k ==> NestedOk(cfg, db, urls[j]))
      && NestedDeletes(ctx, urls, cfg, db, RemoveAtRoot, batch).failure
           == Some(ApiError(Sc500InternalServerError, NestedFailedMessage(urls[k])))
    decreases |urls|
  {
    var next, nextBatch := NestedDeletesFirst(ctx, urls, cfg, db, batch);
    if NestedOk(cfg, db, urls[0]) {
      var rest := urls[1..];
      NestedFailureNamesFirst(next, rest, cfg, db, nextBatch);
      var k :| && 0 <= k < |rest| && !NestedOk(cfg, db, rest[k])
               && (forall j :: 0 <= j < k ==> NestedOk(cfg, db, rest[j]))
               && NestedDeletes(next, rest, cfg, db, RemoveAtRoot, nextBatch).failure
                    == Some(ApiError(Sc500InternalServerError, NestedFailedMessage(rest[k])));
      assert forall j :: 0 <= j < k + 1 ==> NestedOk(cfg, db, urls[j]) by {
        forall j | 0 <= j < k + 1 ensures NestedOk(cfg, db, urls[j]) {
          if j > 0 { assert urls[j] == rest[j - 1]; }
        }
      }
      assert urls[k + 1] == rest[k];
    } else {
      assert !NestedOk(cfg, db, urls[0]);
    }
  }

  /** As intended, a root delete whose body names N URLs of its collection,
      each of whose nested deletes succeeds, collects exactly the N nested
      SELECTs in URL order and sends them as one combined statement, once. */
  lemma OneStatementPerBatch(ctx: Context, req: Request, cfg: BatchConfig, db: Db)
    requires IsRoot(ctx)
    requires req.json.Some? && req.json.value.JArray? && |req.entityKey| == 0
    requires CheckUrls(req.json.value.items, BasePath(req.url)).Ok?
    requires forall u :: u in CheckUrls(req.json.value.items, BasePath(req.url)).value ==> NestedOk(cfg, db, u)
    ensures var out := Service(ctx, req, cfg, db, RemoveAtRoot);
      var urls := CheckUrls(req.json.value.items, BasePath(req.url)).value;
      && out.batch.sqls == NestedSelects(cfg, db, urls)
      && |out.deletions| == 1
      && out.deletions[0].sql == UnionSql(NestedSelects(cfg, db, urls))
      && (out.deletions[0].statement.Some? ==> DeleteHead(db.collections(req.collectionKey)) <= out.deletions[0].statement.value)
  {
    var urls := CheckUrls(req.json.value.items, BasePath(req.url)).value;
    var p := Begin(ctx);
    assert forall i :: 0 <= i < |urls| ==> NestedOk(cfg, db, urls[i]);
    NestedDeletesInOrder(p.ctx, urls, cfg, db, p.batch);
    var step := Handle(p.ctx, req, cfg, db, RemoveAtRoot, p.batch);
    var c := db.collections(req.collectionKey);
    DeleteSendsStatement(UnionSql(step.batch.sqls), step.batch.args, c);
    assert Service(ctx, req, cfg, db, RemoveAtRoot).deletions == step.deletions + [Delete(step.batch, c).0];
  }

  /** As intended, a delete nested in a batch never deletes on its own; it
      only adds to the lists of the root, which stay in the bag. */
  lemma NestedNeverDeletes(ctx: Context, req: Request, cfg: BatchConfig, db: Db)
    requires !IsRoot(ctx)
    ensures var out := Service(ctx, req, cfg, db, RemoveAtRoot);
      && out.deletions == []
      && ctx.lists.value.sqls <= out.batch.sqls
      && out.ctx == ctx.(lists := Some(out.batch))
  {
  }

  /** A body that names a URL outside the collection fails with 400 and issues
      no nested delete: the lists are untouched and nothing is deleted. */
  lemma ForeignUrlRejectedUpFront(ctx: Context, req: Request, cfg: BatchConfig, db: Db, mode: Cleanup, i: int)
    requires req.json.Some? && req.json.value.JArray? && |req.entityKey| == 0
    requires 0 <= i < |req.json.value.items|
    requires !req.json.value.items[i].JString? || !InCollection(req.json.value.items[i].text, BasePath(req.url))
    ensures var out := Service(ctx, req, cfg, db, mode);
      && out.error.Some? && out.error.value.status == Sc400BadRequest
      && out.batch == Begin(ctx).batch
      && out.deletions == []
  {
    CheckUrlsAcceptsExactly(req.json.value.items, BasePath(req.url));
    assert !Accepted(req.json.value.items[i], BasePath(req.url));
  }

  /** As intended, a batch is all or nothing: when the nested delete of some
      URL of the body fails, the root fails with the 500 naming the first URL
      that fails, and nothing at all is deleted. */
  lemma FailedNestedDeleteAbortsBatch(ctx: Context, req: Request, cfg: BatchConfig, db: Db, k: int)
    requires IsRoot(ctx)
    requires req.json.Some? && req.json.value.JArray? && |req.entityKey| == 0
    requires CheckUrls(req.json.value.items, BasePath(req.url)).Ok?
    requires 0 <= k < |CheckUrls(req.json.value.items, BasePath(req.url)).value|
    requires !NestedOk(cfg, db, CheckUrls(req.json.value.items, BasePath(req.url)).value[k])
    ensures var out := Service(ctx, req, cfg, db, RemoveAtRoot);
      var urls := CheckUrls(req.json.value.items, BasePath(req.url)).value;
      && out.deletions == []
      && exists j :: 0 <= j <= k && out.error == Some(ApiError(Sc500InternalServerError, NestedFailedMessage(urls[j])))
  {
    var urls := CheckUrls(req.json.value.items, BasePath(req.url)).value;
    var p := Begin(ctx);
    NestedDeletesSucceedExactly(p.ctx, urls, cfg, db, p.batch);
    NestedFailureNamesFirst(p.ctx, urls, cfg, db, p.batch);
  }

  // ---- the shared lists removed by a nested delete -------------------------

  /** As written, a nested delete that finds no lists in the bag is a root of
      its own: it opens a batch, deletes its ids at once and removes its lists. */
  lemma NestedRootDeletesAlone(ctx: Context, url: string, cfg: BatchConfig, db: Db, batch: Batch)
    requires ctx.lists.None?
    requires NestedOk(cfg, db, url) && DbSucceeds(db)
    ensures var nested := Service(Sync(ctx, batch), NestedRequest(url, db.route(url).value), cfg, db, RemoveAlways);
      && nested.error.None?
      && |nested.deletions| == 1
      && nested.deletions[0].sql == NestedSelect(cfg, db, url)
      && (FindsIds(db) ==> nested.deletions[0].statement.Some?)
      && nested.ctx == ctx
  {
    var req := NestedRequest(url, db.route(url).value);
    var p := Begin(ctx);
    var step := Handle(p.ctx, req, cfg, db, RemoveAlways, p.batch);
    assert step.batch.sqls == [NestedSelect(cfg, db, url)];
    var deletion := Delete(step.batch, db.collections(req.collectionKey));
    var c := db.collections(req.collectionKey);
    DeleteSendsStatement(UnionSql(step.batch.sqls), step.batch.args, c);
    DeleteIssuesStatement(UnionSql(step.batch.sqls), step.batch.args, c);
    assert SelectSucceeds(c.selectIds(UnionSql(step.batch.sqls), step.batch.args));
    assert deletion.1.None?;
    var out := Service(ctx, req, cfg, db, RemoveAlways);
  }

  /** As written, once the lists have left the bag, every further URL's nested
      delete is a root and runs its own delete. */
  lemma {:induction false} NestedRootsDeleteEach(ctx: Context, urls: seq<string>, cfg: BatchConfig, db: Db, batch: Batch)
    requires ctx.lists.None?
    requires forall i :: 0 <= i < |urls| ==> NestedOk(cfg, db, urls[i])
    requires DbSucceeds(db)
    ensures var step := NestedDeletes(ctx, urls, cfg, db, RemoveAlways, batch);
      && step.failure.None?
      && |step.deletions| == |urls|
      && (forall i :: 0 <= i < |urls| ==> step.deletions[i].sql == NestedSelect(cfg, db, urls[i]))
      && (FindsIds(db) ==> forall i :: 0 <= i < |urls| ==> step.deletions[i].statement.Some?)
    decreases |urls|
  {
    if |urls| > 0 {
      var nested := Service(Sync(ctx, batch), NestedRequest(urls[0], db.route(urls[0]).value), cfg, db, RemoveAlways);
      NestedRootDeletesAlone(ctx, urls[0], cfg, db, batch);
      var rest := urls[1..];
      assert forall i :: 0 <= i < |rest| ==> rest[i] == urls[i + 1];
      NestedRootsDeleteEach(ctx, rest, cfg, db, batch);
      var tail := NestedDeletes(ctx, rest, cfg, db, RemoveAlways, batch);
      NestedDeletesUnfold(ctx, urls, cfg, db, RemoveAlways, batch);
      assert NestedDeletes(ctx, urls, cfg, db, RemoveAlways, batch).deletions == nested.deletions + tail.deletions;
    }
  }

  /** One round of the loop over the body's URLs, when the first nested
      delete succeeds: the rest of the loop runs on the bag it leaves. */
  lemma NestedDeletesUnfold(ctx: Context, urls: seq<string>, cfg: BatchConfig, db: Db, mode: Cleanup, batch: Batch)
    requires |urls| > 0 && db.route(urls[0]).Some?
    requires Service(Sync(ctx, batch), NestedRequest(urls[0], db.route(urls[0]).value), cfg, db, mode).error.None?
    ensures var nested := Service(Sync(ctx, batch), NestedRequest(urls[0], db.route(urls[0]).value), cfg, db, mode);
      var ours := if ctx.lists.Some? then nested.batch else batch;
      var rest := NestedDeletes(nested.ctx, urls[1..], cfg, db, mode, ours);
      NestedDeletes(ctx, urls, cfg, db, mode, batch) == Step(rest.ctx, rest.batch, nested.deletions + rest.deletions, rest.failure)
  {
  }

  /** As written, a root delete whose body names N URLs of its collection, each
      of whose nested deletes succeeds, runs N deletes instead of one: the
      first nested delete removes the root's lists from the shared bag, so
      every later URL is deleted by a statement of its own, and the root's
      combined statement covers the first URL only. With ids found by every
      SELECT, that is N DELETE statements. */
  lemma AsWrittenDeletesPerUrl(ctx: Context, req: Request, cfg: BatchConfig, db: Db)
    requires IsRoot(ctx)
    requires req.json.Some? && req.json.value.JArray? && |req.json.value.items| > 0 && |req.entityKey| == 0
    requires CheckUrls(req.json.value.items, BasePath(req.url)).Ok?
    requires forall u :: u in CheckUrls(req.json.value.items, BasePath(req.url)).value ==> NestedOk(cfg, db, u)
    requires DbSucceeds(db) && FindsIds(db)
    ensures var out := Service(ctx, req, cfg, db, RemoveAlways);
      var urls := CheckUrls(req.json.value.items, BasePath(req.url)).value;
      && out.error.None?
      && |out.deletions| == |req.json.value.items|
      && out.batch.sqls == [NestedSelect(cfg, db, urls[0])]
      && forall i :: 0 <= i < |out.deletions| ==> out.deletions[i].statement.Some?
  {
    var urls := CheckUrls(req.json.value.items, BasePath(req.url)).value;
    var p := Begin(ctx);
    AsWrittenFirstUrlStays(p.ctx, urls, cfg, db, p.batch);
    var step := Handle(p.ctx, req, cfg, db, RemoveAlways, p.batch);
    var c := db.collections(req.collectionKey);
    var deletion := Delete(step.batch, c);
    var selected := c.selectIds(UnionSql(step.batch.sqls), step.batch.args);
    assert SelectSucceeds(selected) && FindsSome(selected);
    DeleteSendsStatement(UnionSql(step.batch.sqls), step.batch.args, c);
    DeleteIssuesStatement(UnionSql(step.batch.sqls), step.batch.args, c);
    var out := Service(ctx, req, cfg, db, RemoveAlways);
    assert out.deletions == step.deletions + [deletion.0] && out.error == deletion.1;
  }

  /** As written, of the nested deletes of a batch only the first adds to the
      root's lists; each later one runs its own delete. */
  lemma AsWrittenFirstUrlStays(ctx: Context, urls: seq<string>, cfg: BatchConfig, db: Db, batch: Batch)
    requires ctx.lists.Some? && |urls| > 0
    requires forall i :: 0 <= i < |urls| ==> NestedOk(cfg, db, urls[i])
    requires DbSucceeds(db)
    ensures var step := NestedDeletes(ctx, urls, cfg, db, RemoveAlways, batch);
      && step.failure.None?
      && step.batch.sqls == batch.sqls + [NestedSelect(cfg, db, urls[0])]
      && |step.deletions| == |urls| - 1
      && (forall i :: 0 <= i < |urls| - 1 ==> step.deletions[i].sql == NestedSelect(cfg, db, urls[i + 1]))
      && (FindsIds(db) ==> forall i :: 0 <= i < |step.deletions| ==> step.deletions[i].statement.Some?)
  {
    var first := Service(Sync(ctx, batch), NestedRequest(urls[0], db.route(urls[0]).value), cfg, db, RemoveAlways);
    NestedCallInBatch(ctx, urls[0], cfg, db, RemoveAlways, batch);
    var rest := urls[1..];
    assert forall i :: 0 <= i < |rest| ==> rest[i] == urls[i + 1];
    NestedRootsDeleteEach(first.ctx, rest, cfg, db, first.batch);
  }

  // ---- the off-by-one in the query-string cut ------------------------------

  /** Lower-casing keeps a prefix a prefix. */
  lemma LowerPrefix(a: string, b: string)
    requires a <= b
    ensures Lower(a) <= Lower(b)
  {
    assert forall i :: 0 <= i < |a| ==> Lower(a)[i] == LowerChar(b[i]) == Lower(b)[i];
  }

  /** With the code's cut, a request to `/books?q` accepts a body URL of the
      `bookmarks` collection, which the intended cut rejects. */
  lemma BasePathAsWrittenAcceptsOtherCollection()
    ensures BasePathAsWritten("/books?q") == "/book"
    ensures InCollection("/bookmarks/1", BasePathAsWritten("/books?q"))
    ensures BasePath("/books?q") == "/books"
    ensures !InCollection("/bookmarks/1", BasePath("/books?q"))
  {
    var url := "/books?q";
    assert OccursAt(url, "?", 6);
    assert forall j :: 0 <= j < 6 ==> !OccursAt(url, "?", j) by {
      forall j | 0 <= j < 6 ensures !OccursAt(url, "?", j) {
        assert url[j..j + 1] == [url[j]];
      }
    }
    assert IndexOf(url, "?") == 6;
    assert url[..5] == "/book" && url[..6] == "/books";
    var other := "/bookmarks/1";
    assert "/book" <= other;
    LowerPrefix("/book", other);
    assert Lower("/books")[5] == LowerChar('s') == 's';
    assert Lower(other)[5] == LowerChar('m') == 'm';
  }
}
