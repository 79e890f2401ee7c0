/**
 The Redis caching handler: it builds a cache key from the request's API URL,
 path and alphabetically sorted parameters, and decides per request whether to
 skip the cache, answer from it (cancelling the rest of the chain), or let the
 chain run and store a successful response. Redis itself is abstract: a map of
 entries plus the ways reading and writing can fail.
 */
module RedisHandler {
  import opened Api
  import opened Strings
  import StringOrder

  const DefaultNocacheParam := "nocache"
  const DefaultPort := 6379
  /** 15,552,000 seconds, i.e. 180 days. */
  const DefaultTtl := 15552000
  const SchemeSeparator := "://"

  // ---- request parameters and their TreeMap order ---------------------

  /** One request parameter. */
  datatype Param = Param(name: string, value: string)

  /** The request's parameter map, as the sequence of its entries in insertion
      order; its names are distinct because it is a map. */
  predicate DistinctNames(ps: seq<Param>) {
    forall i, j :: 0 <= i < j < |ps| ==> ps[i].name != ps[j].name
  }

  function Names(ps: seq<Param>): set<string> {
    set p | p in ps :: p.name
  }

  /** The map the entries describe. */
  function ParamMap(ps: seq<Param>): map<string, string> {
    if |ps| == 0 then map[] else ParamMap(ps[..|ps| - 1])[ps[|ps| - 1].name := ps[|ps| - 1].value]
  }

  /** Strictly ascending names: the iteration order of a `TreeMap<String, String>`. */
  predicate SortedByName(ps: seq<Param>) {
    forall i, j :: 0 <= i < j < |ps| ==> StringOrder.Less(ps[i].name, ps[j].name)
  }

  function Insert(p: Param, s: seq<Param>): (r: seq<Param>)
    ensures multiset(r) == multiset(s) + multiset{p}
    ensures |r| == |s| + 1
  {
    if |s| == 0 then [p]
    else if StringOrder.Less(p.name, s[0].name) then [p] + s
    else
      assert s == [s[0]] + s[1..];
      [s[0]] + Insert(p, s[1..])
  }

  /** The entries of `new TreeMap<>(params)`, in iteration order. */
  function TreeOrder(ps: seq<Param>): (r: seq<Param>)
    ensures multiset(r) == multiset(ps)
    ensures |r| == |ps|
  {
    if |ps| == 0 then []
    else
      assert ps == [ps[0]] + ps[1..];
      Insert(ps[0], TreeOrder(ps[1..]))
  }

  /** An entry whose name sorts before every name of a sorted sequence can go first. */
  lemma SortedCons(x: Param, s: seq<Param>)
    requires SortedByName(s)
    requires forall j :: 0 <= j < |s| ==> StringOrder.Less(x.name, s[j].name)
    ensures SortedByName([x] + s)
  {
    var r := [x] + s;
    forall i, j | 0 <= i < j < |r| ensures StringOrder.Less(r[i].name, r[j].name) {
      assert r[j] == s[j - 1];
      if i > 0 {
        assert r[i] == s[i - 1];
      }
    }
  }

  /** Inserting keeps every name above a bound that the entries were above. */
  lemma InsertAbove(lo: string, p: Param, t: seq<Param>)
    requires StringOrder.Less(lo, p.name)
    requires forall j :: 0 <= j < |t| ==> StringOrder.Less(lo, t[j].name)
    ensures forall j :: 0 <= j < |Insert(p, t)| ==> StringOrder.Less(lo, Insert(p, t)[j].name)
  {
    var r := Insert(p, t);
    forall j | 0 <= j < |r| ensures StringOrder.Less(lo, r[j].name) {
      assert r[j] in multiset(r);
      if r[j] != p {
        assert r[j] in multiset(t);
        var k :| 0 <= k < |t| && t[k] == r[j];
      }
    }
  }

  lemma {:induction false} InsertSorted(p: Param, s: seq<Param>)
    requires SortedByName(s)
    requires p.name !in Names(s)
    ensures SortedByName(Insert(p, s))
  {
    if |s| == 0 {
    } else if StringOrder.Less(p.name, s[0].name) {
      forall j | 0 <= j < |s|
        ensures StringOrder.Less(p.name, s[j].name)
      {
        if j > 0 {
          StringOrder.Transitive(p.name, s[0].name, s[j].name);
        }
      }
      SortedCons(p, s);
    } else {
      assert s[0] in s;
      StringOrder.Total(p.name, s[0].name);
      var t := s[1..];
      assert p.name !in Names(t) by {
        forall q | q in t ensures q.name != p.name {
          assert q in s;
        }
      }
      InsertSorted(p, t);
      forall j | 0 <= j < |t| ensures StringOrder.Less(s[0].name, t[j].name) {
        assert t[j] == s[j + 1];
      }
      InsertAbove(s[0].name, p, t);
      SortedCons(s[0], Insert(p, t));
    }
  }

  lemma {:induction false} TreeOrderSorted(ps: seq<Param>)
    requires DistinctNames(ps)
    ensures SortedByName(TreeOrder(ps))
  {
    if |ps| > 0 {
      var rest := ps[1..];
      TreeOrderSorted(rest);
      var s := TreeOrder(rest);
      forall q | q in s ensures q.name != ps[0].name {
        assert q in multiset(s);
        var k :| 0 <= k < |rest| && rest[k] == q;
        assert ps[k + 1] == q;
      }
      InsertSorted(ps[0], s);
    }
  }

  /** Two name-sorted entry sequences holding the same entries are equal. */
  lemma {:induction false} SortedUnique(a: seq<Param>, b: seq<Param>)
    requires SortedByName(a) && SortedByName(b)
    requires forall x :: x in a <==> x in b
    ensures a == b
  {
    assert |a| == 0 <==> |b| == 0 by {
      if |a| > 0 {
        assert a[0] in a;
      }
      if |b| > 0 {
        assert b[0] in b;
      }
    }
    if |a| > 0 {
      assert a[0] in a;
      assert b != [];
      assert b[0] in b;
      var k :| 0 <= k < |b| && b[k] == a[0];
      var m :| 0 <= m < |a| && a[m] == b[0];
      if k > 0 && m > 0 {
        StringOrder.Asymmetric(b[0].name, a[0].name);
      } else if k > 0 {
        StringOrder.Irreflexive(b[0].name);
      }
      assert a[0] == b[0];
      forall x ensures x in a[1..] <==> x in b[1..] {
        if x in a[1..] {
          var j :| 1 <= j < |a| && a[j] == x;
          StringOrder.Irreflexive(a[0].name);
          assert x != a[0];
          assert x in b;
        }
        if x in b[1..] {
          var j :| 1 <= j < |b| && b[j] == x;
          StringOrder.Irreflexive(b[0].name);
          assert x != b[0];
          assert x in a;
        }
      }
      SortedUnique(a[1..], b[1..]);
      assert a == [a[0]] + a[1..] && b == [b[0]] + b[1..];
    }
  }

  /** With distinct names, an entry is in the sequence exactly when the map
      holds its value under its name. */
  lemma {:induction false} ParamMapEntries(ps: seq<Param>, x: Param)
    requires DistinctNames(ps)
    ensures x in ps <==> x.name in ParamMap(ps) && ParamMap(ps)[x.name] == x.value
  {
    if |ps| > 0 {
      var init := ps[..|ps| - 1];
      var last := ps[|ps| - 1];
      assert ps == init + [last];
      ParamMapEntries(init, x);
      forall j | 0 <= j < |init| ensures init[j].name != last.name {
        assert init[j] == ps[j];
      }
    }
  }

  /** The TreeMap order depends only on the map, not on the order in which
      the parameters were put into it. */
  lemma TreeOrderIndependentOfInsertion(ps1: seq<Param>, ps2: seq<Param>)
    requires DistinctNames(ps1) && DistinctNames(ps2)
    requires ParamMap(ps1) == ParamMap(ps2)
    ensures TreeOrder(ps1) == TreeOrder(ps2)
  {
    TreeOrderSorted(ps1);
    TreeOrderSorted(ps2);
    forall x ensures x in TreeOrder(ps1) <==> x in TreeOrder(ps2) {
      ParamMapEntries(ps1, x);
      ParamMapEntries(ps2, x);
      assert x in TreeOrder(ps1) <==> x in multiset(ps1);
      assert x in TreeOrder(ps2) <==> x in multiset(ps2);
    }
    SortedUnique(TreeOrder(ps1), TreeOrder(ps2));
  }

  // ---- the cache key -----------------------------------------------------

  /** One parameter in the key: its name, and `=value` unless the value is empty. */
  function Render(p: Param): string {
    if |p.value| == 0 then p.name else p.name + "=" + p.value
  }

  function Renders(ps: seq<Param>): (r: seq<string>)
    ensures |r| == |ps|
    ensures forall i :: 0 <= i < |ps| ==> r[i] == Render(ps[i])
  {
    if |ps| == 0 then [] else [Render(ps[0])] + Renders(ps[1..])
  }

  /** The loop of `getCacheKey` over the sorted entries: `acc` is `sortedParams`
      so far and `isFirst` the `isFirstParam` flag. */
  function ParamsLoop(entries: seq<Param>, acc: string, isFirst: bool): (r: string)
    // the loop only appends, and the first thing it appends is '?' on the
    // first entry and '&' on any later one
    ensures acc <= r
    ensures |entries| > 0 ==> |r| > |acc| && r[|acc|] == (if isFirst then '?' else '&')
  {
    if |entries| == 0 then acc
    else
      var sep := if isFirst then "?" else "&";
      ParamsLoop(entries[1..], acc + sep + Render(entries[0]), false)
  }

  /** The parameter suffix the key is meant to carry: nothing without
      parameters, otherwise '?' and the rendered entries joined by '&'. */
  function QueryString(entries: seq<Param>): string {
    if |entries| == 0 then "" else "?" + Join(Renders(entries), "&")
  }

  /** One more entry adds '&' and the entry to the parameter suffix. */
  lemma QueryStringSnoc(done: seq<Param>, p: Param)
    requires |done| > 0
    ensures QueryString(done) + "&" + Render(p) == QueryString(done + [p])
  {
    var j := Join(Renders(done), "&");
    var x := Render(p);
    assert Renders(done + [p]) == Renders(done) + [x];
    JoinSnoc(Renders(done), x, "&");
    assert QueryString(done + [p]) == "?" + (j + "&" + x);
    assert ("?" + j) + "&" + x == "?" + (j + "&" + x);
  }

  lemma {:induction false} ParamsLoopRest(done: seq<Param>, rest: seq<Param>)
    requires |done| > 0
    ensures ParamsLoop(rest, QueryString(done), false) == QueryString(done + rest)
    decreases |rest|
  {
    if |rest| == 0 {
      assert done + rest == done;
    } else {
      var next := done + [rest[0]];
      QueryStringSnoc(done, rest[0]);
      assert ParamsLoop(rest, QueryString(done), false) == ParamsLoop(rest[1..], QueryString(next), false);
      ParamsLoopRest(next, rest[1..]);
      assert next + rest[1..] == done + rest;
    }
  }

  /** The loop puts '?' before the first entry, '&' before every later one,
      and produces nothing when there are no entries. */
  lemma ParamsLoopIsQueryString(entries: seq<Param>)
    ensures ParamsLoop(entries, "", true) == QueryString(entries)
  {
    if |entries| > 0 {
      var first := [entries[0]];
      assert Renders(first) == [Render(entries[0])];
      assert "" + "?" + Render(entries[0]) == QueryString(first);
      ParamsLoopRest(first, entries[1..]);
      assert first + entries[1..] == entries;
    }
  }

  /** `apiUrl.substring(apiUrl.indexOf("://") + 3)`; without a "://" the index
      is -1 and the first two characters are dropped, and `None` stands for the
      `StringIndexOutOfBoundsException` of a URL shorter than that. */
  function AfterScheme(apiUrl: string): (r: Option<string>)
    ensures Contains(apiUrl, SchemeSeparator) ==> r.Some? && SchemeSeparator + r.value <= apiUrl[IndexOf(apiUrl, SchemeSeparator)..]
    ensures Contains(apiUrl, SchemeSeparator) ==> r == Some(apiUrl[IndexOf(apiUrl, SchemeSeparator) + 3..])
    ensures !Contains(apiUrl, SchemeSeparator) ==> (r.Some? <==> |apiUrl| >= 2)
    ensures !Contains(apiUrl, SchemeSeparator) && |apiUrl| >= 2 ==> r == Some(apiUrl[2..])
  {
    var start := IndexOf(apiUrl, SchemeSeparator) + 3;
    if start <= |apiUrl| then Some(apiUrl[start..]) else None
  }

  /** `getCacheKey`. */
  function CacheKey(apiUrl: string, path: string, params: seq<Param>): (r: Option<string>)
    ensures r.Some? <==> AfterScheme(apiUrl).Some?
    ensures r.Some? ==> r.value == AfterScheme(apiUrl).value + path + QueryString(TreeOrder(params))
  {
    ParamsLoopIsQueryString(TreeOrder(params));
    match AfterScheme(apiUrl)
    case None => None
    case Some(host) => Some(host + path + ParamsLoop(TreeOrder(params), "", true))
  }

  /** Without parameters the key carries no '?': it is the URL after the
      scheme followed by the path. */
  lemma CacheKeyWithoutParams(apiUrl: string, path: string)
    requires AfterScheme(apiUrl).Some?
    ensures CacheKey(apiUrl, path, []) == Some(AfterScheme(apiUrl).value + path)
  {
    assert AfterScheme(apiUrl).value + path + QueryString(TreeOrder([])) == AfterScheme(apiUrl).value + path;
  }

  /** The key does not depend on the order in which the parameters were added. */
  lemma CacheKeyIndependentOfInsertion(apiUrl: string, path: string, ps1: seq<Param>, ps2: seq<Param>)
    requires DistinctNames(ps1) && DistinctNames(ps2)
    requires ParamMap(ps1) == ParamMap(ps2)
    ensures CacheKey(apiUrl, path, ps1) == CacheKey(apiUrl, path, ps2)
  {
    TreeOrderIndependentOfInsertion(ps1, ps2);
  }

  /** With parameters, the key's suffix lists every parameter once, in
      ascending name order, after '?' and separated by '&'. */
  lemma CacheKeyListsSortedParams(apiUrl: string, path: string, params: seq<Param>)
    requires DistinctNames(params) && |params| > 0
    requires AfterScheme(apiUrl).Some?
    ensures var sorted := TreeOrder(params);
      && SortedByName(sorted)
      && multiset(sorted) == multiset(params)
      && CacheKey(apiUrl, path, params).value
         == AfterScheme(apiUrl).value + path + ("?" + Join(Renders(sorted), "&"))
  {
    TreeOrderSorted(params);
  }

  // ---- the service decision --------------------------------------------

  /** What the handler can observe of, and do to, the chain and its response. */
  datatype Chain = Chain(canceled: bool, wentOn: bool, status: int, json: Option<string>)

  /** The response the rest of the chain leaves behind when `chain.go()` runs it. */
  datatype Downstream = Downstream(status: int, json: Option<string>)

  datatype Request = Request(httpMethod: string, hasParent: bool, apiUrl: string, path: string, params: seq<Param>)

  datatype Config = Config(nocacheParam: string, ttl: int)

  const DefaultConfig := Config(DefaultNocacheParam, DefaultTtl)

  /** How reading from Redis goes wrong: not at all; while getting a pooled
      connection (no connection is held afterwards, so a later store throws a
      `NullPointerException` that is logged); or in `get` itself. */
  datatype ReadFault = NoFault | PoolFault | GetFault

  datatype Entry = Entry(value: string, ttl: int)

  datatype Redis = Redis(entries: map<string, Entry>, readFault: ReadFault, storeFails: bool)

  /** After the handler: the request parameters, the chain, the Redis entries,
      and the key the cache was consulted under, if it was. */
  datatype Outcome = Outcome(params: seq<Param>, chain: Chain, entries: map<string, Entry>, key: Option<string>)

  /** `request.removeParam(name)`. */
  function RemoveParam(ps: seq<Param>, name: string): (r: seq<Param>)
    ensures name !in Names(r)
    ensures forall p :: p in r <==> p in ps && p.name != name
    ensures name !in Names(ps) ==> r == ps
  {
    if |ps| == 0 then []
    else if ps[0].name == name then RemoveParam(ps[1..], name)
    else [ps[0]] + RemoveParam(ps[1..], name)
  }

  /** The value a read returns: `None` on a miss and on every read failure. */
  function Read(redis: Redis, key: string): (r: Option<string>)
    ensures r.Some? <==> redis.readFault == NoFault && key in redis.entries
    ensures r.Some? ==> r.value == redis.entries[key].value
  {
    if redis.readFault == NoFault && key in redis.entries then Some(redis.entries[key].value) else None
  }

  /** The entries after trying to store the response under `key`. */
  function Store(redis: Redis, key: string, down: Downstream, ttl: int): (r: map<string, Entry>)
    // no other key changes
    ensures forall k :: k != key ==> (k in r <==> k in redis.entries)
    ensures forall k :: k != key && k in r ==> r[k] == redis.entries[k]
    // only a 200 with a body is stored, and it is stored when a connection is held and setex succeeds
    ensures down.status != Sc200Ok || down.json.None? ==> r == redis.entries
    ensures down.status == Sc200Ok && down.json.Some? && redis.readFault != PoolFault && !redis.storeFails ==>
      key in r && r[key] == Entry(down.json.value, ttl)
    ensures redis.readFault == PoolFault || redis.storeFails ==> r == redis.entries
  {
    if down.status == Sc200Ok && down.json.Some? && redis.readFault != PoolFault && !redis.storeFails
    then redis.entries[key := Entry(down.json.value, ttl)]
    else redis.entries
  }

  predicate IsGet(httpMethod: string) {
    EqualsIgnoreCase("GET", httpMethod)
  }

  /** `service`. An `Err` is the exception a malformed API URL raises while the
      key is built; a failed Redis read or store is logged, not raised. The
      cached value is taken to parse as JSON and the rest of the chain to
      return normally. */
  function Service(req: Request, cfg: Config, redis: Redis, chain: Chain, down: Downstream): (r: Result<Outcome>)
    // non-GET and nested requests are left alone
    ensures !IsGet(req.httpMethod) || req.hasParent ==> r == Ok(Outcome(req.params, chain, redis.entries, None))
    // the no-cache parameter is removed and, when it was there, nothing else happens
    ensures IsGet(req.httpMethod) && !req.hasParent && cfg.nocacheParam in Names(req.params) ==>
      r == Ok(Outcome(RemoveParam(req.params, cfg.nocacheParam), chain, redis.entries, None))
    ensures r.Err? ==> r.error.status == Sc500InternalServerError && AfterScheme(req.apiUrl).None?
    // a cacheable GET always consults the cache, under its cache key, unless that key cannot be built
    ensures IsGet(req.httpMethod) && !req.hasParent && cfg.nocacheParam !in Names(req.params) ==>
      && (r.Ok? <==> AfterScheme(req.apiUrl).Some?)
      && (r.Ok? ==> r.value.key == CacheKey(req.apiUrl, req.path, req.params))
    // the cache is consulted only under the key of parameters without the no-cache one
    ensures r.Ok? && r.value.key.Some? ==>
      && IsGet(req.httpMethod) && !req.hasParent
      && cfg.nocacheParam !in Names(r.value.params) && r.value.params == req.params
      && CacheKey(req.apiUrl, req.path, req.params) == r.value.key
    // a hit answers with the cached value and cancels the rest of the chain
    ensures r.Ok? && r.value.key.Some? && Read(redis, r.value.key.value).Some? ==>
      && r.value.chain == chain.(canceled := true, status := Sc200Ok, json := Read(redis, r.value.key.value))
      && r.value.entries == redis.entries
    // a miss runs the chain, whatever it answers, and then tries to store the answer
    ensures r.Ok? && r.value.key.Some? && Read(redis, r.value.key.value).None? ==>
      && r.value.chain == chain.(wentOn := true, status := down.status, json := down.json)
      && r.value.entries == Store(redis, r.value.key.value, down, cfg.ttl)
    // the chain is cancelled or run only when the cache was consulted
    ensures r.Ok? && r.value.key.None? ==> r.value.chain == chain && r.value.entries == redis.entries
  {
    if !IsGet(req.httpMethod) || req.hasParent then Ok(Outcome(req.params, chain, redis.entries, None))
    else
      var params := RemoveParam(req.params, cfg.nocacheParam);
      if cfg.nocacheParam in Names(req.params) then Ok(Outcome(params, chain, redis.entries, None))
      else
        match CacheKey(req.apiUrl, req.path, params)
        case None => Err(ApiError(Sc500InternalServerError, "StringIndexOutOfBoundsException"))
        case Some(key) =>
          match Read(redis, key)
          case Some(value) =>
            Ok(Outcome(params, chain.(canceled := true, status := Sc200Ok, json := Some(value)), redis.entries, Some(key)))
          case None =>
            Ok(Outcome(params, chain.(wentOn := true, status := down.status, json := down.json),
                       Store(redis, key, down, cfg.ttl), Some(key)))
  }

  /** Caching is best effort: when reading from Redis fails, the request ends
      exactly as it would on a plain cache miss. */
  lemma ReadFaultActsLikeAMiss(req: Request, cfg: Config, redis: Redis, chain: Chain, down: Downstream, key: string)
    requires CacheKey(req.apiUrl, req.path, req.params) == Some(key)
    requires redis.readFault != NoFault
    ensures var healthy := Redis(redis.entries - {key}, NoFault, false);
      && Service(req, cfg, redis, chain, down).Ok?
      && Service(req, cfg, healthy, chain, down).Ok?
      && Service(req, cfg, redis, chain, down).value.chain == Service(req, cfg, healthy, chain, down).value.chain
  {
    var healthy := Redis(redis.entries - {key}, NoFault, false);
    if IsGet(req.httpMethod) && !req.hasParent && cfg.nocacheParam !in Names(req.params) {
      assert RemoveParam(req.params, cfg.nocacheParam) == req.params;
      assert Read(healthy, key) == None;
      assert Read(redis, key) == None;
      var ran := chain.(wentOn := true, status := down.status, json := down.json);
      assert Service(req, cfg, redis, chain, down) == Ok(Outcome(req.params, ran, Store(redis, key, down, cfg.ttl), Some(key)));
      assert Service(req, cfg, healthy, chain, down) == Ok(Outcome(req.params, ran, Store(healthy, key, down, cfg.ttl), Some(key)));
    }
  }

  /** Whatever goes wrong with Redis, no entry other than the request's own
      key changes, and the request never fails because of it. */
  lemma OnlyTheKeyChanges(req: Request, cfg: Config, redis: Redis, chain: Chain, down: Downstream, key: string)
    requires CacheKey(req.apiUrl, req.path, req.params) == Some(key)
    ensures Service(req, cfg, redis, chain, down).Ok?
    ensures Service(req, cfg, redis, chain, down).value.entries - {key} == redis.entries - {key}
    ensures redis.storeFails || redis.readFault == PoolFault ==>
      Service(req, cfg, redis, chain, down).value.entries == redis.entries
  {
    if IsGet(req.httpMethod) && !req.hasParent && cfg.nocacheParam !in Names(req.params) {
      assert RemoveParam(req.params, cfg.nocacheParam) == req.params;
      var r := Service(req, cfg, redis, chain, down);
      match Read(redis, key)
      case Some(v) =>
        assert r.value.entries == redis.entries;
      case None =>
        assert r.value.entries == Store(redis, key, down, cfg.ttl);
        if down.status == Sc200Ok && down.json.Some? && redis.readFault != PoolFault && !redis.storeFails {
          MapUpdateThenRemove(redis.entries, key, Entry(down.json.value, cfg.ttl));
        }
    } else {
      assert Service(req, cfg, redis, chain, down).value.entries == redis.entries;
    }
  }

  lemma MapUpdateThenRemove<K, V>(m: map<K, V>, k: K, v: V)
    ensures m[k := v] - {k} == m - {k}
  {
  }

  /** A successful miss stores the response, and the same request then hits
      and answers with that response without running the chain again. */
  lemma StoreThenHit(req: Request, cfg: Config, redis: Redis, chain: Chain, down: Downstream, later: Chain, other: Downstream)
    requires IsGet(req.httpMethod) && !req.hasParent && cfg.nocacheParam !in Names(req.params)
    requires CacheKey(req.apiUrl, req.path, req.params).Some?
    requires CacheKey(req.apiUrl, req.path, req.params).value !in redis.entries
    requires redis.readFault == NoFault && !redis.storeFails
    requires down.status == Sc200Ok && down.json.Some?
    ensures var first := Service(req, cfg, redis, chain, down);
      && first.Ok?
      && var second := Service(req, cfg, redis.(entries := first.value.entries), later, other);
      && second.Ok?
      && second.value.chain == later.(canceled := true, status := Sc200Ok, json := down.json)
      && second.value.entries == first.value.entries
  {
    var key := CacheKey(req.apiUrl, req.path, req.params).value;
    assert RemoveParam(req.params, cfg.nocacheParam) == req.params;
    var first := Service(req, cfg, redis, chain, down);
    assert first.value.entries == redis.entries[key := Entry(down.json.value, cfg.ttl)];
    assert Read(redis.(entries := first.value.entries), key) == down.json;
  }

  // ---- connection pools --------------------------------------------------

  /** A pool of connections to one Redis server (its settings are left out). */
  datatype Pool = Pool(host: Option<string>, port: int)

  /** The handler's pools by pool key, and the keys pools were created for, in order. */
  datatype Pools = Pools(pools: map<string, Pool>, created: seq<string>)

  datatype PoolConfig = PoolConfig(host: Option<string>, port: int, poolKey: Option<string>)

  /** The string concatenation renders an unset host as "null". */
  function HostText(host: Option<string>): string {
    host.GetOr("null")
  }

  /** `redisPoolKey`, by default `host:port`. */
  function PoolKey(c: PoolConfig): (k: string)
    ensures c.poolKey.None? ==> k == HostText(c.host) + ":" + IntToString(c.port)
    ensures c.poolKey.Some? ==> k == c.poolKey.value
  {
    c.poolKey.GetOr(HostText(c.host) + ":" + IntToString(c.port))
  }

  /** Each key's pool was created exactly once, and only keys with a pool were. */
  ghost predicate CreatedOnce(reg: Pools) {
    && (forall k :: k in reg.created <==> k in reg.pools)
    && (forall i, j :: 0 <= i < j < |reg.created| ==> reg.created[i] != reg.created[j])
  }

  /** `getPool`: the pool under the configured key, created on first use. */
  function GetPool(reg: Pools, c: PoolConfig): (r: (Pools, Pool))
    ensures PoolKey(c) in r.0.pools && r.0.pools[PoolKey(c)] == r.1
    ensures PoolKey(c) in reg.pools ==> r.0 == reg
    ensures PoolKey(c) !in reg.pools ==>
      r.0.created == reg.created + [PoolKey(c)] && r.1 == Pool(c.host, c.port)
    ensures r.0.pools.Keys == reg.pools.Keys + {PoolKey(c)}
    ensures forall k :: k in reg.pools ==> r.0.pools[k] == reg.pools[k]
  {
    var key := PoolKey(c);
    if key in reg.pools then (reg, reg.pools[key])
    else
      var pool := Pool(c.host, c.port);
      (Pools(reg.pools[key := pool], reg.created + [key]), pool)
  }

  function GetPools(reg: Pools, cs: seq<PoolConfig>): Pools
    decreases |cs|
  {
    if |cs| == 0 then reg else GetPools(GetPool(reg, cs[0]).0, cs[1..])
  }

  lemma GetPoolCreatesOnce(reg: Pools, c: PoolConfig)
    requires CreatedOnce(reg)
    ensures CreatedOnce(GetPool(reg, c).0)
  {
    var key := PoolKey(c);
    if key !in reg.pools {
      var next := GetPool(reg, c).0;
      assert next.created == reg.created + [key];
      forall i, j | 0 <= i < j < |next.created| ensures next.created[i] != next.created[j] {
        if j == |reg.created| {
          assert next.created[i] == reg.created[i];
        } else {
          assert next.created[i] == reg.created[i] && next.created[j] == reg.created[j];
        }
      }
      forall k ensures k in next.created <==> k in next.pools {
        assert k in next.created <==> k in reg.created || k == key;
      }
    }
  }

  lemma PoolKeysCons(cs: seq<PoolConfig>)
    requires |cs| > 0
    ensures (set c | c in cs :: PoolKey(c)) == {PoolKey(cs[0])} + set c | c in cs[1..] :: PoolKey(c)
  {
    assert cs == [cs[0]] + cs[1..];
  }

  /** However many requests ask for pools, a pool is created at most once per
      key, and the keys with a pool are exactly the keys asked for. */
  lemma {:induction false} PoolCreatedOncePerKey(reg: Pools, cs: seq<PoolConfig>)
    requires CreatedOnce(reg)
    ensures CreatedOnce(GetPools(reg, cs))
    ensures GetPools(reg, cs).pools.Keys == reg.pools.Keys + set c | c in cs :: PoolKey(c)
    decreases |cs|
  {
    if |cs| > 0 {
      var next := GetPool(reg, cs[0]).0;
      GetPoolCreatesOnce(reg, cs[0]);
      PoolCreatedOncePerKey(next, cs[1..]);
      PoolKeysCons(cs);
    }
  }
}
