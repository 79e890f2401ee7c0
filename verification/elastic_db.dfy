/**
 Reflection of an Elasticsearch cluster into tables and collections. Each
 alias of an index becomes one table, shared by every index carrying that
 alias; the `_doc` mapping of an index is flattened into columns whose names are
 the dotted paths to its non-nested properties; each table then becomes one
 collection with one attribute per column. The HTTP fetch and the JSON parser
 are outside the model: the fetched response is a parameter.
 */
module ElasticDb {
  import opened Api
  import opened Strings

  const NestedType := "nested"
  const PathSeparator := "."

  /** A property read from a mapping node that lacks the member. */
  const NullPointer := ApiError(Sc500InternalServerError, "NullPointerException")
  /** `charAt(0)` on an empty table name. */
  const EmptyTableName := ApiError(Sc500InternalServerError, "StringIndexOutOfBoundsException")

  /** `SC_MAP`: the HTTP codes of a failed fetch that keep their own status. */
  const ScMap: map<int, int> := map[
    400 := Sc400BadRequest,
    401 := Sc401Unauthorized,
    403 := Sc403Forbidden,
    404 := Sc404NotFound]

  /** The status a failed reflection reports for the HTTP code of the fetch. */
  function StatusFor(code: int): (status: int)
    ensures code == 400 || code == 401 || code == 403 || code == 404 ==> status == code
    ensures !(code == 400 || code == 401 || code == 403 || code == 404) ==> status == Sc500InternalServerError
  {
    if code in ScMap then ScMap[code] else Sc500InternalServerError
  }

  // ---- the mapping tree --------------------------------------------------

  /** The `properties` member of a mapping node, which may be missing. */
  datatype Children = Absent | Present(fields: seq<Field>)

  /** A mapping node: its `type` member, if any, and its `properties`. */
  datatype Prop = Prop(typ: Option<string>, properties: Children)

  /** One entry of a `properties` object, in the object's order. */
  datatype Field = Field(name: string, prop: Prop)

  /** A column of a table; every reflected column is nullable. */
  datatype Column = Column(name: string, typ: string)

  predicate IsNested(typ: string) {
    EqualsIgnoreCase(typ, NestedType)
  }

  /** The property can be flattened: if it has a nested type, it has
      properties of its own, all of which can be flattened. */
  predicate FieldTyped(f: Field)
    decreases f
  {
    f.prop.typ.Some? && IsNested(f.prop.typ.value) ==>
      f.prop.properties.Present? && WellTyped(f.prop.properties.fields)
  }

  predicate WellTyped(fields: seq<Field>)
    decreases fields
  {
    |fields| == 0 || (FieldTyped(fields[0]) && WellTyped(fields[1..]))
  }

  /** The columns of one property of `addColumns`: none for a property
      without a type; a column named `prefix` and the property's name unless
      the type is nested, in which case the columns of its own properties,
      named after it and a dot. */
  function FieldColumns(f: Field, prefix: string): (r: Result<seq<Column>>)
    ensures r.Ok? <==> FieldTyped(f)
    ensures r.Err? ==> r.error == NullPointer
    ensures r.Ok? ==> forall c :: c in r.value ==> StartsWith(c.name, prefix + f.name)
    ensures f.prop.typ.None? ==> r == Ok([])
    decreases f
  {
    var colName := prefix + f.name;
    match f.prop.typ
    case None => Ok([])
    case Some(t) =>
      if !IsNested(t) then Ok([Column(colName, t)])
      else if f.prop.properties.Absent? then Err(NullPointer)
      else AddColumns(f.prop.properties.fields, colName + PathSeparator)
  }

  /** `addColumns`: the columns of the properties, in order. A nested
      property without properties throws. */
  function AddColumns(fields: seq<Field>, prefix: string): (r: Result<seq<Column>>)
    ensures r.Ok? <==> WellTyped(fields)
    ensures r.Err? ==> r.error == NullPointer
    ensures r.Ok? ==> forall c :: c in r.value ==> StartsWith(c.name, prefix)
    decreases fields
  {
    if |fields| == 0 then Ok([])
    else
      match FieldColumns(fields[0], prefix)
      case Err(e) => Err(e)
      case Ok(here) =>
        match AddColumns(fields[1..], prefix)
        case Err(e) => Err(e)
        case Ok(rest) => Ok(here + rest)
  }

  /** `path` leads from this property to a non-nested property of type `t`:
      it starts with the property's name; if the property is nested the rest
      of the path leads on through its properties, otherwise the path ends. */
  ghost predicate LeafOf(f: Field, path: seq<string>, t: string)
    decreases f
  {
    && |path| > 0
    && path[0] == f.name
    && f.prop.typ.Some?
    && if IsNested(f.prop.typ.value) then
         f.prop.properties.Present? && LeafAt(f.prop.properties.fields, path[1..], t)
       else |path| == 1 && t == f.prop.typ.value
  }

  /** `path` leads from one of the properties to a non-nested property of type `t`. */
  ghost predicate LeafAt(fields: seq<Field>, path: seq<string>, t: string)
    decreases fields
  {
    |path| > 0 && |fields| > 0 && (LeafOf(fields[0], path, t) || LeafAt(fields[1..], path, t))
  }

  /** The dotted name of a path. */
  function DottedName(path: seq<string>): string {
    Join(path, PathSeparator)
  }

  lemma DottedNameCons(step: string, path: seq<string>)
    requires |path| > 0
    ensures DottedName([step] + path) == step + PathSeparator + DottedName(path)
  {
    assert ([step] + path)[1..] == path;
  }

  /** A non-nested property has one leaf, its own name. */
  lemma ScalarLeaf(f: Field, prefix: string, name: string, t: string)
    requires f.prop.typ.Some? && !IsNested(f.prop.typ.value)
    ensures Column(name, t) in FieldColumns(f, prefix).value <==>
      exists path :: LeafOf(f, path, t) && name == prefix + DottedName(path)
  {
    assert DottedName([f.name]) == f.name;
    if Column(name, t) in FieldColumns(f, prefix).value {
      assert LeafOf(f, [f.name], t);
    }
    if exists path :: LeafOf(f, path, t) && name == prefix + DottedName(path) {
      var path :| LeafOf(f, path, t) && name == prefix + DottedName(path);
      assert path == [f.name];
    }
  }

  /** A leaf below a nested property, seen from the property. */
  lemma NestedLeafUp(f: Field, prefix: string, sub: seq<string>, t: string)
    requires f.prop.typ.Some? && IsNested(f.prop.typ.value) && f.prop.properties.Present?
    requires LeafAt(f.prop.properties.fields, sub, t)
    ensures LeafOf(f, [f.name] + sub, t)
    ensures prefix + DottedName([f.name] + sub) == prefix + f.name + PathSeparator + DottedName(sub)
  {
    DottedNameCons(f.name, sub);
    assert ([f.name] + sub)[1..] == sub;
    assert prefix + (f.name + PathSeparator + DottedName(sub)) == prefix + f.name + PathSeparator + DottedName(sub);
  }

  /** A leaf of a nested property continues through its properties. */
  lemma NestedLeafDown(f: Field, prefix: string, path: seq<string>, t: string)
    requires f.prop.typ.Some? && IsNested(f.prop.typ.value)
    requires LeafOf(f, path, t)
    ensures f.prop.properties.Present? && LeafAt(f.prop.properties.fields, path[1..], t)
    ensures prefix + DottedName(path) == prefix + f.name + PathSeparator + DottedName(path[1..])
  {
    assert path == [f.name] + path[1..];
    DottedNameCons(f.name, path[1..]);
    assert prefix + (f.name + PathSeparator + DottedName(path[1..])) == prefix + f.name + PathSeparator + DottedName(path[1..]);
  }

  /** The columns of one property are exactly its leaves, named by `prefix`
      and the dotted path. */
  lemma {:induction false} FieldColumnsAreLeaves(f: Field, prefix: string, name: string, t: string)
    requires FieldColumns(f, prefix).Ok?
    ensures Column(name, t) in FieldColumns(f, prefix).value <==>
      exists path :: LeafOf(f, path, t) && name == prefix + DottedName(path)
    decreases f
  {
    if f.prop.typ.None? {
      return;
    }
    if !IsNested(f.prop.typ.value) {
      ScalarLeaf(f, prefix, name, t);
    } else {
      AddColumnsAreLeaves(f.prop.properties.fields, prefix + f.name + PathSeparator, name, t);
      NestedLeaves(f, prefix, name, t);
    }
  }

  /** The nested case of `FieldColumnsAreLeaves`, given the property's own
      properties' columns are their leaves. */
  lemma NestedLeaves(f: Field, prefix: string, name: string, t: string)
    requires f.prop.typ.Some? && IsNested(f.prop.typ.value) && f.prop.properties.Present?
    requires FieldColumns(f, prefix).Ok?
    requires var children := f.prop.properties.fields;
      var sub := prefix + f.name + PathSeparator;
      Column(name, t) in AddColumns(children, sub).value <==>
        exists path :: LeafAt(children, path, t) && name == sub + DottedName(path)
    ensures Column(name, t) in FieldColumns(f, prefix).value <==>
      exists path :: LeafOf(f, path, t) && name == prefix + DottedName(path)
  {
    var children := f.prop.properties.fields;
    var colName := prefix + f.name;
    assert FieldColumns(f, prefix) == AddColumns(children, colName + PathSeparator);
    if Column(name, t) in FieldColumns(f, prefix).value {
      var sub :| LeafAt(children, sub, t) && name == colName + PathSeparator + DottedName(sub);
      NestedLeafUp(f, prefix, sub, t);
      assert LeafOf(f, [f.name] + sub, t) && name == prefix + DottedName([f.name] + sub);
    }
    if exists path :: LeafOf(f, path, t) && name == prefix + DottedName(path) {
      var path :| LeafOf(f, path, t) && name == prefix + DottedName(path);
      NestedLeafDown(f, prefix, path, t);
      assert LeafAt(children, path[1..], t) && name == colName + PathSeparator + DottedName(path[1..]);
    }
  }

  /** The flattened columns are exactly the leaves of the mapping: a column of
      type `t` named `name` is produced iff some path to a leaf of type `t`,
      written with dots after `prefix`, is `name`. An `object` property, like
      every other non-nested type, is a leaf. */
  lemma {:induction false} AddColumnsAreLeaves(fields: seq<Field>, prefix: string, name: string, t: string)
    requires AddColumns(fields, prefix).Ok?
    ensures Column(name, t) in AddColumns(fields, prefix).value <==>
      exists path :: LeafAt(fields, path, t) && name == prefix + DottedName(path)
    decreases fields
  {
    if |fields| > 0 {
      FieldColumnsAreLeaves(fields[0], prefix, name, t);
      AddColumnsAreLeaves(fields[1..], prefix, name, t);
      if exists path :: LeafAt(fields, path, t) && name == prefix + DottedName(path) {
        var path :| LeafAt(fields, path, t) && name == prefix + DottedName(path);
        if LeafOf(fields[0], path, t) {
          assert exists p :: LeafOf(fields[0], p, t) && name == prefix + DottedName(p);
        } else {
          assert exists p :: LeafAt(fields[1..], p, t) && name == prefix + DottedName(p);
        }
      }
    }
  }

  // ---- the type read before it is checked --------------------------------

  /** What the code as written needs of a property: it has a type, and if the
      type is nested, properties that all need the same. */
  predicate FieldTypedStrictly(f: Field)
    decreases f
  {
    && f.prop.typ.Some?
    && (IsNested(f.prop.typ.value) ==>
          f.prop.properties.Present? && WellTypedStrictly(f.prop.properties.fields))
  }

  predicate WellTypedStrictly(fields: seq<Field>)
    decreases fields
  {
    |fields| == 0 || (FieldTypedStrictly(fields[0]) && WellTypedStrictly(fields[1..]))
  }

  /** The columns of one property as the code computes them: the type is read
      before its presence is checked, so a property without one throws. */
  function FieldColumnsAsWritten(f: Field, prefix: string): (r: Result<seq<Column>>)
    ensures r.Ok? <==> FieldTypedStrictly(f)
    ensures r.Err? ==> r.error == NullPointer
    decreases f
  {
    var colName := prefix + f.name;
    match f.prop.typ
    case None => Err(NullPointer)
    case Some(t) =>
      if !IsNested(t) then Ok([Column(colName, t)])
      else if f.prop.properties.Absent? then Err(NullPointer)
      else AddColumnsAsWritten(f.prop.properties.fields, colName + PathSeparator)
  }

  function AddColumnsAsWritten(fields: seq<Field>, prefix: string): (r: Result<seq<Column>>)
    ensures r.Ok? <==> WellTypedStrictly(fields)
    ensures r.Err? ==> r.error == NullPointer
    decreases fields
  {
    if |fields| == 0 then Ok([])
    else
      match FieldColumnsAsWritten(fields[0], prefix)
      case Err(e) => Err(e)
      case Ok(here) =>
        match AddColumnsAsWritten(fields[1..], prefix)
        case Err(e) => Err(e)
        case Ok(rest) => Ok(here + rest)
  }

  /** Where the code as written succeeds, it computes the same columns as the
      intended definition. */
  lemma {:induction false} FieldAsWrittenAgrees(f: Field, prefix: string)
    ensures FieldColumnsAsWritten(f, prefix).Ok? ==> FieldColumnsAsWritten(f, prefix) == FieldColumns(f, prefix)
    decreases f
  {
    if f.prop.typ.Some? && IsNested(f.prop.typ.value) && f.prop.properties.Present? {
      var colName := prefix + f.name;
      AsWrittenAgrees(f.prop.properties.fields, colName + PathSeparator);
    }
  }

  lemma {:induction false} AsWrittenAgrees(fields: seq<Field>, prefix: string)
    ensures AddColumnsAsWritten(fields, prefix).Ok? ==> AddColumnsAsWritten(fields, prefix) == AddColumns(fields, prefix)
    decreases fields
  {
    if |fields| > 0 {
      FieldAsWrittenAgrees(fields[0], prefix);
      AsWrittenAgrees(fields[1..], prefix);
    }
  }

  /** An object property mapped without a `type` member (the usual form of an
      Elasticsearch object field) makes the code as written throw, while the
      intended definition skips it. */
  lemma UntypedObjectThrowsAsWritten()
    ensures var mapping := [Field("address", Prop(None, Present([Field("city", Prop(Some("keyword"), Absent))])))];
      && AddColumnsAsWritten(mapping, "") == Err(NullPointer)
      && AddColumns(mapping, "") == Ok([])
  {
    var address := Field("address", Prop(None, Present([Field("city", Prop(Some("keyword"), Absent))])));
    assert FieldColumnsAsWritten(address, "") == Err(NullPointer);
    assert FieldColumns(address, "") == Ok([]);
    assert [address][1..] == [];
    var none: seq<Column> := [];
    assert AddColumns([address][1..], "") == Ok(none);
    assert none + none == none;
    assert AddColumns([address], "") == Ok(none);
  }

  // ---- alias tables ----------------------------------------------------------

  /** An index of the cluster: its name, the names of its aliases (the keys of
      its `aliases` object, hence distinct) and its `_doc` mapping properties. */
  datatype IndexDef = IndexDef(name: string, aliases: seq<string>, properties: seq<Field>)

  /** A table: its name, the names of its indexes in the order added, and its columns. */
  datatype Table = Table(name: string, indexes: seq<string>, columns: seq<Column>)

  predicate Distinct(xs: seq<string>) {
    forall i, j :: 0 <= i < j < |xs| ==> xs[i] != xs[j]
  }

  /** The tables built from aliases: `tableMap` from alias to table, and the
      aliases in the order their tables were added to the database. */
  datatype Catalog = Catalog(order: seq<string>, tables: map<string, Table>)

  const EmptyCatalog := Catalog([], map[])

  /** Each alias has one table, named after it, added once. */
  ghost predicate Valid(c: Catalog) {
    && Distinct(c.order)
    && (forall a :: a in c.tables <==> a in c.order)
    && (forall a :: a in c.tables ==> c.tables[a].name == a)
  }

  /** The database's table list for the catalog. */
  function TableList(c: Catalog): (ts: seq<Table>)
    requires Valid(c)
    ensures |ts| == |c.order|
    ensures forall i :: 0 <= i < |ts| ==> ts[i] == c.tables[c.order[i]]
  {
    seq(|c.order|, i requires 0 <= i < |c.order| => c.tables[c.order[i]])
  }

  /** The table after an index and that index's columns are added to it. */
  function Extend(t: Table, index: string, cols: seq<Column>): Table {
    t.(indexes := t.indexes + [index], columns := t.columns + cols)
  }

  /** One alias of an index: the table already built for the alias, or a new one. */
  function Upsert(c: Catalog, alias: string, index: string, cols: seq<Column>): (r: Catalog)
    ensures forall x :: x in r.tables <==> x in c.tables || x == alias
    ensures forall x :: x in r.tables ==>
      r.tables[x] == if x != alias then c.tables[x]
                     else if alias in c.tables then Extend(c.tables[alias], index, cols)
                     else Table(alias, [index], cols)
  {
    if alias in c.tables then c.(tables := c.tables[alias := Extend(c.tables[alias], index, cols)])
    else Catalog(c.order + [alias], c.tables[alias := Table(alias, [index], cols)])
  }

  lemma UpsertValid(c: Catalog, alias: string, index: string, cols: seq<Column>)
    requires Valid(c)
    ensures Valid(Upsert(c, alias, index, cols))
    ensures c.order <= Upsert(c, alias, index, cols).order
  {
    var r := Upsert(c, alias, index, cols);
    if alias !in c.tables {
      assert r.order == c.order + [alias];
      forall i, j | 0 <= i < j < |r.order| ensures r.order[i] != r.order[j] {
        if j == |c.order| {
          assert r.order[i] == c.order[i];
        }
      }
      forall x ensures x in r.tables <==> x in r.order {
        assert x in r.order <==> x in c.order || x == alias;
      }
    }
  }

  /** The loop of `buildAliasTables` over the aliases of one index, with the
      index's columns already computed. */
  function AddToAliases(c: Catalog, aliases: seq<string>, index: string, cols: seq<Column>): Catalog
    decreases |aliases|
  {
    if |aliases| == 0 then c
    else Upsert(AddToAliases(c, aliases[..|aliases| - 1], index, cols), aliases[|aliases| - 1], index, cols)
  }

  lemma SplitLast(aliases: seq<string>)
    requires |aliases| > 0
    ensures forall x :: x in aliases <==> x in aliases[..|aliases| - 1] || x == aliases[|aliases| - 1]
    ensures Distinct(aliases) ==> Distinct(aliases[..|aliases| - 1]) && aliases[|aliases| - 1] !in aliases[..|aliases| - 1]
  {
    assert aliases == aliases[..|aliases| - 1] + [aliases[|aliases| - 1]];
  }

  /** The catalog stays valid and keeps the order of the tables already added. */
  lemma {:induction false} AddToAliasesValid(c: Catalog, aliases: seq<string>, index: string, cols: seq<Column>)
    requires Valid(c)
    ensures Valid(AddToAliases(c, aliases, index, cols))
    ensures c.order <= AddToAliases(c, aliases, index, cols).order
    decreases |aliases|
  {
    if |aliases| > 0 {
      var init := aliases[..|aliases| - 1];
      AddToAliasesValid(c, init, index, cols);
      UpsertValid(AddToAliases(c, init, index, cols), aliases[|aliases| - 1], index, cols);
    }
  }

  /** Each alias's table gets the index and the columns exactly once; aliases
      without a table get a new one holding just this index; other tables are
      untouched. */
  lemma {:induction false} AddToAliasesTables(c: Catalog, aliases: seq<string>, index: string, cols: seq<Column>)
    requires Distinct(aliases)
    ensures var r := AddToAliases(c, aliases, index, cols);
      forall a :: a in r.tables ==>
        r.tables[a] == if a !in c.tables then Table(a, [index], cols)
                       else if a in aliases then Extend(c.tables[a], index, cols)
                       else c.tables[a]
    decreases |aliases|
  {
    if |aliases| > 0 {
      var init := aliases[..|aliases| - 1];
      SplitLast(aliases);
      AddToAliasesTables(c, init, index, cols);
      AddToAliasesKeys(c, init, index, cols);
    }
  }

  /** Afterwards there is a table for every alias of the index, and no other new one. */
  lemma {:induction false} AddToAliasesKeys(c: Catalog, aliases: seq<string>, index: string, cols: seq<Column>)
    ensures forall a :: a in AddToAliases(c, aliases, index, cols).tables <==> a in c.tables || a in aliases
    decreases |aliases|
  {
    if |aliases| > 0 {
      SplitLast(aliases);
      AddToAliasesKeys(c, aliases[..|aliases| - 1], index, cols);
    }
  }

  /** `buildAliasTables` for one index: nothing for an index without aliases;
      otherwise the index and its columns go to the table of each alias. */
  function BuildAliasTables(idx: IndexDef, c: Catalog): (r: Result<Catalog>)
    requires Valid(c) && Distinct(idx.aliases)
    ensures r.Ok? <==> |idx.aliases| == 0 || WellTyped(idx.properties)
    ensures r.Err? ==> r.error == NullPointer
    ensures |idx.aliases| == 0 ==> r == Ok(c)
    ensures r.Ok? ==> Valid(r.value) && c.order <= r.value.order
    ensures r.Ok? ==> forall a :: a in r.value.tables <==> a in c.tables || a in idx.aliases
    ensures r.Ok? ==> forall a :: a in r.value.tables ==>
      r.value.tables[a] == if a !in c.tables then Table(a, [idx.name], MappingColumns(idx))
                           else if a in idx.aliases then Extend(c.tables[a], idx.name, MappingColumns(idx))
                           else c.tables[a]
  {
    if |idx.aliases| == 0 then Ok(c)
    else
      match AddColumns(idx.properties, "")
      case Err(e) => Err(e)
      case Ok(cols) =>
        AddToAliasesValid(c, idx.aliases, idx.name, cols);
        AddToAliasesKeys(c, idx.aliases, idx.name, cols);
        AddToAliasesTables(c, idx.aliases, idx.name, cols);
        Ok(AddToAliases(c, idx.aliases, idx.name, cols))
  }

  /** The columns an index contributes to each of its alias tables. */
  function MappingColumns(idx: IndexDef): seq<Column> {
    match AddColumns(idx.properties, "")
    case Ok(cols) => cols
    case Err(_) => []
  }

  /** Alias `a` belongs to one of the indexes. */
  predicate Aliased(idxs: seq<IndexDef>, a: string) {
    exists i :: 0 <= i < |idxs| && a in idxs[i].aliases
  }

  lemma AliasedSnoc(idxs: seq<IndexDef>)
    requires |idxs| > 0
    ensures forall a :: Aliased(idxs, a) <==> Aliased(idxs[..|idxs| - 1], a) || a in idxs[|idxs| - 1].aliases
  {
    var init := idxs[..|idxs| - 1];
    forall a | Aliased(idxs, a) ensures Aliased(init, a) || a in idxs[|idxs| - 1].aliases {
      var i :| 0 <= i < |idxs| && a in idxs[i].aliases;
      if i < |init| {
        assert init[i] == idxs[i];
      }
    }
    forall a | Aliased(init, a) ensures Aliased(idxs, a) {
      var i :| 0 <= i < |init| && a in init[i].aliases;
      assert init[i] == idxs[i];
    }
  }

  /** The names of the indexes carrying alias `a`, in order. */
  function IndexesFor(idxs: seq<IndexDef>, a: string): seq<string>
    decreases |idxs|
  {
    if |idxs| == 0 then []
    else
      var last := idxs[|idxs| - 1];
      IndexesFor(idxs[..|idxs| - 1], a) + (if a in last.aliases then [last.name] else [])
  }

  /** The columns of the indexes carrying alias `a`, index after index. */
  function ColumnsFor(idxs: seq<IndexDef>, a: string): seq<Column>
    decreases |idxs|
  {
    if |idxs| == 0 then []
    else
      var last := idxs[|idxs| - 1];
      ColumnsFor(idxs[..|idxs| - 1], a) + (if a in last.aliases then MappingColumns(last) else [])
  }

  lemma {:induction false} UnaliasedHasNothing(idxs: seq<IndexDef>, a: string)
    requires !Aliased(idxs, a)
    ensures IndexesFor(idxs, a) == [] && ColumnsFor(idxs, a) == []
    decreases |idxs|
  {
    if |idxs| > 0 {
      var init := idxs[..|idxs| - 1];
      forall i | 0 <= i < |init| ensures a !in init[i].aliases {
        assert init[i] == idxs[i];
      }
      UnaliasedHasNothing(init, a);
    }
  }

  /** Every index with an alias has a mapping that can be flattened. */
  predicate AllFlattenable(idxs: seq<IndexDef>) {
    forall i :: 0 <= i < |idxs| && |idxs[i].aliases| > 0 ==> WellTyped(idxs[i].properties)
  }

  lemma AllFlattenableSnoc(idxs: seq<IndexDef>)
    requires |idxs| > 0
    ensures var last := idxs[|idxs| - 1];
      AllFlattenable(idxs) <==>
        AllFlattenable(idxs[..|idxs| - 1]) && (|last.aliases| == 0 || WellTyped(last.properties))
  {
    var init := idxs[..|idxs| - 1];
    assert forall i :: 0 <= i < |init| ==> init[i] == idxs[i];
  }

  /** The loop of `reflectDb` over the fetched indexes, from a fresh
      `tableMap`. It fails iff an index with an alias has a mapping that
      cannot be flattened. */
  function ReflectTables(idxs: seq<IndexDef>): (r: Result<Catalog>)
    requires forall i :: 0 <= i < |idxs| ==> Distinct(idxs[i].aliases)
    ensures r.Ok? <==> AllFlattenable(idxs)
    ensures r.Err? ==> r.error == NullPointer
    ensures r.Ok? ==> Valid(r.value)
    decreases |idxs|
  {
    if |idxs| == 0 then Ok(EmptyCatalog)
    else
      var init := idxs[..|idxs| - 1];
      assert forall i :: 0 <= i < |init| ==> init[i] == idxs[i];
      AllFlattenableSnoc(idxs);
      match ReflectTables(init)
      case Err(e) => Err(e)
      case Ok(built) => BuildAliasTables(idxs[|idxs| - 1], built)
  }

  /** There is one reflected table per alias of any index, and no other. */
  lemma {:induction false} ReflectedTablesAreAliases(idxs: seq<IndexDef>)
    requires forall i :: 0 <= i < |idxs| ==> Distinct(idxs[i].aliases)
    requires ReflectTables(idxs).Ok?
    ensures forall a :: a in ReflectTables(idxs).value.tables <==> Aliased(idxs, a)
    decreases |idxs|
  {
    if |idxs| > 0 {
      var init := idxs[..|idxs| - 1];
      assert forall i :: 0 <= i < |init| ==> init[i] == idxs[i];
      ReflectedTablesAreAliases(init);
      AliasedSnoc(idxs);
    }
  }

  /** One step of `ReflectedTablesGatherIndexes`: the table of alias `a` after
      the last index is built onto the catalog of the earlier ones. */
  lemma GatherStep(idxs: seq<IndexDef>, built: Catalog, c: Catalog, a: string)
    requires |idxs| > 0
    requires Valid(built) && Distinct(idxs[|idxs| - 1].aliases)
    requires BuildAliasTables(idxs[|idxs| - 1], built) == Ok(c)
    requires a in c.tables
    requires a in built.tables ==>
      built.tables[a].indexes == IndexesFor(idxs[..|idxs| - 1], a) && built.tables[a].columns == ColumnsFor(idxs[..|idxs| - 1], a)
    requires a !in built.tables ==> !Aliased(idxs[..|idxs| - 1], a)
    ensures c.tables[a].indexes == IndexesFor(idxs, a) && c.tables[a].columns == ColumnsFor(idxs, a)
  {
    var init := idxs[..|idxs| - 1];
    var last := idxs[|idxs| - 1];
    var cols := MappingColumns(last);
    assert IndexesFor(idxs, a) == IndexesFor(init, a) + (if a in last.aliases then [last.name] else []);
    assert ColumnsFor(idxs, a) == ColumnsFor(init, a) + (if a in last.aliases then cols else []);
    if a !in built.tables {
      assert a in last.aliases;
      assert c.tables[a] == Table(a, [last.name], cols);
      UnaliasedHasNothing(init, a);
      assert [] + [last.name] == [last.name];
      assert [] + cols == cols;
    } else if a in last.aliases {
      assert c.tables[a] == Extend(built.tables[a], last.name, cols);
    } else {
      assert c.tables[a] == built.tables[a];
      assert IndexesFor(init, a) + [] == IndexesFor(init, a);
      assert ColumnsFor(init, a) + [] == ColumnsFor(init, a);
    }
  }

  /** Every reflected table lists, in order, the indexes carrying its alias,
      and holds the columns of their mappings, index after index. */
  lemma {:induction false} ReflectedTablesGatherIndexes(idxs: seq<IndexDef>)
    requires forall i :: 0 <= i < |idxs| ==> Distinct(idxs[i].aliases)
    requires ReflectTables(idxs).Ok?
    ensures var c := ReflectTables(idxs).value;
      forall a :: a in c.tables ==> c.tables[a].indexes == IndexesFor(idxs, a) && c.tables[a].columns == ColumnsFor(idxs, a)
    decreases |idxs|
  {
    if |idxs| > 0 {
      var init := idxs[..|idxs| - 1];
      assert forall i :: 0 <= i < |init| ==> init[i] == idxs[i];
      ReflectedTablesGatherIndexes(init);
      ReflectedTablesAreAliases(init);
      var built := ReflectTables(init).value;
      var c := ReflectTables(idxs).value;
      assert BuildAliasTables(idxs[|idxs| - 1], built) == Ok(c);
      forall a | a in c.tables
        ensures c.tables[a].indexes == IndexesFor(idxs, a) && c.tables[a].columns == ColumnsFor(idxs, a)
      {
        GatherStep(idxs, built, c, a);
      }
    }
  }

  /** The database's list of reflected tables: one table per alias, under
      distinct names, each gathering the indexes that carry its alias and
      their columns. */
  lemma ReflectedTableList(idxs: seq<IndexDef>)
    requires forall i :: 0 <= i < |idxs| ==> Distinct(idxs[i].aliases)
    requires ReflectTables(idxs).Ok?
    ensures var added := TableList(ReflectTables(idxs).value);
      && (forall i :: 0 <= i < |added| ==> Aliased(idxs, added[i].name))
      && (forall a :: Aliased(idxs, a) ==> a in TableNames(added))
      && (forall i, j :: 0 <= i < j < |added| ==> added[i].name != added[j].name)
      && (forall i :: 0 <= i < |added| ==>
            added[i].indexes == IndexesFor(idxs, added[i].name) && added[i].columns == ColumnsFor(idxs, added[i].name))
  {
    var built := ReflectTables(idxs).value;
    ReflectedTablesAreAliases(idxs);
    ReflectedTablesGatherIndexes(idxs);
    var added := TableList(built);
    assert forall i :: 0 <= i < |added| ==> added[i] == built.tables[built.order[i]] && added[i].name == built.order[i];
    forall a | Aliased(idxs, a) ensures a in TableNames(added) {
      var k :| 0 <= k < |built.order| && built.order[k] == a;
      assert added[k].name == a;
    }
  }

  /** The answer to `GET _all`: whether it succeeded, its HTTP code, and the
      parsed indexes. */
  datatype Fetched = Fetched(success: bool, code: int, indexes: seq<IndexDef>)

  /** The names of the tables, as a set. */
  function TableNames(ts: seq<Table>): set<string> {
    set t | t in ts :: t.name
  }

  /** `reflectDb`: nothing unless bootstrapping; a failed fetch fails with the
      mapped status; otherwise the alias tables are added to the database
      after the tables it already has. */
  function ReflectDb(bootstrap: bool, fetched: Fetched, tables: seq<Table>): (r: Result<seq<Table>>)
    requires forall i :: 0 <= i < |fetched.indexes| ==> Distinct(fetched.indexes[i].aliases)
    ensures !bootstrap ==> r == Ok(tables)
    ensures bootstrap && !fetched.success ==> r.Err? && r.error.status == StatusFor(fetched.code)
    ensures r.Ok? ==> tables <= r.value
    ensures bootstrap && fetched.success ==> (r.Ok? <==> AllFlattenable(fetched.indexes))
    ensures bootstrap && r.Ok? ==> forall i :: |tables| <= i < |r.value| ==> Aliased(fetched.indexes, r.value[i].name)
    ensures bootstrap && r.Ok? ==> forall a :: Aliased(fetched.indexes, a) ==> a in TableNames(r.value[|tables|..])
    // the added tables have distinct names, and each gathers the indexes
    // carrying its alias and their columns
    ensures bootstrap && r.Ok? ==> forall i, j :: |tables| <= i < j < |r.value| ==> r.value[i].name != r.value[j].name
    ensures bootstrap && r.Ok? ==> forall i :: |tables| <= i < |r.value| ==>
      && r.value[i].indexes == IndexesFor(fetched.indexes, r.value[i].name)
      && r.value[i].columns == ColumnsFor(fetched.indexes, r.value[i].name)
  {
    if !bootstrap then Ok(tables)
    else if !fetched.success then Err(ApiError(StatusFor(fetched.code), ""))
    else
      match ReflectTables(fetched.indexes)
      case Err(e) => Err(e)
      case Ok(built) =>
        var added := TableList(built);
        ReflectedTableList(fetched.indexes);
        assert (tables + added)[|tables|..] == added;
        assert forall i :: |tables| <= i < |tables + added| ==> (tables + added)[i] == added[i - |tables|];
        Ok(tables + added)
  }

  // ---- collections -----------------------------------------------------------

  datatype Attribute = Attribute(name: string, hint: string, typ: string)

  /** A collection and its entity: the entity's table and hint, and its attributes. */
  datatype Collection = Collection(name: string, table: Table, hint: string, attributes: seq<Attribute>)

  /** The table name with its first character lower-cased. */
  function LowerFirst(name: string): (r: string)
    requires |name| > 0
    ensures |r| == |name| && r[0] == LowerChar(name[0]) && r[1..] == name[1..]
    // the same name ignoring case, with a first character that is not upper-case
    ensures EqualsIgnoreCase(r, name) && !('A' <= r[0] <= 'Z')
  {
    [LowerChar(name[0])] + name[1..]
  }

  /** The collection name of a table; `None` where `charAt(0)` fails. */
  function CollectionName(tableName: string, plural: string -> string): (r: Option<string>)
    ensures r.None? <==> |tableName| == 0
  {
    if |tableName| == 0 then None
    else
      var lowered := LowerFirst(tableName);
      if EndsWith(lowered, "s") then Some(lowered) else Some(plural(lowered))
  }

  /** A name that already reads as a collection name is kept: lower-case first
      character (or none to lower) and a final 's'. */
  lemma CollectionNameKeepsPlural(name: string, plural: string -> string)
    requires |name| > 0 && !('A' <= name[0] <= 'Z') && name[|name| - 1] == 's'
    ensures CollectionName(name, plural) == Some(name)
  {
    assert LowerFirst(name) == name;
  }

  /** The pluraliser is consulted exactly for names not ending in 's'; the
      ending is the table name's own except for a one-letter name. */
  lemma CollectionNamePluralisesOnlyOthers(name: string, plural: string -> string)
    requires |name| > 0
    ensures var lowered := [LowerChar(name[0])] + name[1..];
      CollectionName(name, plural) == if lowered[|lowered| - 1] == 's' then Some(lowered) else Some(plural(lowered))
    ensures |name| > 1 && name[|name| - 1] == 's' ==> CollectionName(name, plural) == Some(LowerFirst(name))
  {
    var lowered := LowerFirst(name);
    assert EndsWith(lowered, "s") <==> lowered[|lowered| - 1] == 's' by {
      assert lowered[|lowered| - 1..] == [lowered[|lowered| - 1]];
    }
    if |name| > 1 {
      assert lowered[|lowered| - 1] == name[|name| - 1];
    }
  }

  /** One attribute per column, carrying the column's name and type and the
      hint `table.column`. */
  function Attributes(t: Table): (attrs: seq<Attribute>)
    ensures |attrs| == |t.columns|
  {
    seq(|t.columns|, k requires 0 <= k < |t.columns| =>
      Attribute(t.columns[k].name, t.name + PathSeparator + t.columns[k].name, t.columns[k].typ))
  }

  /** The columns an entity's attributes describe. */
  function ColumnsOf(attrs: seq<Attribute>): seq<Column> {
    seq(|attrs|, k requires 0 <= k < |attrs| => Column(attrs[k].name, attrs[k].typ))
  }

  /** The attributes of a table give its columns back, and each hint is the
      table name, a dot and the attribute name. */
  lemma AttributesDescribeColumns(t: Table)
    ensures ColumnsOf(Attributes(t)) == t.columns
    ensures forall a :: a in Attributes(t) ==> a.hint == t.name + PathSeparator + a.name
  {
  }

  /** `configApi`: one collection per table, in order. A table without a name
      raises an exception; the collections of the tables before it stay. */
  function ConfigApi(tables: seq<Table>, plural: string -> string): (r: (seq<Collection>, bool))
    ensures r.1 <==> forall i :: 0 <= i < |tables| ==> |tables[i].name| > 0
    ensures |r.0| <= |tables|
    ensures r.1 ==> |r.0| == |tables|
    ensures !r.1 ==> |r.0| < |tables| && |tables[|r.0|].name| == 0
    ensures forall i :: 0 <= i < |r.0| ==>
      && Some(r.0[i].name) == CollectionName(tables[i].name, plural)
      && r.0[i].table == tables[i]
      && r.0[i].hint == tables[i].name
      && ColumnsOf(r.0[i].attributes) == tables[i].columns
      && forall a :: a in r.0[i].attributes ==> a.hint == tables[i].name + PathSeparator + a.name
  {
    if |tables| == 0 then ([], true)
    else
      var t := tables[0];
      match CollectionName(t.name, plural)
      case None => ([], false)
      case Some(name) =>
        AttributesDescribeColumns(t);
        var rest := ConfigApi(tables[1..], plural);
        assert forall i :: 1 <= i < |tables| ==> tables[i] == tables[1..][i - 1];
        ([Collection(name, t, t.name, Attributes(t))] + rest.0, rest.1)
  }
}
