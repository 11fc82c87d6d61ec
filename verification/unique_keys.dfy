/** The unique-key enforcer (src/lib/plugins/unique-keys.js).  Fields whose
    schema carries a truthy `unique` setting are grouped into named keys; before
    an entry is created or updated the plugin asks the rack for documents that
    agree with it on every path of some key, and rejects the entry when the
    first such document is a different one.

    The rack's `find` is a parameter: `found` is what it returned for the query
    built here.  The query's meaning is stated through `QueryMatches`, an
    evaluator for the `$or` / `$and` / `$eq` shape this plugin builds.
 */
module UniqueKeys {
  import opened Results
  import opened JsValues
  import opened Paths

  /** A child of the rack's schema: its full dotted path and its `unique`
      setting. */
  datatype Field = Field(fullPath: string, unique: Value)

  /** A named key and its paths, in schema-child order. */
  datatype Key = Key(name: string, paths: seq<string>)

  /** The key a field belongs to: none when `unique` is falsy, the field's
      own path when `unique` is `true`, and `String(unique)` otherwise. */
  function KeyName(f: Field): (r: Option<string>)
    ensures r.None? <==> !Truthy(f.unique)
    ensures f.unique == Bool(true) ==> r == Some(f.fullPath)
    ensures f.unique.Str? && f.unique.s != "" ==> r == Some(f.unique.s)
  {
    if !Truthy(f.unique) then None
    else if f.unique.Bool? then Some(f.fullPath)
    else Some(ToText(f.unique))
  }

  /** `keys[keyName].push(path)`, creating the key (last) when it is new. */
  function AddPath(keys: seq<Key>, name: string, path: string): seq<Key> {
    if keys == [] then [Key(name, [path])]
    else if keys[0].name == name then [Key(name, keys[0].paths + [path])] + keys[1..]
    else [keys[0]] + AddPath(keys[1..], name, path)
  }

  /** The grouping loop over the schema's children. */
  function Group(fields: seq<Field>): seq<Key> {
    if fields == [] then []
    else
      var keys := Group(fields[..|fields| - 1]);
      var f := fields[|fields| - 1];
      match KeyName(f)
      case None => keys
      case Some(name) => AddPath(keys, name, f.fullPath)
  }

  /** `keys[name]`, empty when there is no such key. */
  function PathsOf(keys: seq<Key>, name: string): seq<string> {
    if keys == [] then []
    else if keys[0].name == name then keys[0].paths
    else PathsOf(keys[1..], name)
  }

  function Names(keys: seq<Key>): (names: seq<string>)
    ensures |names| == |keys|
    ensures forall i :: 0 <= i < |keys| ==> names[i] == keys[i].name
  {
    if keys == [] then [] else [keys[0].name] + Names(keys[1..])
  }

  /** The reference grouping: the paths of the fields that name `name`, in
      schema-child order. */
  function FieldsNamed(fields: seq<Field>, name: string): seq<string> {
    if fields == [] then []
    else
      var f := fields[|fields| - 1];
      FieldsNamed(fields[..|fields| - 1], name) + (if KeyName(f) == Some(name) then [f.fullPath] else [])
  }

  lemma {:induction false} AddPathPaths(keys: seq<Key>, name: string, path: string, m: string)
    ensures PathsOf(AddPath(keys, name, path), m) == PathsOf(keys, m) + (if m == name then [path] else [])
  {
    if keys != [] && keys[0].name != name {
      AddPathPaths(keys[1..], name, path, m);
      assert AddPath(keys, name, path)[1..] == AddPath(keys[1..], name, path);
    } else if keys != [] {
      assert AddPath(keys, name, path)[1..] == keys[1..];
    }
  }

  lemma {:induction false} AddPathNames(keys: seq<Key>, name: string, path: string)
    ensures Names(AddPath(keys, name, path)) == if name in Names(keys) then Names(keys) else Names(keys) + [name]
  {
    if keys != [] && keys[0].name != name {
      AddPathNames(keys[1..], name, path);
      assert AddPath(keys, name, path)[1..] == AddPath(keys[1..], name, path);
      assert Names(keys) == [keys[0].name] + Names(keys[1..]);
    } else if keys != [] {
      assert AddPath(keys, name, path)[1..] == keys[1..];
    }
  }

  /** Every key holds exactly the paths of the fields that name it, in
      schema-child order: a `unique: true` field alone under its own path, and
      fields sharing a `unique` name together. */
  lemma {:induction false} GroupPaths(fields: seq<Field>, name: string)
    ensures PathsOf(Group(fields), name) == FieldsNamed(fields, name)
  {
    if fields != [] {
      var init := fields[..|fields| - 1];
      GroupPaths(init, name);
      var f := fields[|fields| - 1];
      match KeyName(f)
      case None =>
      case Some(n) =>
        AddPathPaths(Group(init), n, f.fullPath, name);
    }
  }

  /** Key names are distinct and listed in order of first appearance; a name
      is present exactly when some field names it. */
  lemma {:induction false} GroupNames(fields: seq<Field>)
    ensures Distinct(Names(Group(fields)))
    ensures forall name :: name in Names(Group(fields)) <==> FieldsNamed(fields, name) != []
  {
    if fields != [] {
      var init := fields[..|fields| - 1];
      GroupNames(init);
      var f := fields[|fields| - 1];
      match KeyName(f)
      case None =>
      case Some(n) =>
        AddPathNames(Group(init), n, f.fullPath);
    }
  }

  // ---------------------------------------------------------------------------
  // The collision query
  // ---------------------------------------------------------------------------

  /** `{ [path]: { $eq: get(entry, path) } }`. */
  function EqClause(path: string, entry: Value): Value {
    Obj([Prop(path, Obj([Prop("$eq", Find(entry, path))]))])
  }

  function AndClauses(paths: seq<string>, entry: Value): (r: seq<Value>)
    ensures |r| == |paths|
    ensures forall i :: 0 <= i < |paths| ==> r[i] == EqClause(paths[i], entry)
  {
    if paths == [] then [] else [EqClause(paths[0], entry)] + AndClauses(paths[1..], entry)
  }

  function OrClauses(keys: seq<Key>, entry: Value): (r: seq<Value>)
    ensures |r| == |keys|
    ensures forall i :: 0 <= i < |keys| ==> r[i] == Obj([Prop("$and", Arr(AndClauses(keys[i].paths, entry)))])
  {
    if keys == [] then [] else [Obj([Prop("$and", Arr(AndClauses(keys[0].paths, entry)))])] + OrClauses(keys[1..], entry)
  }

  /** `{ $or: [ { $and: [ { path: { $eq: entry[path] } }, ... ] }, ... ] }`. */
  function CollisionQuery(keys: seq<Key>, entry: Value): Value {
    Obj([Prop("$or", Arr(OrClauses(keys, entry)))])
  }

  /** What a query of this shape selects: `$or` of its items, `$and` of its
      items, and a one-path `$eq` comparing the value found at the path.
      Every other form selects nothing here. */
  predicate QueryMatches(q: Value, doc: Value)
    decreases q
  {
    if q.Obj? && |q.props| == 1 && q.props[0].key == "$or" && q.props[0].val.Arr? then
      exists i :: 0 <= i < |q.props[0].val.items| && QueryMatches(q.props[0].val.items[i], doc)
    else if q.Obj? && |q.props| == 1 && q.props[0].key == "$and" && q.props[0].val.Arr? then
      forall i :: 0 <= i < |q.props[0].val.items| ==> QueryMatches(q.props[0].val.items[i], doc)
    else if q.Obj? && |q.props| == 1 && q.props[0].val.Obj? && |q.props[0].val.props| == 1
      && q.props[0].val.props[0].key == "$eq" then
      Find(doc, q.props[0].key) == q.props[0].val.props[0].val
    else false
  }

  /** `doc` agrees with `entry` on every path of the key. */
  predicate AgreesOn(paths: seq<string>, doc: Value, entry: Value) {
    forall i :: 0 <= i < |paths| ==> Find(doc, paths[i]) == Find(entry, paths[i])
  }

  lemma EqClauseMatches(path: string, entry: Value, doc: Value)
    ensures QueryMatches(EqClause(path, entry), doc) <==> Find(doc, path) == Find(entry, path)
  {
    var c := EqClause(path, entry);
    assert !c.props[0].val.Arr?;
  }

  lemma AndShape(items: seq<Value>, doc: Value)
    ensures QueryMatches(Obj([Prop("$and", Arr(items))]), doc) <==>
      forall i :: 0 <= i < |items| ==> QueryMatches(items[i], doc)
  {
    assert "$and" != "$or";
  }

  lemma OrShape(items: seq<Value>, doc: Value)
    ensures QueryMatches(Obj([Prop("$or", Arr(items))]), doc) <==>
      exists i :: 0 <= i < |items| && QueryMatches(items[i], doc)
  {
  }

  lemma AndMatches(paths: seq<string>, entry: Value, doc: Value)
    ensures QueryMatches(Obj([Prop("$and", Arr(AndClauses(paths, entry)))]), doc) <==> AgreesOn(paths, doc, entry)
  {
    var clauses := AndClauses(paths, entry);
    AndShape(clauses, doc);
    forall i | 0 <= i < |paths|
      ensures QueryMatches(clauses[i], doc) <==> Find(doc, paths[i]) == Find(entry, paths[i])
    {
      EqClauseMatches(paths[i], entry, doc);
    }
  }

  /** The query selects exactly the documents that agree with the entry on
      every path of at least one key. */
  lemma CollisionQueryMeaning(keys: seq<Key>, entry: Value, doc: Value)
    ensures QueryMatches(CollisionQuery(keys, entry), doc) <==>
      exists k :: 0 <= k < |keys| && AgreesOn(keys[k].paths, doc, entry)
  {
    var items := OrClauses(keys, entry);
    OrShape(items, doc);
    forall k | 0 <= k < |keys|
      ensures QueryMatches(items[k], doc) <==> AgreesOn(keys[k].paths, doc, entry)
    {
      AndMatches(keys[k].paths, entry, doc);
    }
    if exists k :: 0 <= k < |keys| && AgreesOn(keys[k].paths, doc, entry) {
      var k :| 0 <= k < |keys| && AgreesOn(keys[k].paths, doc, entry);
      assert QueryMatches(items[k], doc);
    }
  }

  // ---------------------------------------------------------------------------
  // checkPrimaryKeys
  // ---------------------------------------------------------------------------

  /** deep-object-diff's `diff(lhs, rhs)` is a parameter; `DiffRule` is what
      the failing-key test relies on: strictly equal sides give `{}`, and when
      either side is not an object the result is `rhs` itself. */
  ghost predicate DiffRule(diff: (Value, Value) -> Value) {
    && (forall a, b :: StrictEquals(a, b) ==> diff(a, b) == Obj([]))
    && (forall a, b :: !StrictEquals(a, b) && !(IsObject(a) && IsObject(b)) ==> diff(a, b) == b)
  }

  /** `typeof v === 'object' && v !== null`. */
  predicate IsObject(v: Value) {
    v.Arr? || v.Obj?
  }

  /** `Object.keys(diff(a, b)).length === 0`; `Object.keys` throws on a nil
      diff. */
  function NoDiff(diff: (Value, Value) -> Value, a: Value, b: Value): (r: Result<bool>)
    ensures r.Err? <==> IsNil(diff(a, b))
    ensures r.Ok? ==> (r.value <==> ObjectKeys(diff(a, b)).value == [])
  {
    var ks :- ObjectKeys(diff(a, b));
    Ok(|ks| == 0)
  }

  /** Under the diff rule, two sides that are not both objects count as "no
      diff" when they are strictly equal, and otherwise exactly when `b` has
      no own keys: a different number or boolean, or an empty string, passes;
      a nil `b` throws. */
  lemma NoDiffScalar(diff: (Value, Value) -> Value, a: Value, b: Value)
    requires DiffRule(diff)
    requires !(IsObject(a) && IsObject(b))
    ensures StrictEquals(a, b) ==> NoDiff(diff, a, b) == Ok(true)
    ensures !StrictEquals(a, b) && IsNil(b) ==> NoDiff(diff, a, b) == Err(TypeError("Cannot convert undefined or null to object"))
    ensures !StrictEquals(a, b) && (b.Num? || b.NaN? || b.Bool?) ==> NoDiff(diff, a, b) == Ok(true)
    ensures !StrictEquals(a, b) && b.Str? ==> NoDiff(diff, a, b) == Ok(b.s == [])
  {
  }

  /** Strictly equal sides, objects or not, count as "no diff". */
  lemma NoDiffEqual(diff: (Value, Value) -> Value, a: Value, b: Value)
    requires DiffRule(diff)
    requires StrictEquals(a, b)
    ensures NoDiff(diff, a, b) == Ok(true)
  {
    assert diff(a, b) == Obj([]);
  }

  /** One key's test as written: `get(doc, props)` with the whole path array,
      which lodash reads as ONE nested path `props[0].props[1]...`, each
      element taken literally, and the two reads compared through `diff`. */
  function KeyNoDiff(diff: (Value, Value) -> Value, key: Key, found: Value, entry: Value): Result<bool> {
    NoDiff(diff, GetIn(found, key.paths), GetIn(entry, key.paths))
  }

  /** The failing keys as written: the keys whose test reports no diff, in
      key order; the first test that throws ends the filter with its error. */
  function FailingKeysAsWritten(diff: (Value, Value) -> Value, keys: seq<Key>, found: Value, entry: Value): (r: Result<seq<string>>)
    ensures r.Ok? ==> |r.value| <= |keys|
  {
    if keys == [] then Ok([])
    else
      var head :- KeyNoDiff(diff, keys[0], found, entry);
      var rest :- FailingKeysAsWritten(diff, keys[1..], found, entry);
      Ok((if head then [keys[0].name] else []) + rest)
  }

  /** No key's test throws. */
  predicate TestsPass(diff: (Value, Value) -> Value, keys: seq<Key>, found: Value, entry: Value) {
    forall k :: 0 <= k < |keys| ==> KeyNoDiff(diff, keys[k], found, entry).Ok?
  }

  /** Some key's test throws `e`, and every test before it passes. */
  predicate ThrowsFirst(diff: (Value, Value) -> Value, keys: seq<Key>, found: Value, entry: Value, e: Error) {
    exists k :: 0 <= k < |keys| && KeyNoDiff(diff, keys[k], found, entry) == Err(e)
      && forall j :: 0 <= j < k ==> KeyNoDiff(diff, keys[j], found, entry).Ok?
  }

  /** The filter succeeds exactly when no key's test throws, and otherwise
      fails with the error of the first key whose test throws. */
  lemma {:induction false} FailingKeysAsWrittenThrows(diff: (Value, Value) -> Value, keys: seq<Key>, found: Value, entry: Value)
    ensures var r := FailingKeysAsWritten(diff, keys, found, entry);
      && (r.Ok? <==> TestsPass(diff, keys, found, entry))
      && (r.Err? ==> ThrowsFirst(diff, keys, found, entry, r.error))
  {
    if keys != [] {
      FailingKeysAsWrittenThrows(diff, keys[1..], found, entry);
      TestsPassCons(diff, keys, found, entry);
      var h := KeyNoDiff(diff, keys[0], found, entry);
      var r := FailingKeysAsWritten(diff, keys, found, entry);
      if h.Err? {
        ThrowsFirstHead(diff, keys, found, entry);
      } else if r.Err? {
        ThrowsFirstCons(diff, keys, found, entry, r.error);
      }
    }
  }

  lemma TestsPassCons(diff: (Value, Value) -> Value, keys: seq<Key>, found: Value, entry: Value)
    requires keys != []
    ensures TestsPass(diff, keys, found, entry) <==>
      KeyNoDiff(diff, keys[0], found, entry).Ok? && TestsPass(diff, keys[1..], found, entry)
  {
    if TestsPass(diff, keys, found, entry) {
      forall k | 0 <= k < |keys[1..]| ensures KeyNoDiff(diff, keys[1..][k], found, entry).Ok? {
        assert keys[1..][k] == keys[k + 1];
      }
    }
    if KeyNoDiff(diff, keys[0], found, entry).Ok? && TestsPass(diff, keys[1..], found, entry) {
      forall k | 0 <= k < |keys| ensures KeyNoDiff(diff, keys[k], found, entry).Ok? {
        if k > 0 { assert keys[k] == keys[1..][k - 1]; }
      }
    }
  }

  lemma ThrowsFirstHead(diff: (Value, Value) -> Value, keys: seq<Key>, found: Value, entry: Value)
    requires keys != [] && KeyNoDiff(diff, keys[0], found, entry).Err?
    ensures ThrowsFirst(diff, keys, found, entry, KeyNoDiff(diff, keys[0], found, entry).error)
  {
  }

  lemma ThrowsFirstCons(diff: (Value, Value) -> Value, keys: seq<Key>, found: Value, entry: Value, e: Error)
    requires keys != [] && KeyNoDiff(diff, keys[0], found, entry).Ok?
    requires ThrowsFirst(diff, keys[1..], found, entry, e)
    ensures ThrowsFirst(diff, keys, found, entry, e)
  {
    var k :| 0 <= k < |keys[1..]| && KeyNoDiff(diff, keys[1..][k], found, entry) == Err(e)
      && forall j :: 0 <= j < k ==> KeyNoDiff(diff, keys[1..][j], found, entry).Ok?;
    assert keys[k + 1] == keys[1..][k];
    forall j | 0 <= j < k + 1 ensures KeyNoDiff(diff, keys[j], found, entry).Ok? {
      if j > 0 { assert keys[j] == keys[1..][j - 1]; }
    }
  }

  /** When no test throws, a key is listed exactly when its test reports no
      diff. */
  lemma {:induction false} FailingKeysAsWrittenMeaning(diff: (Value, Value) -> Value, keys: seq<Key>, found: Value, entry: Value, name: string)
    requires FailingKeysAsWritten(diff, keys, found, entry).Ok?
    ensures name in FailingKeysAsWritten(diff, keys, found, entry).value <==>
      exists k :: 0 <= k < |keys| && keys[k].name == name && KeyNoDiff(diff, keys[k], found, entry) == Ok(true)
  {
    if keys != [] {
      FailingKeysAsWrittenMeaning(diff, keys[1..], found, entry, name);
      if exists k :: 0 <= k < |keys[1..]| && keys[1..][k].name == name && KeyNoDiff(diff, keys[1..][k], found, entry) == Ok(true) {
        var k :| 0 <= k < |keys[1..]| && keys[1..][k].name == name && KeyNoDiff(diff, keys[1..][k], found, entry) == Ok(true);
        assert keys[k + 1] == keys[1..][k];
      }
      if exists k :: 0 <= k < |keys| && keys[k].name == name && KeyNoDiff(diff, keys[k], found, entry) == Ok(true) {
        var k :| 0 <= k < |keys| && keys[k].name == name && KeyNoDiff(diff, keys[k], found, entry) == Ok(true);
        if k > 0 {
          assert keys[1..][k - 1] == keys[k];
        }
      }
    }
  }

  /** The failing keys as intended: those on whose every path the found
      document and the entry agree. */
  function FailingKeys(keys: seq<Key>, found: Value, entry: Value): (names: seq<string>)
    ensures |names| <= |keys|
  {
    if keys == [] then []
    else
      (if AgreesOn(keys[0].paths, found, entry) then [keys[0].name] else [])
      + FailingKeys(keys[1..], found, entry)
  }

  /** A key is reported exactly when the found document agrees with the entry
      on all its paths. */
  lemma {:induction false} FailingKeysMeaning(keys: seq<Key>, found: Value, entry: Value, name: string)
    requires Distinct(Names(keys))
    ensures name in FailingKeys(keys, found, entry) <==>
      exists k :: 0 <= k < |keys| && keys[k].name == name && AgreesOn(keys[k].paths, found, entry)
  {
    if keys != [] {
      assert Names(keys[1..]) == Names(keys)[1..];
      FailingKeysMeaning(keys[1..], found, entry, name);
      if exists k :: 0 <= k < |keys[1..]| && keys[1..][k].name == name && AgreesOn(keys[1..][k].paths, found, entry) {
        var k :| 0 <= k < |keys[1..]| && keys[1..][k].name == name && AgreesOn(keys[1..][k].paths, found, entry);
        assert keys[k + 1] == keys[1..][k];
      }
      if exists k :: 0 <= k < |keys| && keys[k].name == name && AgreesOn(keys[k].paths, found, entry) {
        var k :| 0 <= k < |keys| && keys[k].name == name && AgreesOn(keys[k].paths, found, entry);
        if k > 0 {
          assert keys[1..][k - 1] == keys[k];
        }
      }
    }
  }

  /** A sample document: `{ email: "a@b", first: "Ann", last }`. */
  function Person(last: string): Value {
    Obj([Prop("email", Str("a@b")), Prop("first", Str("Ann")), Prop("last", Str(last))])
  }

  lemma PersonReads(last: string)
    ensures Find(Person(last), "email") == Str("a@b")
    ensures Find(Person(last), "last") == Str(last)
    ensures GetIn(Person(last), ["email"]) == Str("a@b")
    ensures GetIn(Person(last), ["first", "last"]) == Undefined
  {
    var p := Person(last);
    assert "email" != "first" by { assert "email"[0] != "first"[0]; }
    assert "email" != "last" by { assert |"email"| != |"last"|; }
    assert "first" != "last" by { assert |"first"| != |"last"|; }
    PlainSegments("email");
    PlainSegments("last");
    var tail := [Prop("first", Str("Ann")), Prop("last", Str(last))];
    assert p.props[1..] == tail;
    assert tail[1..] == [Prop("last", Str(last))];
    assert Get(tail[1..], "last") == Str(last);
    assert Get(tail, "last") == Str(last);
    assert Get(p.props, "last") == Str(last);
    assert Get(tail, "first") == Str("Ann");
    assert SafeGet(p, "first") == Str("Ann");
    SafeGetName(Str("Ann"), "last");
    assert ["first", "last"][1..] == ["last"];
  }

  /** A composite key (`first` and `last`) is reported as written although
      the found document differs from the entry on `last`. */
  lemma FailingKeysAsWrittenCounterexample(diff: (Value, Value) -> Value)
    requires DiffRule(diff)
    ensures var keys := [Key("email", ["email"]), Key("fullName", ["first", "last"])];
      && FailingKeysAsWritten(diff, keys, Person("Lee"), Person("Ray")) == Ok(["email", "fullName"])
      && FailingKeys(keys, Person("Lee"), Person("Ray")) == ["email"]
  {
    SampleKeysAsWritten(diff);
    SampleKeysCorrected();
  }

  /** The two keys of the sample, as the code reads them. */
  lemma SampleKeysAsWritten(diff: (Value, Value) -> Value)
    requires DiffRule(diff)
    ensures FailingKeysAsWritten(diff, [Key("email", ["email"]), Key("fullName", ["first", "last"])], Person("Lee"), Person("Ray"))
      == Ok(["email", "fullName"])
  {
    var keys := [Key("email", ["email"]), Key("fullName", ["first", "last"])];
    EmailAgrees();
    NoDiffEqual(diff, GetIn(Person("Lee"), ["email"]), GetIn(Person("Ray"), ["email"]));
    FullNameAsWritten(diff);
    assert keys[1..] == [Key("fullName", ["first", "last"])];
    assert [keys[0].name] + ["fullName"] == ["email", "fullName"];
  }

  /** Both sample documents hold the same `email`. */
  lemma EmailAgrees()
    ensures GetIn(Person("Lee"), ["email"]) == GetIn(Person("Ray"), ["email"])
  {
    PersonReads("Lee");
    PersonReads("Ray");
  }

  /** The composite key alone, as the code reads it: both sample documents
      lack `first.last`, so the key is reported. */
  lemma FullNameAsWritten(diff: (Value, Value) -> Value)
    requires DiffRule(diff)
    ensures FailingKeysAsWritten(diff, [Key("fullName", ["first", "last"])], Person("Lee"), Person("Ray")) == Ok(["fullName"])
  {
    var keys := [Key("fullName", ["first", "last"])];
    PersonReads("Lee");
    PersonReads("Ray");
    NoDiffEqual(diff, Undefined, Undefined);
    assert KeyNoDiff(diff, keys[0], Person("Lee"), Person("Ray")) == Ok(true);
    assert keys[1..] == [];
    assert FailingKeysAsWritten(diff, keys[1..], Person("Lee"), Person("Ray")) == Ok([]);
    assert [keys[0].name] + [] == ["fullName"];
  }

  /** The two keys of the sample, compared path by path. */
  lemma SampleKeysCorrected()
    ensures FailingKeys([Key("email", ["email"]), Key("fullName", ["first", "last"])], Person("Lee"), Person("Ray")) == ["email"]
  {
    var keys := [Key("email", ["email"]), Key("fullName", ["first", "last"])];
    PersonReads("Lee");
    PersonReads("Ray");
    assert !AgreesOn(["first", "last"], Person("Lee"), Person("Ray")) by {
      assert ["first", "last"][1] == "last";
    }
    assert AgreesOn(["email"], Person("Lee"), Person("Ray"));
    assert keys[1..] == [Key("fullName", ["first", "last"])];
    assert keys[1..][1..] == [];
  }

  /** The keys the error message lists under `reading`; as written the
      filter may throw instead. */
  function FailingNames(reading: Reading, diff: (Value, Value) -> Value, keys: seq<Key>, found: Value, entry: Value): (r: Result<seq<string>>)
    ensures reading.AsWritten? ==> r == FailingKeysAsWritten(diff, keys, found, entry)
    ensures reading.Corrected? ==> r == Ok(FailingKeys(keys, found, entry))
  {
    match reading
    case AsWritten => FailingKeysAsWritten(diff, keys, found, entry)
    case Corrected => Ok(FailingKeys(keys, found, entry))
  }

  /** The error `checkPrimaryKeys` throws for a colliding document. */
  function Collision(names: seq<string>): Error {
    Plain("primary keys (" + Join(names, ", ") + ") failed for document")
  }

  /** The check of one entry.  `found` is `await duckRack.find({ $or })`: the
      entry is rejected when the first match is a different document, and the
      error lists the failing keys, as written or as corrected; as written,
      a failing-key test that throws replaces that error with its own. */
  function CheckPrimaryKeys(reading: Reading, diff: (Value, Value) -> Value, keys: seq<Key>, entry: Value, found: seq<Value>): (r: Result<Value>)
    ensures found == [] ==> r == Ok(entry)
    ensures found != [] && !IsNil(found[0]) && !IsNil(entry) ==>
      (r.Err? <==> !StrictEquals(SafeGet(found[0], "_id"), SafeGet(entry, "_id")))
    ensures found != [] && (IsNil(found[0]) || IsNil(entry)) ==> r.Err? && r.error.Thrown? && r.error.name == "TypeError"
    ensures r.Ok? ==> r.value == entry
    ensures r.Err? && found != [] && !IsNil(found[0]) && !IsNil(entry) ==>
      var names := FailingNames(reading, diff, keys, found[0], entry);
      && (names.Ok? ==> r.error == Collision(names.value))
      && (names.Err? ==> r.error == names.error)
  {
    if found == [] then Ok(entry)
    else
      var foundId :- Member(found[0], "_id");
      var entryId :- Member(entry, "_id");
      if StrictEquals(foundId, entryId) then Ok(entry)
      else
        var names :- FailingNames(reading, diff, keys, found[0], entry);
        Err(Collision(names))
  }

  /** `{ _id, code, email }`, a document of the two samples below. */
  function Coded(id: string, code: int, email: string): Value {
    Obj([Prop("_id", Str(id)), Prop("code", Num(code)), Prop("email", Str(email))])
  }

  lemma CodedReads(id: string, code: int, email: string)
    ensures GetIn(Coded(id, code, email), ["_id"]) == Str(id)
    ensures GetIn(Coded(id, code, email), ["code"]) == Num(code)
    ensures GetIn(Coded(id, code, email), ["email"]) == Str(email)
  {
    var ps := Coded(id, code, email).props;
    assert "code"[0] != "_id"[0] && "email"[0] != "_id"[0] && "email"[0] != "code"[0];
    assert ps[1..] == [Prop("code", Num(code)), Prop("email", Str(email))];
    assert ps[1..][1..] == [Prop("email", Str(email))];
    assert Get(ps[1..][1..], "email") == Str(email);
    assert Get(ps[1..], "email") == Str(email);
    assert Get(ps, "email") == Str(email);
    assert Get(ps, "code") == Num(code);
    assert ["code"][1..] == [] && ["email"][1..] == [] && ["_id"][1..] == [];
  }

  /** As written, a key on which the two documents hold different numbers
      is still reported: `diff(1, 2)` is `2`, which has no keys.  Corrected,
      only the key they share is. */
  lemma ScalarKeyReportedAsWritten(diff: (Value, Value) -> Value)
    requires DiffRule(diff)
    ensures var keys := [Key("code", ["code"]), Key("email", ["email"])];
      var found := [Coded("a", 1, "x")];
      var entry := Coded("b", 2, "x");
      && CheckPrimaryKeys(AsWritten, diff, keys, entry, found) == Err(Collision(["code", "email"]))
      && CheckPrimaryKeys(Corrected, diff, keys, entry, found) == Err(Collision(["email"]))
  {
    CodedReads("a", 1, "x");
    CodedReads("b", 2, "x");
    assert SafeGet(Coded("a", 1, "x"), "_id") == Str("a") && SafeGet(Coded("b", 2, "x"), "_id") == Str("b");
    CodedKeysAsWritten(diff);
    CodedKeysCorrected();
  }

  /** The failing-key filter of the sample, as written. */
  lemma CodedKeysAsWritten(diff: (Value, Value) -> Value)
    requires DiffRule(diff)
    ensures FailingKeysAsWritten(diff, [Key("code", ["code"]), Key("email", ["email"])], Coded("a", 1, "x"), Coded("b", 2, "x"))
      == Ok(["code", "email"])
  {
    var keys := [Key("code", ["code"]), Key("email", ["email"])];
    var f := Coded("a", 1, "x");
    var e := Coded("b", 2, "x");
    CodedReads("a", 1, "x");
    CodedReads("b", 2, "x");
    NoDiffScalar(diff, Num(1), Num(2));
    NoDiffEqual(diff, Str("x"), Str("x"));
    assert keys[1..] == [Key("email", ["email"])] && keys[1..][1..] == [];
    assert FailingKeysAsWritten(diff, keys[1..], f, e) == Ok(["email"]) by {
      assert [keys[1].name] + [] == ["email"];
    }
    assert [keys[0].name] + ["email"] == ["code", "email"];
  }

  /** The failing keys of the sample, compared path by path. */
  lemma CodedKeysCorrected()
    ensures FailingKeys([Key("code", ["code"]), Key("email", ["email"])], Coded("a", 1, "x"), Coded("b", 2, "x")) == ["email"]
  {
    var keys := [Key("code", ["code"]), Key("email", ["email"])];
    var f := Coded("a", 1, "x");
    var e := Coded("b", 2, "x");
    CodedReads("a", 1, "x");
    CodedReads("b", 2, "x");
    PlainSegments("code");
    PlainSegments("email");
    assert !AgreesOn(["code"], f, e) by {
      assert ["code"][0] == "code";
    }
    assert AgreesOn(["email"], f, e);
    assert keys[1..] == [Key("email", ["email"])] && keys[1..][1..] == [];
  }

  /** `{ _id, username }` and `{ _id, email, username }`. */
  function NoEmail(): Value {
    Obj([Prop("_id", Str("b")), Prop("username", Str("bob"))])
  }

  function WithEmail(): Value {
    Obj([Prop("_id", Str("a")), Prop("email", Str("x@y")), Prop("username", Str("bob"))])
  }

  lemma EmailReads()
    ensures GetIn(NoEmail(), ["email"]) == Undefined && GetIn(WithEmail(), ["email"]) == Str("x@y")
    ensures GetIn(NoEmail(), ["username"]) == Str("bob") && GetIn(WithEmail(), ["username"]) == Str("bob")
    ensures SafeGet(NoEmail(), "_id") == Str("b") && SafeGet(WithEmail(), "_id") == Str("a")
  {
    assert "email"[0] != "_id"[0] && "email"[0] != "username"[0] && "username"[0] != "_id"[0];
    assert NoEmail().props[1..][0] == Prop("username", Str("bob"));
    assert WithEmail().props[1..][0] == Prop("email", Str("x@y"));
    assert WithEmail().props[1..][1..][0] == Prop("username", Str("bob"));
  }

  /** As written, an entry that lacks a key's field makes the failing-key
      test throw: `diff("x@y", undefined)` is `undefined`, and
      `Object.keys(undefined)` is a TypeError.  Corrected, the colliding key
      is reported. */
  lemma MissingKeyThrowsAsWritten(diff: (Value, Value) -> Value)
    requires DiffRule(diff)
    ensures var keys := [Key("email", ["email"]), Key("username", ["username"])];
      && CheckPrimaryKeys(AsWritten, diff, keys, NoEmail(), [WithEmail()]) == Err(TypeError("Cannot convert undefined or null to object"))
      && CheckPrimaryKeys(Corrected, diff, keys, NoEmail(), [WithEmail()]) == Err(Collision(["username"]))
  {
    EmailReads();
    MissingKeyAsWritten(diff);
    MissingKeyCorrected();
  }

  /** The failing-key filter of the sample, as written: the `email` test throws. */
  lemma MissingKeyAsWritten(diff: (Value, Value) -> Value)
    requires DiffRule(diff)
    ensures FailingKeysAsWritten(diff, [Key("email", ["email"]), Key("username", ["username"])], WithEmail(), NoEmail())
      == Err(TypeError("Cannot convert undefined or null to object"))
  {
    var keys := [Key("email", ["email"]), Key("username", ["username"])];
    EmailReads();
    NoDiffScalar(diff, Str("x@y"), Undefined);
    assert KeyNoDiff(diff, keys[0], WithEmail(), NoEmail()).Err?;
  }

  /** The failing keys of the sample, compared path by path. */
  lemma MissingKeyCorrected()
    ensures FailingKeys([Key("email", ["email"]), Key("username", ["username"])], WithEmail(), NoEmail()) == ["username"]
  {
    var keys := [Key("email", ["email"]), Key("username", ["username"])];
    var f := WithEmail();
    var e := NoEmail();
    EmailReads();
    assert keys[1..] == [Key("username", ["username"])] && keys[1..][1..] == [];
    assert !AgreesOn(["email"], f, e) by {
      PlainSegments("email");
    }
    assert AgreesOn(["username"], f, e) by {
      PlainSegments("username");
    }
  }

  /** When the first document `find` returned for the collision query is a
      different one, the corrected check rejects the entry and names exactly
      the keys on which that document agrees with it, of which there is at
      least one. */
  lemma CheckPrimaryKeysReportsCollision(diff: (Value, Value) -> Value, keys: seq<Key>, entry: Value, found: seq<Value>)
    requires Distinct(Names(keys))
    requires found != [] && !IsNil(found[0]) && !IsNil(entry)
    requires QueryMatches(CollisionQuery(keys, entry), found[0])
    requires !StrictEquals(SafeGet(found[0], "_id"), SafeGet(entry, "_id"))
    ensures var names := FailingKeys(keys, found[0], entry);
      && CheckPrimaryKeys(Corrected, diff, keys, entry, found) == Err(Collision(names))
      && names != []
      && forall name :: name in names <==> exists k :: 0 <= k < |keys| && keys[k].name == name && AgreesOn(keys[k].paths, found[0], entry)
  {
    var doc := found[0];
    CollisionAgrees(keys, entry, doc);
    FailingKeysNonEmpty(keys, doc, entry);
    ReportedKeys(keys, doc, entry);
  }

  /** A document the collision query selects agrees with the entry on some
      key. */
  lemma CollisionAgrees(keys: seq<Key>, entry: Value, doc: Value)
    requires QueryMatches(CollisionQuery(keys, entry), doc)
    ensures exists k :: 0 <= k < |keys| && AgreesOn(keys[k].paths, doc, entry)
  {
    CollisionQueryMeaning(keys, entry, doc);
  }

  /** FailingKeysMeaning for every name at once. */
  lemma ReportedKeys(keys: seq<Key>, doc: Value, entry: Value)
    requires Distinct(Names(keys))
    ensures forall name :: name in FailingKeys(keys, doc, entry) <==>
      exists k :: 0 <= k < |keys| && keys[k].name == name && AgreesOn(keys[k].paths, doc, entry)
  {
    forall name ensures name in FailingKeys(keys, doc, entry) <==>
      exists k :: 0 <= k < |keys| && keys[k].name == name && AgreesOn(keys[k].paths, doc, entry) {
      FailingKeysMeaning(keys, doc, entry, name);
    }
  }

  /** Some key reported whenever the document agrees with the entry on some
      key. */
  lemma {:induction false} FailingKeysNonEmpty(keys: seq<Key>, found: Value, entry: Value)
    requires exists k :: 0 <= k < |keys| && AgreesOn(keys[k].paths, found, entry)
    ensures FailingKeys(keys, found, entry) != []
  {
    if !AgreesOn(keys[0].paths, found, entry) {
      var k :| 0 <= k < |keys| && AgreesOn(keys[k].paths, found, entry);
      assert keys[1..][k - 1] == keys[k];
      FailingKeysNonEmpty(keys[1..], found, entry);
    }
  }

  /** before:update: check `entry`, then return `{ oldEntry, newEntry, entry }`. */
  function BeforeUpdate(reading: Reading, diff: (Value, Value) -> Value, keys: seq<Key>, payload: Value, found: seq<Value>): (r: Result<Value>)
    ensures r.Ok? ==> r.value == Obj([
      Prop("oldEntry", SafeGet(payload, "oldEntry")),
      Prop("newEntry", SafeGet(payload, "newEntry")),
      Prop("entry", SafeGet(payload, "entry"))])
    ensures !IsNil(payload) ==> (r.Ok? <==> CheckPrimaryKeys(reading, diff, keys, SafeGet(payload, "entry"), found).Ok?)
    ensures !IsNil(payload) && r.Err? ==> r == CheckPrimaryKeys(reading, diff, keys, SafeGet(payload, "entry"), found)
  {
    var oldEntry :- Member(payload, "oldEntry");
    var newEntry := SafeGet(payload, "newEntry");
    var entry := SafeGet(payload, "entry");
    var _ :- CheckPrimaryKeys(reading, diff, keys, entry, found);
    Ok(Obj([Prop("oldEntry", oldEntry), Prop("newEntry", newEntry), Prop("entry", entry)]))
  }
}
