/** The in-memory backing store plugin (src/lib/plugins/in-memory-db.js).
    A module-level object maps each rack name to that rack's own object of
    entries keyed by `String(_id)`; the plugin's hooks write, read and delete
    entries there and report them through the hook payload's `result` array.

    Matching by `sift` is a parameter (`matches(query, entry)`), and so is
    the schema engine's `Query.parse` (`parseQuery`).  Entries are
    values, so the deep copy made when an entry is returned is implicit: no
    later change to the result can reach the stored entry.
 */
module InMemoryDb {
  import opened Results
  import opened JsValues
  import opened Sorting
  import Paths

  /** `storeKey`: rack name to the entries of that rack, in insertion order. */
  type Db = map<string, seq<Prop>>

  /** `sift(query)(entry)`. */
  type Matcher = (Value, Value) -> bool

  /** The entries of one rack: `storeKey[rackName]`, or a `TypeError` when the
      plugin was never installed on that rack. */
  function Entries(db: Db, rack: string): (r: Result<seq<Prop>>)
    ensures r.Ok? <==> rack in db
  {
    if rack in db then Ok(db[rack]) else Err(TypeError("Cannot read properties of undefined"))
  }

  /** `handler({ duckRack })`: the rack starts with no entries. */
  function Install(db: Db, rack: string): (r: Db)
    ensures rack in r && r[rack] == []
    ensures forall other :: other != rack ==> (other in r <==> other in db) && (other in db ==> r[other] == db[other])
  {
    db[rack := []]
  }

  /** `result.push(...items)` on the payload's `result`: only an array has
      `push`. */
  function Push(result: Value, items: seq<Value>): (r: Result<Value>)
    ensures r.Ok? <==> result.Arr?
    ensures r.Ok? ==> r.value == Arr(result.items + items)
  {
    if result.Arr? then Ok(Arr(result.items + items))
    else Err(TypeError("result.push is not a function"))
  }

  /** `_id.toString()`: the key an entry is stored under. */
  function IdKey(id: Value): (r: Result<string>)
    ensures r.Ok? <==> !IsNil(id)
    ensures r.Ok? ==> r.value == ToText(id)
  {
    if IsNil(id) then Err(TypeError("Cannot read properties of " + ToText(id) + " (reading 'toString')"))
    else Ok(ToText(id))
  }

  /** before:create: store `{ ...entry, _id: entry._id.toString() }` under
      the id in this rack's map.  Returns the new database. */
  function BeforeCreate(db: Db, rack: string, payload: Value): (r: Result<Db>)
    ensures r.Ok? <==> !IsNil(payload) && !IsNil(SafeGet(payload, "entry")) && !IsNil(SafeGet(SafeGet(payload, "entry"), "_id")) && rack in db
    ensures r.Ok? ==>
      var entry := SafeGet(payload, "entry");
      var key := ToText(SafeGet(entry, "_id"));
      && rack in r.value
      && Get(r.value[rack], key) == Obj(Put(OwnProps(entry), "_id", Str(key)))
      && (forall k :: k != key ==> Get(r.value[rack], k) == Get(db[rack], k))
      && (forall other :: other != rack ==> (other in r.value <==> other in db) && (other in db ==> r.value[other] == db[other]))
  {
    var entry :- Member(payload, "entry");
    var id :- Member(entry, "_id");
    var key :- IdKey(id);
    var entries :- Entries(db, rack);
    var copy := Obj(Put(OwnProps(entry), "_id", Str(key)));
    var stored := Put(entries, key, copy);
    assert forall k :: Get(stored, k) == if k == key then copy else Get(entries, k) by {
      forall k ensures Get(stored, k) == if k == key then copy else Get(entries, k) {
        PutGet(entries, key, copy, k);
      }
    }
    Ok(db[rack := stored])
  }

  /** The database and the payload's `result` after a hook. */
  datatype Step = Step(db: Db, result: Value)

  /** before:update: `storeKey[rack][entry._id] = entry; result.push(entry)`. */
  function BeforeUpdate(db: Db, rack: string, payload: Value): (r: Result<Step>)
    ensures r.Ok? <==> !IsNil(payload) && !IsNil(SafeGet(payload, "entry")) && rack in db && SafeGet(payload, "result").Arr?
    ensures r.Ok? ==>
      var entry := SafeGet(payload, "entry");
      var key := ToText(SafeGet(entry, "_id"));
      && r.value.result == Arr(SafeGet(payload, "result").items + [entry])
      && rack in r.value.db
      && Get(r.value.db[rack], key) == entry
      && (forall k :: k != key ==> Get(r.value.db[rack], k) == Get(db[rack], k))
      && (forall other :: other != rack ==> (other in r.value.db <==> other in db) && (other in db ==> r.value.db[other] == db[other]))
  {
    var entry :- Member(payload, "entry");
    var id :- Member(entry, "_id");
    var entries :- Entries(db, rack);
    var key := ToText(id);
    var stored := Put(entries, key, entry);
    assert forall k :: Get(stored, k) == if k == key then entry else Get(entries, k) by {
      forall k ensures Get(stored, k) == if k == key then entry else Get(entries, k) {
        PutGet(entries, key, entry, k);
      }
    }
    var result :- Push(SafeGet(payload, "result"), [entry]);
    Ok(Step(db[rack := stored], result))
  }

  /** before:deleteById: a truthy entry stored under `_id` is removed and
      pushed onto `result`; otherwise nothing changes and `result` is not
      touched. */
  function BeforeDeleteById(db: Db, rack: string, payload: Value): (r: Result<Step>)
    ensures r.Ok? <==> (!IsNil(payload) && rack in db
      && (Truthy(Get(db[rack], ToText(SafeGet(payload, "_id")))) ==> SafeGet(payload, "result").Arr?))
    ensures r.Ok? ==>
      var key := ToText(SafeGet(payload, "_id"));
      var found := Get(db[rack], key);
      var result := SafeGet(payload, "result");
      && rack in r.value.db
      && (forall other :: other != rack ==> (other in r.value.db <==> other in db) && (other in db ==> r.value.db[other] == db[other]))
      && (if Truthy(found) then
            && r.value.result == Arr(result.items + [found])
            && Get(r.value.db[rack], key) == Undefined
            && (forall k :: k != key ==> Get(r.value.db[rack], k) == Get(db[rack], k))
          else r.value == Step(db, result))
  {
    var id :- Member(payload, "_id");
    var entries :- Entries(db, rack);
    var key := ToText(id);
    var found := Get(entries, key);
    if Truthy(found) then
      var rest := Remove(entries, key);
      assert forall k :: Get(rest, k) == if k == key then Undefined else Get(entries, k) by {
        forall k ensures Get(rest, k) == if k == key then Undefined else Get(entries, k) {
          RemoveGet(entries, key, k);
        }
      }
      var result :- Push(SafeGet(payload, "result"), [found]);
      Ok(Step(db[rack := rest], result))
    else
      assert db[rack := entries] == db;
      Ok(Step(db, SafeGet(payload, "result")))
  }

  /** What was created can be deleted by id: the stored copy is reported and
      the rack reads as before for every key. */
  lemma CreateThenDelete(db: Db, rack: string, entry: Value, result: seq<Value>)
    requires rack in db && entry.Obj? && !IsNil(Get(entry.props, "_id"))
    ensures var db1 := BeforeCreate(db, rack, Obj([Prop("entry", entry)])).value;
      var id := Get(entry.props, "_id");
      var key := ToText(id);
      var r := BeforeDeleteById(db1, rack, Obj([Prop("_id", id), Prop("result", Arr(result))]));
      && r.Ok?
      && r.value.result == Arr(result + [Obj(Put(entry.props, "_id", Str(key)))])
      && forall k :: k != key ==> Get(r.value.db[rack], k) == Get(db[rack], k)
  {
    var db1 := BeforeCreate(db, rack, Obj([Prop("entry", entry)])).value;
    var id := Get(entry.props, "_id");
    var key := ToText(id);
    var payload := Obj([Prop("_id", id), Prop("result", Arr(result))]);
    assert SafeGet(payload, "_id") == id;
    var tail := [Prop("result", Arr(result))];
    assert payload.props[1..] == tail;
    assert "_id" != "result" by { assert |"_id"| != |"result"|; }
    assert Get(tail, "result") == Arr(result);
    assert SafeGet(payload, "result") == Get(payload.props, "result") == Get(tail, "result");
    assert Truthy(Get(db1[rack], key));
  }

  /** `Object.values(storeKey[rack])`. */
  function Values(entries: seq<Prop>): (vs: seq<Value>)
    ensures |vs| == |entries|
    ensures forall i :: 0 <= i < |entries| ==> vs[i] == entries[i].val
  {
    if entries == [] then [] else [entries[0].val] + Values(entries[1..])
  }

  /** `entity.filter(sift(query))`. */
  function RunQuery(entries: seq<Value>, query: Value, matches: Matcher): (r: seq<Value>)
    ensures |r| <= |entries|
    ensures forall i :: 0 <= i < |r| ==> matches(query, r[i]) && r[i] in entries
  {
    if entries == [] then []
    else
      var rest := RunQuery(entries[1..], query, matches);
      if matches(query, entries[0]) then [entries[0]] + rest else rest
  }

  /** Every matching entry is kept. */
  lemma {:induction false} RunQueryComplete(entries: seq<Value>, query: Value, matches: Matcher, e: Value)
    requires e in entries && matches(query, e)
    ensures e in RunQuery(entries, query, matches)
  {
    if entries[0] != e {
      RunQueryComplete(entries[1..], query, matches, e);
    }
  }

  /** Position `i` holds the first entry the query matches. */
  predicate FirstMatch(entries: seq<Value>, query: Value, matches: Matcher, i: int) {
    && 0 <= i < |entries| && matches(query, entries[i])
    && forall j :: 0 <= j < i ==> !matches(query, entries[j])
  }

  /** `filter(...)[0]`: there is a hit exactly when some entry matches, and
      the first hit is the first matching entry. */
  lemma {:induction false} RunQueryFirst(entries: seq<Value>, query: Value, matches: Matcher)
    ensures RunQuery(entries, query, matches) == [] <==> forall i :: 0 <= i < |entries| ==> !matches(query, entries[i])
    ensures forall i :: FirstMatch(entries, query, matches, i) ==> RunQuery(entries, query, matches)[0] == entries[i]
  {
    if entries != [] {
      var tail := entries[1..];
      RunQueryFirst(tail, query, matches);
      if !matches(query, entries[0]) {
        forall i | FirstMatch(entries, query, matches, i)
          ensures RunQuery(entries, query, matches)[0] == entries[i]
        {
          assert i > 0;
          assert FirstMatch(tail, query, matches, i - 1) by {
            forall j | 0 <= j < i - 1 ensures !matches(query, tail[j]) {
              assert tail[j] == entries[j + 1];
            }
          }
        }
        if forall i :: 0 <= i < |tail| ==> !matches(query, tail[i]) {
          forall i | 0 <= i < |entries| ensures !matches(query, entries[i]) {
            if i > 0 { assert entries[i] == tail[i - 1]; }
          }
        }
      } else {
        forall i | FirstMatch(entries, query, matches, i)
          ensures i == 0
        {
        }
      }
    }
  }

  /** The query of before:findOneById: `{ _id: String(_id) }`, plus `_v`
      when `_v` is truthy. */
  function FindOneQuery(id: Value, v: Value): (q: Result<Value>)
    ensures q.Ok? <==> !IsNil(id)
    ensures q.Ok? ==> q.value.Obj? && Get(q.value.props, "_id") == Str(ToText(id))
    ensures q.Ok? ==> Get(q.value.props, "_v") == if Truthy(v) then v else Undefined
  {
    var key :- IdKey(id);
    if Truthy(v) then Ok(Obj([Prop("_id", Str(key)), Prop("_v", v)]))
    else Ok(Obj([Prop("_id", Str(key))]))
  }

  /** `result.length === 0`: an array or a string by its length, anything
      else by its `length` property. */
  predicate EmptyResult(result: Value) {
    match result
    case Arr(items) => items == []
    case Str(s) => s == ""
    case _ => StrictEquals(SafeGet(result, "length"), Num(0))
  }

  /** `runQuery(...)[0]`, kept when truthy: what before:findOneById pushes. */
  function FirstHit(entries: seq<Value>, query: Value, matches: Matcher): (r: seq<Value>)
    ensures |r| <= 1
    ensures forall i :: FirstMatch(entries, query, matches, i) ==> r == (if Truthy(entries[i]) then [entries[i]] else [])
    ensures (forall i :: 0 <= i < |entries| ==> !matches(query, entries[i])) ==> r == []
  {
    var found := RunQuery(entries, query, matches);
    RunQueryFirst(entries, query, matches);
    if found != [] && Truthy(found[0]) then [found[0]] else []
  }

  /** before:findOneById: only when `result` is still empty, parse the query
      for the id (and version), and push a copy of the first stored entry it
      matches, if that entry is truthy. */
  function BeforeFindOneById(db: Db, rack: string, payload: Value, parseQuery: Value -> Result<Value>, matches: Matcher): (r: Result<Value>)
    ensures IsNil(payload) || IsNil(SafeGet(payload, "result")) ==> r.Err?
    ensures !IsNil(payload) && !IsNil(SafeGet(payload, "result")) && !EmptyResult(SafeGet(payload, "result")) ==>
      r == Ok(SafeGet(payload, "result"))
    ensures !IsNil(payload) && SafeGet(payload, "result") == Arr([]) ==>
      var q := FindOneQuery(SafeGet(payload, "_id"), SafeGet(payload, "_v"));
      && (r.Ok? <==> q.Ok? && parseQuery(q.value).Ok? && rack in db)
      && (r.Ok? ==> r.value == Arr(FirstHit(Values(db[rack]), parseQuery(q.value).value, matches)))
  {
    if IsNil(payload) then Err(TypeError("Cannot destructure property '_id' of " + ToText(payload)))
    else
      var result := SafeGet(payload, "result");
      if IsNil(result) then Err(TypeError("Cannot read properties of " + ToText(result) + " (reading 'length')"))
      else if !EmptyResult(result) then Ok(result)
      else
        match FindOneQuery(SafeGet(payload, "_id"), SafeGet(payload, "_v"))
        case Err(e) => Err(e)
        case Ok(queryInput) =>
          match parseQuery(queryInput)
          case Err(e) => Err(e)
          case Ok(query) =>
            if rack !in db then Err(TypeError("Cannot convert undefined or null to object"))
            else
              var hit := FirstHit(Values(db[rack]), query, matches);
              if hit != [] then Push(result, hit) else Ok(result)
  }

  /** before:list: the entries the parsed query matches, sorted when a truthy
      `sort` is given (`paths` are its dotted leaf paths), pushed onto
      `result` when there is at least one. */
  function BeforeList(db: Db, rack: string, payload: Value, paths: seq<string>, parseQuery: Value -> Result<Value>, matches: Matcher): (r: Result<Value>)
    ensures r.Ok? <==> (!IsNil(payload) && rack in db && parseQuery(SafeGet(payload, "query")).Ok?
      && (RunQuery(Values(db[rack]), parseQuery(SafeGet(payload, "query")).value, matches) != [] ==> SafeGet(payload, "result").Arr?))
    ensures r.Ok? ==>
      var result := SafeGet(payload, "result");
      var hits := RunQuery(Values(db[rack]), parseQuery(SafeGet(payload, "query")).value, matches);
      var sort := SafeGet(payload, "sort");
      && (hits == [] ==> r.value == result)
      && (hits != [] ==>
            && r.value.Arr? && |r.value.items| == |result.items| + |hits|
            && r.value.items[..|result.items|] == result.items
            && multiset(r.value.items[|result.items|..]) == multiset(hits)
            && (!Truthy(sort) ==> r.value.items[|result.items|..] == hits)
            && (Truthy(sort) && paths != [] && (forall i :: 0 <= i < |hits| ==> Paths.Find(hits[i], paths[0]).Str?)
                && ToNumber(ToIndex(Paths.Find(sort, paths[0]))).Some? ==>
                  Sorted(r.value.items[|result.items|..], ByPath(paths[0], sort))))
  {
    var query := SafeGet(payload, "query");
    var result := SafeGet(payload, "result");
    var sort := SafeGet(payload, "sort");
    var _ :- Member(payload, "query");
    var entries :- Entries(db, rack);
    var parsed :- parseQuery(query);
    var hits := RunQuery(Values(entries), parsed, matches);
    var ordered := if Truthy(sort) then SortArray(hits, sort, paths) else hits;
    assert |ordered| == |hits| by {
      assert multiset(ordered) == multiset(hits);
      assert |multiset(ordered)| == |ordered|;
    }
    assert Truthy(sort) && paths != [] && (forall i :: 0 <= i < |hits| ==> Paths.Find(hits[i], paths[0]).Str?)
      && ToNumber(ToIndex(Paths.Find(sort, paths[0]))).Some? ==> Sorted(ordered, ByPath(paths[0], sort)) by {
      if Truthy(sort) && paths != [] && (forall i :: 0 <= i < |hits| ==> Paths.Find(hits[i], paths[0]).Str?)
        && ToNumber(ToIndex(Paths.Find(sort, paths[0]))).Some? {
        SortArrayByStringPath(hits, sort, paths);
      }
    }
    if hits == [] then Ok(result)
    else
      var pushed :- Push(result, ordered);
      assert pushed.items[|result.items|..] == ordered;
      Ok(pushed)
  }
}
