/** The rack of src/lib/duck-rack.js: an array `store` of entries in insertion
    order and an object `storeKey` from `String(_id)` to the same entries, with
    the hook registry of src/lib/hooks.js in front of every write.

    Entries are values.  In the source `store` and `storeKey` hold the same
    objects, so `Object.assign(oldEntry, entry)` in `update` changes both; the
    model writes the merged entry into both places.  The schema engine's
    `parse` of an entry and of a query, and `sift` matching, are parameters;
    `duckModel.getModel(entry)` is the entry itself.
 */
module Rack {
  import opened Results
  import opened JsValues
  import opened Hooks
  import opened QueryTypes
  import opened InMemoryDb

  datatype Rack = Rack(name: string, store: seq<Value>, storeKey: seq<Prop>, hooks: seq<Hook<Value>>)

  /** What an operation returns together with the rack it leaves behind: an
      error thrown after a write keeps that write. */
  datatype Effect<T> = Effect(rack: Rack, result: Result<T>)

  /** `new DuckRack(name)`: a falsy name is refused; otherwise the rack starts
      empty. */
  function NewRack(name: string): (r: Result<Rack>)
    ensures r.Ok? <==> name != ""
    ensures r.Err? ==> r.error == Plain("A name must be provided for a DuckRack")
    ensures r.Ok? ==> r.value.name == name && r.value.store == [] && r.value.storeKey == [] && r.value.hooks == []
  {
    if !Truthy(Str(name)) then Err(Plain("A name must be provided for a DuckRack"))
    else Ok(Rack(name, [], [], []))
  }

  // ---------------------------------------------------------------------------
  // validateEntryVersion
  // ---------------------------------------------------------------------------

  /** `DuckRack.validateEntryVersion(newEntry, oldEntry)`. */
  function ValidateEntryVersion(newEntry: Value, oldEntry: Value): (r: Outcome)
    ensures (r == Fail(Plain("Entry must be an object"))) <==> !newEntry.Obj?
    ensures newEntry.Obj? ==>
      var v := Get(newEntry.props, "_v");
      && (r == Fail(Plain("Invalid entry version")) <==> Has(newEntry.props, "_v") && !(v.Num? || v.NaN?))
      && (r == Fail(Plain("Entry version mismatch")) <==>
            (!Has(newEntry.props, "_v") || v.Num? || v.NaN?)
            && Truthy(oldEntry) && Truthy(v) && GreaterThan(SafeGet(oldEntry, "_v"), v))
    ensures r.Pass? || r == Fail(Plain("Entry must be an object")) || r == Fail(Plain("Invalid entry version"))
      || r == Fail(Plain("Entry version mismatch"))
  {
    if !Truthy(newEntry) || TypeOf(newEntry) != "object" || newEntry.Arr? then Fail(Plain("Entry must be an object"))
    else if Has(newEntry.props, "_v") && TypeOf(Get(newEntry.props, "_v")) != "number" then Fail(Plain("Invalid entry version"))
    else if Truthy(oldEntry) && Truthy(Get(newEntry.props, "_v")) && GreaterThan(SafeGet(oldEntry, "_v"), Get(newEntry.props, "_v")) then
      Fail(Plain("Entry version mismatch"))
    else Pass
  }

  // ---------------------------------------------------------------------------
  // find
  // ---------------------------------------------------------------------------

  /** A query that is not an object (by `typeof`) stands for an id. */
  function NormalizeQuery(q: Value): (r: Value)
    ensures TypeOf(r) == "object"
    ensures TypeOf(q) == "object" ==> r == q
    ensures TypeOf(q) != "object" ==> r.Obj? && Get(r.props, "_id") == Obj([Prop("$eq", q)])
  {
    if TypeOf(q) != "object" then Obj([Prop("_id", Obj([Prop("$eq", q)]))]) else q
  }

  /** The id shorthand is the `_id` field with the query type's scalar cast
      applied, and normalising twice is normalising once. */
  lemma NormalizeIsCast(q: Value)
    ensures IsScalar(q) ==> NormalizeQuery(q) == Obj([Prop("_id", Cast("_id", q))])
    ensures NormalizeQuery(NormalizeQuery(q)) == NormalizeQuery(q)
  {
  }

  /** `DuckRack.find(store, query)`: the stored entries the parsed query
      matches, in store order. */
  function Find(store: seq<Value>, query: Value, parseQuery: Value -> Result<Value>, matches: Matcher): (r: Result<seq<Value>>)
    ensures r.Ok? <==> parseQuery(NormalizeQuery(query)).Ok?
    ensures r.Ok? ==> r.value == Pick(store, Hits(store, parseQuery(NormalizeQuery(query)).value, matches))
  {
    var parsed :- parseQuery(NormalizeQuery(query));
    HitsPickRunQuery(store, parsed, matches);
    Ok(RunQuery(store, parsed, matches))
  }

  /** The positions of the stored entries a query matches, ascending. */
  function Hits(store: seq<Value>, query: Value, matches: Matcher): (idx: seq<nat>)
    ensures forall k :: 0 <= k < |idx| ==> idx[k] < |store| && matches(query, store[idx[k]])
    ensures forall i :: 0 <= i < |store| && matches(query, store[i]) ==> i in idx
    ensures forall k, l :: 0 <= k < l < |idx| ==> idx[k] < idx[l]
    decreases |store|
  {
    if store == [] then []
    else
      var rest := Hits(store[..|store| - 1], query, matches);
      if matches(query, store[|store| - 1]) then rest + [|store| - 1] else rest
  }

  function Pick(store: seq<Value>, idx: seq<nat>): (r: seq<Value>)
    requires forall k :: 0 <= k < |idx| ==> idx[k] < |store|
    ensures |r| == |idx|
    ensures forall k :: 0 <= k < |idx| ==> r[k] == store[idx[k]]
  {
    seq(|idx|, k requires 0 <= k < |idx| => store[idx[k]])
  }

  /** The hit positions pick out exactly what `find` returns. */
  lemma {:induction false} HitsPickRunQuery(store: seq<Value>, query: Value, matches: Matcher)
    ensures Pick(store, Hits(store, query, matches)) == RunQuery(store, query, matches)
    decreases |store|
  {
    if store != [] {
      var init := store[..|store| - 1];
      var last := store[|store| - 1];
      assert init + [last] == store;
      HitsPickRunQuery(init, query, matches);
      RunQuerySnoc(init, last, query, matches);
      HitsSnoc(init, last, query, matches);
      PickExtend(init, last, Hits(init, query, matches));
    }
  }

  lemma HitsSnoc(init: seq<Value>, last: Value, query: Value, matches: Matcher)
    ensures Hits(init + [last], query, matches)
      == if matches(query, last) then Hits(init, query, matches) + [|init|] else Hits(init, query, matches)
  {
    assert (init + [last])[..|init|] == init;
  }

  lemma RunQuerySnoc(init: seq<Value>, last: Value, query: Value, matches: Matcher)
    ensures RunQuery(init + [last], query, matches)
      == RunQuery(init, query, matches) + if matches(query, last) then [last] else []
  {
    RunQueryAppend(init, [last], query, matches);
    assert [last][1..] == [];
  }

  /** Appending an entry leaves the earlier picks alone, and picking its
      position adds it at the end. */
  lemma PickExtend(init: seq<Value>, last: Value, idx: seq<nat>)
    requires forall k :: 0 <= k < |idx| ==> idx[k] < |init|
    ensures Pick(init + [last], idx) == Pick(init, idx)
    ensures Pick(init + [last], idx + [|init|]) == Pick(init, idx) + [last]
  {
    assert Pick(init + [last], idx) == Pick(init, idx);
    assert Pick(init + [last], idx + [|init|]) == Pick(init, idx) + [last];
  }

  lemma {:induction false} RunQueryAppend(a: seq<Value>, b: seq<Value>, query: Value, matches: Matcher)
    ensures RunQuery(a + b, query, matches) == RunQuery(a, query, matches) + RunQuery(b, query, matches)
  {
    if a == [] {
      assert a + b == b;
    } else {
      assert (a + b)[0] == a[0];
      assert (a + b)[1..] == a[1..] + b;
      RunQueryAppend(a[1..], b, query, matches);
    }
  }

  // ---------------------------------------------------------------------------
  // create
  // ---------------------------------------------------------------------------

  /** `entryExists(_id)`: something is stored under `String(_id)`. */
  predicate EntryExists(rack: Rack, id: Value) {
    Has(rack.storeKey, ToText(id))
  }

  /** `create(newEntry)`: run before:create, check the entry and its version,
      refuse an id that is already stored, parse it, store it in both places and
      run after:create on it.  `parse` is the schema's `parse`. */
  function Create(rack: Rack, newEntry: Value, parse: Value -> Result<Value>): (r: Effect<Value>)
    ensures r.rack == rack || Stored(rack, r.rack)
    ensures r.rack.hooks == rack.hooks && r.rack.name == rack.name
    ensures var p := Fire(rack.hooks, "before", "create", if newEntry == Undefined then Obj([]) else newEntry);
      && (p.Err? ==> r == Effect(rack, Err(p.error)))
      && (p.Ok? && !p.value.Obj? ==> r == Effect(rack, Err(Plain("An entry must be provided"))))
      && (p.Ok? && p.value.Obj? && ValidateEntryVersion(p.value, Undefined).Pass?
          && Truthy(Get(p.value.props, "_id")) && EntryExists(rack, Get(p.value.props, "_id")) ==>
            r == Effect(rack, Err(Plain("Entry " + ToText(Get(p.value.props, "_id")) + " already exists"))))
    ensures var p := Fire(rack.hooks, "before", "create", if newEntry == Undefined then Obj([]) else newEntry);
      r.result.Ok? ==>
        && p.Ok? && p.value.Obj? && parse(p.value).Ok?
        && r.rack.store == rack.store + [parse(p.value).value]
        && Stored(rack, r.rack)
        && r.result == Fire(rack.hooks, "after", "create", parse(p.value).value)
    ensures (rack.hooks == [] && newEntry.Obj? && ValidateEntryVersion(newEntry, Undefined).Pass?
      && !(Truthy(Get(newEntry.props, "_id")) && EntryExists(rack, Get(newEntry.props, "_id")))
      && parse(newEntry).Ok? && !IsNil(parse(newEntry).value)) ==>
        r.result == Ok(parse(newEntry).value) && r.rack.store == rack.store + [parse(newEntry).value]
  {
    var input := if newEntry == Undefined then Obj([]) else newEntry;
    match Fire(rack.hooks, "before", "create", input)
    case Err(e) => Effect(rack, Err(e))
    case Ok(p) =>
      if !IsRecord(p) then Effect(rack, Err(Plain("An entry must be provided")))
      else
        match ValidateEntryVersion(p, Undefined)
        case Fail(e) => Effect(rack, Err(e))
        case Pass =>
          var id := Get(p.props, "_id");
          if Truthy(id) && EntryExists(rack, id) then Effect(rack, Err(Plain("Entry " + ToText(id) + " already exists")))
          else
            match parse(p)
            case Err(e) => Effect(rack, Err(e))
            case Ok(entry) =>
              if IsNil(entry) then Effect(rack, Err(TypeError("Cannot read properties of " + ToText(entry) + " (reading '_id')")))
              else
                var rack' := Insert(rack, entry);
                match Fire(rack.hooks, "after", "create", entry)
                case Ok(model) => Effect(rack', Ok(model))
                case Err(e) => Effect(rack', Err(e))
  }

  /** `storeKey[entry._id] = entry; store.push(entry)`. */
  function Insert(rack: Rack, entry: Value): (r: Rack)
    ensures Stored(rack, r) && r.store[|rack.store|] == entry
  {
    var key := ToText(SafeGet(entry, "_id"));
    var storeKey := Put(rack.storeKey, key, entry);
    assert forall k :: Get(storeKey, k) == if k == key then entry else Get(rack.storeKey, k) by {
      forall k ensures Get(storeKey, k) == if k == key then entry else Get(rack.storeKey, k) {
        PutGet(rack.storeKey, key, entry, k);
      }
    }
    rack.(store := rack.store + [entry], storeKey := storeKey)
  }

  /** `after` is `before` with one more entry at the end of `store`, filed in
      `storeKey` under its id; no other key changed. */
  ghost predicate Stored(before: Rack, after: Rack) {
    && |after.store| == |before.store| + 1
    && after.store[..|before.store|] == before.store
    && after.hooks == before.hooks && after.name == before.name
    && var e := after.store[|before.store|];
       var key := ToText(SafeGet(e, "_id"));
       && Get(after.storeKey, key) == e
       && forall k :: k != key ==> Get(after.storeKey, k) == Get(before.storeKey, k)
  }

  // ---------------------------------------------------------------------------
  // list
  // ---------------------------------------------------------------------------

  /** `list(query)`: every stored entry in insertion order without a query,
      the matches of a truthy query otherwise. */
  function List(rack: Rack, query: Value, parseQuery: Value -> Result<Value>, matches: Matcher): (r: Result<seq<Value>>)
    ensures !Truthy(query) ==> r == Ok(rack.store)
    ensures Truthy(query) ==> (r.Ok? <==> parseQuery(NormalizeQuery(query)).Ok?)
    ensures Truthy(query) && r.Ok? ==>
      var q := parseQuery(NormalizeQuery(query)).value;
      && (forall k :: 0 <= k < |r.value| ==> r.value[k] in rack.store && matches(q, r.value[k]))
      && (forall i :: 0 <= i < |rack.store| && matches(q, rack.store[i]) ==> rack.store[i] in r.value)
      && r.value == Pick(rack.store, Hits(rack.store, q, matches))
  {
    if Truthy(query) then Find(rack.store, query, parseQuery, matches) else Ok(rack.store)
  }

  /** A created entry is listed last, after everything listed before. */
  lemma CreateThenList(rack: Rack, newEntry: Value, parse: Value -> Result<Value>, parseQuery: Value -> Result<Value>, matches: Matcher)
    requires Create(rack, newEntry, parse).result.Ok?
    ensures var after := Create(rack, newEntry, parse).rack;
      && List(after, Undefined, parseQuery, matches).Ok?
      && List(after, Undefined, parseQuery, matches).value[..|rack.store|] == List(rack, Undefined, parseQuery, matches).value
      && |List(after, Undefined, parseQuery, matches).value| == |rack.store| + 1
  {
  }

  // ---------------------------------------------------------------------------
  // update
  // ---------------------------------------------------------------------------

  /** The per-entry check of `update`, made for every match before anything is
      written: a truthy patch `_id` must be the entry's, and a truthy patch
      `_v` must be the entry's version.  Reading `_v` of a missing patch
      throws. */
  function CheckPatch(prev: Value, patch: Value): (r: Outcome)
    ensures IsNil(patch) ==> r.Fail?
    ensures !IsNil(patch) ==> (r.Pass? <==>
      && (Truthy(SafeGet(patch, "_id")) ==> StrictEquals(SafeGet(prev, "_id"), SafeGet(patch, "_id")))
      && (Truthy(SafeGet(patch, "_v")) ==> StrictEquals(SafeGet(patch, "_v"), SafeGet(prev, "_v"))))
    ensures r.Fail? && !IsNil(patch) ==> r.error in {Plain("_id's can not be modified"), Plain("Entry version mismatch")}
  {
    if Truthy(patch) && Truthy(SafeGet(patch, "_id")) && !StrictEquals(SafeGet(prev, "_id"), SafeGet(patch, "_id")) then
      Fail(Plain("_id's can not be modified"))
    else
      match Member(patch, "_v")
      case Err(e) => Fail(e)
      case Ok(v) =>
        if Truthy(v) && !StrictEquals(v, SafeGet(prev, "_v")) then Fail(Plain("Entry version mismatch")) else Pass
  }

  /** The checks over all matches, in order: the first failure wins. */
  function CheckAll(store: seq<Value>, idx: seq<nat>, patch: Value): (r: Outcome)
    requires forall k :: 0 <= k < |idx| ==> idx[k] < |store|
    ensures r.Pass? <==> forall k :: 0 <= k < |idx| ==> CheckPatch(store[idx[k]], patch).Pass?
  {
    if idx == [] then Pass
    else
      match CheckPatch(store[idx[0]], patch)
      case Fail(e) => Fail(e)
      case Pass => CheckAll(store, idx[1..], patch)
  }

  /** `Object.assign({}, oldEntry, newEntry, { _v: oldEntry._v + 1 })`. */
  function Merge(prev: Value, patch: Value): Value {
    Obj(Assign(Assign(OwnProps(prev), OwnProps(patch)), [Prop("_v", PlusOne(SafeGet(prev, "_v")))]))
  }

  /** The merged entry is the prev entry overwritten by the patch, with the
      version one past the prev one. */
  lemma MergeReads(prev: Value, patch: Value, k: string)
    requires IsNil(patch) || (patch.Obj? && WellFormed(patch.props))
    ensures Get(Merge(prev, patch).props, k) ==
      if k == "_v" then PlusOne(SafeGet(prev, "_v"))
      else if Has(OwnProps(patch), k) then SafeGet(patch, k)
      else SafeGet(prev, k)
  {
    var inner := Assign(OwnProps(prev), OwnProps(patch));
    assert WellFormed([Prop("_v", PlusOne(SafeGet(prev, "_v")))]);
    AssignGet(inner, [Prop("_v", PlusOne(SafeGet(prev, "_v")))], k);
    if IsNil(patch) {
      assert inner == OwnProps(prev);
    } else {
      AssignGet(OwnProps(prev), OwnProps(patch), k);
    }
  }

  /** The version an update writes passes the version check against the entry
      it replaces. */
  lemma MergePassesVersionCheck(prev: Value, patch: Value)
    requires IsNil(patch) || (patch.Obj? && WellFormed(patch.props))
    requires SafeGet(prev, "_v").Num?
    ensures ValidateEntryVersion(Merge(prev, patch), prev).Pass?
  {
    MergeReads(prev, patch, "_v");
    var n := SafeGet(prev, "_v").n;
    assert Has(Merge(prev, patch).props, "_v") by {
      if !Has(Merge(prev, patch).props, "_v") {
        GetAbsent(Merge(prev, patch).props, "_v");
      }
    }
    assert !GreaterThan(Num(n), Num(n + 1));
  }

  /** `Object.assign(oldEntry, entry)` as seen through the store: the entry
      at position `i` and its `storeKey` slot now hold `merged`. */
  function WriteBack(rack: Rack, i: nat, prev: Value, merged: Value): (r: Rack)
    requires i < |rack.store|
    ensures |r.store| == |rack.store| && r.store[i] == merged
    ensures forall j :: 0 <= j < |rack.store| && j != i ==> r.store[j] == rack.store[j]
    ensures r.hooks == rack.hooks && r.name == rack.name
  {
    var key := ToText(SafeGet(prev, "_id"));
    var storeKey := if Get(rack.storeKey, key) == prev then Put(rack.storeKey, key, merged) else rack.storeKey;
    rack.(store := rack.store[i := merged], storeKey := storeKey)
  }

  /** The update loop over the remaining matches: build the merged entry, run
      before:update on `{ oldEntry, newEntry, entry }`, then write it back.
      A failing hook stops the loop with the earlier writes in place. */
  function ApplyFrom(rack: Rack, idx: seq<nat>, patch: Value): (r: Effect<seq<Value>>)
    requires forall j :: 0 <= j < |idx| ==> idx[j] < |rack.store|
    ensures |r.rack.store| == |rack.store| && r.rack.hooks == rack.hooks && r.rack.name == rack.name
    ensures forall i :: 0 <= i < |rack.store| && i !in idx ==> r.rack.store[i] == rack.store[i]
    ensures r.result.Ok? ==> |r.result.value| == |idx|
    decreases |idx|
  {
    if idx == [] then Effect(rack, Ok([]))
    else
      var prev := rack.store[idx[0]];
      var merged := Merge(prev, patch);
      var payload := Obj([Prop("oldEntry", prev), Prop("newEntry", patch), Prop("entry", merged)]);
      match Fire(rack.hooks, "before", "update", payload)
      case Err(e) => Effect(rack, Err(e))
      case Ok(_) =>
        var rack' := WriteBack(rack, idx[0], prev, merged);
        var rest := ApplyFrom(rack', idx[1..], patch);
        match rest.result
        case Err(e) => Effect(rest.rack, Err(e))
        case Ok(tail) => Effect(rest.rack, Ok([merged] + tail))
  }

  predicate DistinctIndices(idx: seq<nat>) {
    forall a, b :: 0 <= a < b < |idx| ==> idx[a] != idx[b]
  }

  lemma ApplyFromUnfold(rack: Rack, idx: seq<nat>, patch: Value)
    requires forall j :: 0 <= j < |idx| ==> idx[j] < |rack.store|
    requires idx != [] && ApplyFrom(rack, idx, patch).result.Ok?
    ensures var merged := Merge(rack.store[idx[0]], patch);
      var rest := ApplyFrom(WriteBack(rack, idx[0], rack.store[idx[0]], merged), idx[1..], patch);
      rest.result.Ok? && ApplyFrom(rack, idx, patch) == Effect(rest.rack, Ok([merged] + rest.result.value))
  {
  }

  /** Each match ends up replaced by its merge with the patch, and that merge
      is what the loop returns for it. */
  lemma {:induction false} ApplyFromMerges(rack: Rack, idx: seq<nat>, patch: Value)
    requires forall j :: 0 <= j < |idx| ==> idx[j] < |rack.store|
    requires DistinctIndices(idx)
    ensures var r := ApplyFrom(rack, idx, patch);
      r.result.Ok? ==>
        forall j :: 0 <= j < |idx| ==> r.result.value[j] == Merge(rack.store[idx[j]], patch) && r.rack.store[idx[j]] == r.result.value[j]
    decreases |idx|
  {
    var r := ApplyFrom(rack, idx, patch);
    if idx != [] && r.result.Ok? {
      var prev := rack.store[idx[0]];
      var merged := Merge(prev, patch);
      var rack' := WriteBack(rack, idx[0], prev, merged);
      TailDistinct(idx);
      ApplyFromUnfold(rack, idx, patch);
      ApplyFromMerges(rack', idx[1..], patch);
      var rest := ApplyFrom(rack', idx[1..], patch);
      MergesCons(rack.store, rack'.store, idx, patch, rest.result.value, r.rack.store);
    }
  }

  /** One step of ApplyFromMerges, on the stores alone: the head's merge is
      written first, and the tail's writes leave it alone. */
  lemma MergesCons(store: seq<Value>, store': seq<Value>, idx: seq<nat>, patch: Value, tailOut: seq<Value>,
                   final: seq<Value>)
    requires idx != [] && forall j :: 0 <= j < |idx| ==> idx[j] < |store|
    requires idx[0] !in idx[1..]
    requires |store'| == |store| && |final| == |store| && |tailOut| == |idx| - 1
    requires store'[idx[0]] == Merge(store[idx[0]], patch)
    requires forall i :: 0 <= i < |store| && i != idx[0] ==> store'[i] == store[i]
    requires forall t :: 0 <= t < |idx| - 1 ==> tailOut[t] == Merge(store'[idx[1..][t]], patch) && final[idx[1..][t]] == tailOut[t]
    requires forall i :: 0 <= i < |store'| && i !in idx[1..] ==> final[i] == store'[i]
    ensures var out := [Merge(store[idx[0]], patch)] + tailOut;
      forall j :: 0 <= j < |idx| ==> out[j] == Merge(store[idx[j]], patch) && final[idx[j]] == out[j]
  {
    var out := [Merge(store[idx[0]], patch)] + tailOut;
    forall j | 0 <= j < |idx|
      ensures out[j] == Merge(store[idx[j]], patch) && final[idx[j]] == out[j]
    {
      if j > 0 {
        assert idx[j] == idx[1..][j - 1] && idx[j] != idx[0];
      }
    }
  }

  lemma TailDistinct(idx: seq<nat>)
    requires idx != [] && DistinctIndices(idx)
    ensures DistinctIndices(idx[1..]) && idx[0] !in idx[1..]
  {
    var tail := idx[1..];
    forall a, b | 0 <= a < b < |tail| ensures tail[a] != tail[b] {
      assert tail[a] == idx[a + 1] && tail[b] == idx[b + 1];
    }
    forall b | 0 <= b < |tail| ensures tail[b] != idx[0] {
      assert tail[b] == idx[b + 1];
    }
  }

  /** `update(query, newEntry)`: find the matches, check all of them, and only
      then merge the patch into each in turn; the merged entries are returned. */
  function Update(rack: Rack, query: Value, patch: Value, parseQuery: Value -> Result<Value>, matches: Matcher): (r: Effect<seq<Value>>)
    ensures parseQuery(NormalizeQuery(query)).Err? ==> r == Effect(rack, Err(parseQuery(NormalizeQuery(query)).error))
    ensures parseQuery(NormalizeQuery(query)).Ok? ==>
      var idx := Hits(rack.store, parseQuery(NormalizeQuery(query)).value, matches);
      && (CheckAll(rack.store, idx, patch).Fail? ==> r == Effect(rack, Err(CheckAll(rack.store, idx, patch).error)))
      && (r.result.Ok? ==>
            && |r.result.value| == |idx| && |r.rack.store| == |rack.store|
            && (forall j :: 0 <= j < |idx| ==> r.result.value[j] == Merge(rack.store[idx[j]], patch) && r.rack.store[idx[j]] == r.result.value[j])
            && (forall i :: 0 <= i < |rack.store| && i !in idx ==> r.rack.store[i] == rack.store[i]))
    ensures |r.rack.store| == |rack.store|
  {
    match parseQuery(NormalizeQuery(query))
    case Err(e) => Effect(rack, Err(e))
    case Ok(parsed) =>
      var idx := Hits(rack.store, parsed, matches);
      match CheckAll(rack.store, idx, patch)
      case Fail(e) => Effect(rack, Err(e))
      case Pass =>
        ApplyFromMerges(rack, idx, patch);
        ApplyFrom(rack, idx, patch)
  }

  /** An update whose checks fail for any match changes nothing, however many
      other matches pass. */
  lemma UpdateAllOrNothing(rack: Rack, query: Value, patch: Value, parseQuery: Value -> Result<Value>, matches: Matcher, i: nat)
    requires parseQuery(NormalizeQuery(query)).Ok?
    requires i < |rack.store| && matches(parseQuery(NormalizeQuery(query)).value, rack.store[i])
    requires CheckPatch(rack.store[i], patch).Fail?
    ensures Update(rack, query, patch, parseQuery, matches).rack == rack
    ensures Update(rack, query, patch, parseQuery, matches).result.Err?
  {
    var idx := Hits(rack.store, parseQuery(NormalizeQuery(query)).value, matches);
    assert i in idx;
    var k :| 0 <= k < |idx| && idx[k] == i;
    assert !CheckPatch(rack.store[idx[k]], patch).Pass?;
  }

  // ---------------------------------------------------------------------------
  // deleteById and delete
  // ---------------------------------------------------------------------------

  /** The first position whose entry's `_id` is `=== id`. */
  function FirstWithId(store: seq<Value>, id: Value): (r: Option<nat>)
    ensures r.Some? ==> r.value < |store| && StrictEquals(SafeGet(store[r.value], "_id"), id)
    ensures r.Some? ==> forall j :: 0 <= j < r.value ==> !StrictEquals(SafeGet(store[j], "_id"), id)
    ensures r.None? ==> forall j :: 0 <= j < |store| ==> !StrictEquals(SafeGet(store[j], "_id"), id)
  {
    if store == [] then None
    else if StrictEquals(SafeGet(store[0], "_id"), id) then Some(0)
    else match FirstWithId(store[1..], id)
      case None => None
      case Some(i) => Some(i + 1)
  }

  /** `deleteById(_id)`: a truthy `storeKey[_id]` is deleted, and the first
      entry whose `_id` is `_id` leaves `store`; an unknown id changes nothing. */
  function DeleteById(rack: Rack, id: Value): (r: Rack)
    ensures r.hooks == rack.hooks && r.name == rack.name
    ensures Get(r.storeKey, ToText(id)) == if Truthy(Get(rack.storeKey, ToText(id))) then Undefined else Get(rack.storeKey, ToText(id))
    ensures forall k :: k != ToText(id) ==> Get(r.storeKey, k) == Get(rack.storeKey, k)
    ensures match FirstWithId(rack.store, id)
      case None => r.store == rack.store
      case Some(i) => r.store == rack.store[..i] + rack.store[i + 1..]
  {
    var key := ToText(id);
    var storeKey := if Truthy(Get(rack.storeKey, key)) then Remove(rack.storeKey, key) else rack.storeKey;
    RemoveGet(rack.storeKey, key, key);
    assert forall k :: k != key ==> Get(storeKey, k) == Get(rack.storeKey, k) by {
      forall k | k != key ensures Get(storeKey, k) == Get(rack.storeKey, k) {
        RemoveGet(rack.storeKey, key, k);
      }
    }
    match FirstWithId(rack.store, id)
    case None => rack.(storeKey := storeKey)
    case Some(i) => rack.(storeKey := storeKey, store := rack.store[..i] + rack.store[i + 1..])
  }

  /** Deleting a freshly created entry by its id gives back the store as it
      was, when no earlier entry had that id. */
  lemma CreateThenDeleteById(rack: Rack, newEntry: Value, parse: Value -> Result<Value>)
    requires Create(rack, newEntry, parse).result.Ok?
    requires var e := Create(rack, newEntry, parse).rack.store[|rack.store|];
      forall j :: 0 <= j < |rack.store| ==> !StrictEquals(SafeGet(rack.store[j], "_id"), SafeGet(e, "_id"))
    requires !SafeGet(Create(rack, newEntry, parse).rack.store[|rack.store|], "_id").NaN?
    ensures var after := Create(rack, newEntry, parse).rack;
      DeleteById(after, SafeGet(after.store[|rack.store|], "_id")).store == rack.store
  {
    var after := Create(rack, newEntry, parse).rack;
    var id := SafeGet(after.store[|rack.store|], "_id");
    assert after.store == rack.store + [after.store[|rack.store|]];
    var f := FirstWithId(after.store, id);
    assert StrictEquals(SafeGet(after.store[|rack.store|], "_id"), id);
    assert f.Some?;
    assert f.value == |rack.store|;
  }

  /** No two stored entries share an id (and none has `NaN` for one). */
  predicate UniqueIds(store: seq<Value>) {
    && (forall a, b :: 0 <= a < b < |store| ==> !StrictEquals(SafeGet(store[a], "_id"), SafeGet(store[b], "_id")))
    && (forall a :: 0 <= a < |store| ==> !SafeGet(store[a], "_id").NaN?)
  }

  /** What is left after removing position `i0`, position by position. */
  lemma RemoveAt(store: seq<Value>, i0: nat)
    requires i0 < |store|
    ensures var after := store[..i0] + store[i0 + 1..];
      && |after| == |store| - 1
      && (forall j :: 0 <= j < |after| ==> after[j] == store[if j < i0 then j else j + 1])
  {
  }

  /** `deleteById` only takes entries away, and keeps every entry whose id
      is not the one deleted. */
  lemma DeleteByIdKeeps(rack: Rack, id: Value)
    ensures var after := DeleteById(rack, id).store;
      && (forall j :: 0 <= j < |after| ==> after[j] in rack.store)
      && (forall i :: 0 <= i < |rack.store| && !StrictEquals(SafeGet(rack.store[i], "_id"), id) ==> rack.store[i] in after)
      && |after| <= |rack.store|
  {
    var after := DeleteById(rack, id).store;
    var f := FirstWithId(rack.store, id);
    if f.Some? {
      var i0 := f.value;
      assert after == rack.store[..i0] + rack.store[i0 + 1..];
      RemoveAt(rack.store, i0);
      forall i | 0 <= i < |rack.store| && !StrictEquals(SafeGet(rack.store[i], "_id"), id)
        ensures rack.store[i] in after
      {
        var j := if i < i0 then i else i - 1;
        assert after[j] == rack.store[i];
      }
      forall j | 0 <= j < |after| ensures after[j] in rack.store {
        assert after[j] == rack.store[if j < i0 then j else j + 1];
      }
    }
  }

  /** `delete(query)`'s loop over the entries to remove: for each,
      before:remove, deleteById, after:remove; the entries are returned.  A
      failing hook stops with the earlier deletes in place.  Whatever
      happens, entries are only taken away (DeleteEachKeeps and
      DeleteEachUnique say which). */
  function DeleteEach(rack: Rack, entries: seq<Value>): (r: Effect<seq<Value>>)
    ensures r.rack.hooks == rack.hooks && r.rack.name == rack.name
    ensures r.result.Ok? ==> r.result.value == entries
    ensures forall j :: 0 <= j < |r.rack.store| ==> r.rack.store[j] in rack.store
    decreases |entries|
  {
    if entries == [] then Effect(rack, Ok([]))
    else
      var entry := entries[0];
      match Fire(rack.hooks, "before", "remove", entry)
      case Err(e) => Effect(rack, Err(e))
      case Ok(_) =>
        var rack' := DeleteById(rack, SafeGet(entry, "_id"));
        DeleteByIdKeeps(rack, SafeGet(entry, "_id"));
        match Fire(rack.hooks, "after", "remove", entry)
        case Err(e) => Effect(rack', Err(e))
        case Ok(_) =>
          var rest := DeleteEach(rack', entries[1..]);
          match rest.result
          case Err(e) => Effect(rest.rack, Err(e))
          case Ok(_) => Effect(rest.rack, Ok(entries))
  }

  /** Whatever the hooks do, `delete`'s loop keeps every entry (and every
      `storeKey` slot) whose id is not the id of one of the entries given. */
  lemma {:induction false} DeleteEachKeeps(rack: Rack, entries: seq<Value>)
    ensures var r := DeleteEach(rack, entries).rack;
      && (forall i :: 0 <= i < |rack.store| && (forall x :: x in entries ==> !StrictEquals(SafeGet(rack.store[i], "_id"), SafeGet(x, "_id")))
            ==> rack.store[i] in r.store)
      && (forall k :: (forall x :: x in entries ==> k != ToText(SafeGet(x, "_id"))) ==> Get(r.storeKey, k) == Get(rack.storeKey, k))
    decreases |entries|
  {
    if entries != [] {
      var entry := entries[0];
      var r := DeleteEach(rack, entries).rack;
      if Fire(rack.hooks, "before", "remove", entry).Ok? {
        var rack' := DeleteById(rack, SafeGet(entry, "_id"));
        DeleteByIdKeeps(rack, SafeGet(entry, "_id"));
        if Fire(rack.hooks, "after", "remove", entry).Ok? {
          DeleteEachKeeps(rack', entries[1..]);
          assert r == DeleteEach(rack', entries[1..]).rack;
          assert forall x :: x in entries[1..] ==> x in entries;
          forall i | 0 <= i < |rack.store| && (forall x :: x in entries ==> !StrictEquals(SafeGet(rack.store[i], "_id"), SafeGet(x, "_id")))
            ensures rack.store[i] in r.store
          {
            assert !StrictEquals(SafeGet(rack.store[i], "_id"), SafeGet(entry, "_id"));
            var e := rack.store[i];
            var k :| 0 <= k < |rack'.store| && rack'.store[k] == e;
            assert forall x :: x in entries[1..] ==> !StrictEquals(SafeGet(rack'.store[k], "_id"), SafeGet(x, "_id"));
          }
        }
      }
    }
  }

  /** With unique ids, `delete`'s loop keeps them unique, and after a full
      run no stored entry has the id of an entry given. */
  lemma {:induction false} DeleteEachUnique(rack: Rack, entries: seq<Value>)
    requires UniqueIds(rack.store)
    ensures var r := DeleteEach(rack, entries);
      && UniqueIds(r.rack.store)
      && (r.result.Ok? ==>
            forall x, j :: x in entries && 0 <= j < |r.rack.store| ==> !StrictEquals(SafeGet(r.rack.store[j], "_id"), SafeGet(x, "_id")))
    decreases |entries|
  {
    if entries != [] {
      var entry := entries[0];
      if Fire(rack.hooks, "before", "remove", entry).Ok? {
        var rack' := DeleteById(rack, SafeGet(entry, "_id"));
        DeleteByIdRemovesId(rack, SafeGet(entry, "_id"));
        if Fire(rack.hooks, "after", "remove", entry).Ok? {
          DeleteEachUnique(rack', entries[1..]);
          DeleteEachUniqueStep(rack, entries);
        }
      }
    }
  }

  /** One turn of `delete`'s loop when both remove hooks pass. */
  lemma DeleteEachUnfold(rack: Rack, entries: seq<Value>)
    requires entries != []
    requires Fire(rack.hooks, "before", "remove", entries[0]).Ok?
    requires Fire(rack.hooks, "after", "remove", entries[0]).Ok?
    ensures var rest := DeleteEach(DeleteById(rack, SafeGet(entries[0], "_id")), entries[1..]);
      && DeleteEach(rack, entries).rack == rest.rack
      && (DeleteEach(rack, entries).result.Ok? <==> rest.result.Ok?)
  {
  }

  /** The step of DeleteEachUnique: the first entry's id is gone after the
      first deleteById, and the rest of the loop only takes entries away. */
  lemma DeleteEachUniqueStep(rack: Rack, entries: seq<Value>)
    requires entries != []
    requires Fire(rack.hooks, "before", "remove", entries[0]).Ok?
    requires Fire(rack.hooks, "after", "remove", entries[0]).Ok?
    requires var rack' := DeleteById(rack, SafeGet(entries[0], "_id"));
      forall j :: 0 <= j < |rack'.store| ==> !StrictEquals(SafeGet(rack'.store[j], "_id"), SafeGet(entries[0], "_id"))
    requires var r := DeleteEach(DeleteById(rack, SafeGet(entries[0], "_id")), entries[1..]);
      && UniqueIds(r.rack.store)
      && (r.result.Ok? ==>
            forall x, j :: x in entries[1..] && 0 <= j < |r.rack.store| ==> !StrictEquals(SafeGet(r.rack.store[j], "_id"), SafeGet(x, "_id")))
    ensures var r := DeleteEach(rack, entries);
      && UniqueIds(r.rack.store)
      && (r.result.Ok? ==>
            forall x, j :: x in entries && 0 <= j < |r.rack.store| ==> !StrictEquals(SafeGet(r.rack.store[j], "_id"), SafeGet(x, "_id")))
  {
    var entry := entries[0];
    var rack' := DeleteById(rack, SafeGet(entry, "_id"));
    var rest := DeleteEach(rack', entries[1..]);
    var r := DeleteEach(rack, entries);
    DeleteEachUnfold(rack, entries);
    if r.result.Ok? {
      NoIdsLeft(rack'.store, r.rack.store, entries);
    }
  }

  /** The stores of DeleteEachUniqueStep: what is left after the first
      deletion has lost the head's id, and what is left at the end is drawn
      from it and has lost the others' ids. */
  lemma NoIdsLeft(mid: seq<Value>, final: seq<Value>, entries: seq<Value>)
    requires entries != []
    requires forall j :: 0 <= j < |mid| ==> !StrictEquals(SafeGet(mid[j], "_id"), SafeGet(entries[0], "_id"))
    requires forall j :: 0 <= j < |final| ==> final[j] in mid
    requires forall x, j :: x in entries[1..] && 0 <= j < |final| ==> !StrictEquals(SafeGet(final[j], "_id"), SafeGet(x, "_id"))
    ensures forall x, j :: x in entries && 0 <= j < |final| ==> !StrictEquals(SafeGet(final[j], "_id"), SafeGet(x, "_id"))
  {
    forall x, j | x in entries && 0 <= j < |final|
      ensures !StrictEquals(SafeGet(final[j], "_id"), SafeGet(x, "_id"))
    {
      if x == entries[0] {
        var k :| 0 <= k < |mid| && mid[k] == final[j];
      } else {
        assert x in entries[1..];
      }
    }
  }

  /** `delete(query)`: the entries the raw query matches (it is not parsed
      here), removed one by one; the matches are returned in store order.
      DeleteEffect says what is left. */
  function Delete(rack: Rack, query: Value, matches: Matcher): (r: Effect<seq<Value>>)
    ensures r.result.Ok? ==> r.result.value == Pick(rack.store, Hits(rack.store, query, matches))
    ensures forall j :: 0 <= j < |r.rack.store| ==> r.rack.store[j] in rack.store
  {
    HitsPickRunQuery(rack.store, query, matches);
    DeleteEach(rack, RunQuery(rack.store, query, matches))
  }

  /** With unique ids, `delete(query)` keeps every entry the query does not
      match, and a successful one leaves exactly those. */
  lemma DeleteEffect(rack: Rack, query: Value, matches: Matcher)
    requires UniqueIds(rack.store)
    ensures var r := Delete(rack, query, matches);
      && (forall i :: 0 <= i < |rack.store| && !matches(query, rack.store[i]) ==> rack.store[i] in r.rack.store)
      && (r.result.Ok? ==> forall j :: 0 <= j < |r.rack.store| ==> !matches(query, r.rack.store[j]))
  {
    var removed := RunQuery(rack.store, query, matches);
    var r := Delete(rack, query, matches);
    assert r == DeleteEach(rack, removed);
    DeleteEachKeeps(rack, removed);
    DeleteEachUnique(rack, removed);
    HitsPickRunQuery(rack.store, query, matches);
    forall i | 0 <= i < |rack.store| && !matches(query, rack.store[i])
      ensures rack.store[i] in r.rack.store
    {
      forall x | x in removed ensures !StrictEquals(SafeGet(rack.store[i], "_id"), SafeGet(x, "_id")) {
        var j :| 0 <= j < |removed| && removed[j] == x;
        var m := Hits(rack.store, query, matches)[j];
        assert rack.store[m] == x && matches(query, x);
        assert m != i;
      }
    }
    if r.result.Ok? {
      forall j | 0 <= j < |r.rack.store| ensures !matches(query, r.rack.store[j]) {
        var e := r.rack.store[j];
        if matches(query, e) {
          RunQueryComplete(rack.store, query, matches, e);
          assert false;
        }
      }
    }
  }

  /** With unique ids, after `deleteById(id)` no stored entry has that id, and
      the ids stay unique. */
  lemma DeleteByIdRemovesId(rack: Rack, id: Value)
    requires UniqueIds(rack.store)
    ensures var after := DeleteById(rack, id).store;
      && (forall j :: 0 <= j < |after| ==> !StrictEquals(SafeGet(after[j], "_id"), id))
      && UniqueIds(after)
      && (forall j :: 0 <= j < |after| ==> after[j] in rack.store)
  {
    DeleteByIdKeeps(rack, id);
    match FirstWithId(rack.store, id)
    case None =>
    case Some(i) =>
      RemoveIdAt(rack.store, i, id);
  }

  /** Removing the one entry with id `id` from a store with unique ids leaves
      no entry with that id, and the ids stay unique. */
  lemma RemoveIdAt(store: seq<Value>, i: nat, id: Value)
    requires UniqueIds(store)
    requires i < |store| && StrictEquals(SafeGet(store[i], "_id"), id)
    ensures var after := store[..i] + store[i + 1..];
      && (forall j :: 0 <= j < |after| ==> !StrictEquals(SafeGet(after[j], "_id"), id))
      && UniqueIds(after)
  {
    var after := store[..i] + store[i + 1..];
    RemoveAt(store, i);
    forall j | 0 <= j < |after|
      ensures !StrictEquals(SafeGet(after[j], "_id"), id)
    {
      var o := if j < i then j else j + 1;
      assert after[j] == store[o];
      if o < i {
        assert !StrictEquals(SafeGet(store[o], "_id"), SafeGet(store[i], "_id"));
      } else {
        assert !StrictEquals(SafeGet(store[i], "_id"), SafeGet(store[o], "_id"));
      }
    }
    forall a, b | 0 <= a < b < |after|
      ensures !StrictEquals(SafeGet(after[a], "_id"), SafeGet(after[b], "_id"))
    {
      var oa := if a < i then a else a + 1;
      var ob := if b < i then b else b + 1;
      assert after[a] == store[oa] && after[b] == store[ob];
      assert oa < ob;
    }
    forall a | 0 <= a < |after| ensures !SafeGet(after[a], "_id").NaN? {
      assert after[a] == store[if a < i then a else a + 1];
    }
  }

  /** Without hooks, `delete(query)` leaves no stored entry with the id of any
      entry it removed, when stored ids are unique. */
  lemma {:induction false} DeleteEachRemoves(rack: Rack, entries: seq<Value>)
    requires rack.hooks == []
    requires UniqueIds(rack.store)
    ensures var after := DeleteEach(rack, entries).rack.store;
      && UniqueIds(after)
      && (forall j :: 0 <= j < |after| ==> after[j] in rack.store)
      && forall e, j :: e in entries && 0 <= j < |after| ==> !StrictEquals(SafeGet(after[j], "_id"), SafeGet(e, "_id"))
    decreases |entries|
  {
    if entries != [] {
      var entry := entries[0];
      assert Matched(rack.hooks, "before", "remove") == [];
      assert Matched(rack.hooks, "after", "remove") == [];
      var rack' := DeleteById(rack, SafeGet(entry, "_id"));
      DeleteByIdRemovesId(rack, SafeGet(entry, "_id"));
      DeleteEachRemoves(rack', entries[1..]);
      var after := DeleteEach(rack, entries).rack.store;
      assert after == DeleteEach(rack', entries[1..]).rack.store;
      forall e, j | e in entries && 0 <= j < |after|
        ensures !StrictEquals(SafeGet(after[j], "_id"), SafeGet(e, "_id"))
      {
        if e != entry {
          assert e in entries[1..];
        } else {
          assert after[j] in rack'.store;
          var k :| 0 <= k < |rack'.store| && rack'.store[k] == after[j];
          assert !StrictEquals(SafeGet(rack'.store[k], "_id"), SafeGet(entry, "_id"));
        }
      }
    }
  }
}
