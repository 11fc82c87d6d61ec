/** `DuckRack.update` of the later bundle (dist/duck-storage.js).  Unlike the
    rack of src/lib/duck-rack.js it keeps no entries itself: `find` and the
    plugins' hooks do the reading and writing, and `update` returns what the
    update hooks push into their `result` array.

    The matches `find` returns are an input.  Schema parsing is a parameter,
    and so is deep-object-diff's `detailedDiff`, which `objectHasBeenModified`
    scans; a deep copy is value semantics.
    An id guard built on a number or `undefined` makes a fresh ObjectID from
    the clock; the id that would come out is a parameter.  The `update` event
    has no listeners in this model.
 */
module DistRack {
  import opened Results
  import opened JsValues
  import Hooks
  import ObjectId
  import opened DistHooks

  /** `Object.assign(target, { [key]: v })`: `undefined` and `null` throw; an
      object gets the property; a primitive is wrapped in a temporary object,
      so `target` itself is unchanged. */
  function AssignProp(target: Value, key: string, v: Value): (r: Result<Value>)
    ensures r.Err? <==> IsNil(target)
    ensures r.Ok? && target.Obj? ==> r.value.Obj? && Get(r.value.props, key) == v
    ensures r.Ok? && target.Obj? ==> forall k :: k != key ==> Get(r.value.props, k) == Get(target.props, k)
    ensures r.Ok? && !target.Obj? ==> r.value == target
    ensures r.Ok? ==> !IsNil(r.value)
  {
    if IsNil(target) then Err(TypeError("Cannot convert undefined or null to object"))
    else if target.Obj? then
      assert forall k :: Get(Put(target.props, key, v), k) == if k == key then v else Get(target.props, k) by {
        forall k ensures Get(Put(target.props, key, v), k) == if k == key then v else Get(target.props, k) {
          PutGet(target.props, key, v, k);
        }
      }
      Ok(Obj(Put(target.props, key, v)))
    else Ok(target)
  }

  /** `target[key] = v` in strict mode: `undefined` and `null` throw, and so
      does any other primitive, which cannot hold a property. */
  function SetProp(target: Value, key: string, v: Value): (r: Result<Value>)
    ensures r.Err? <==> !target.Obj? && !target.Arr?
    ensures r.Ok? && target.Obj? ==> r.value.Obj? && Get(r.value.props, key) == v
    ensures r.Ok? && target.Obj? ==> forall k :: k != key ==> Get(r.value.props, k) == Get(target.props, k)
  {
    match target
    case Undefined => Err(TypeError("Cannot set properties of undefined (setting '" + key + "')"))
    case Null => Err(TypeError("Cannot set properties of null (setting '" + key + "')"))
    case Obj(props) =>
      assert forall k :: Get(Put(props, key, v), k) == if k == key then v else Get(props, k) by {
        forall k ensures Get(Put(props, key, v), k) == if k == key then v else Get(props, k) {
          PutGet(props, key, v, k);
        }
      }
      Ok(Obj(Put(props, key, v)))
    case Arr(_) => Ok(target)
    case _ => Err(TypeError("Cannot create property '" + key + "' on " + TypeOf(target) + " '" + ToText(target) + "'"))
  }

  // ---------------------------------------------------------------------------
  // The guard run over every match before anything is written
  // ---------------------------------------------------------------------------

  /** `objectid(oldId).equals(newId)`.  A string must be a 12-character or a
      24-hex-character id or the constructor throws; a number or `undefined`
      makes the fresh id `generated`; a value tagged `_bsontype: "ObjectID"`
      is returned as is, and a plain value has no `equals`; anything else
      builds an id without bytes, whose `str` getter throws once `newId` is
      truthy. */
  function SameId(oldId: Value, newId: Value, generated: ObjectId.ObjectIdValue): (r: Result<bool>)
    ensures oldId.Str? && ObjectId.IsHex24(oldId.s) ==> r == Ok(Truthy(newId) && ObjectId.Lower(oldId.s) == ToText(newId))
    ensures oldId.Str? && |oldId.s| != 12 && !ObjectId.IsHex24(oldId.s) ==> r.Err?
    ensures r.Ok? && r.value ==> Truthy(newId)
  {
    assert !oldId.Obj? ==> SafeGet(oldId, "_bsontype") == Undefined by {
      if !oldId.Obj? {
        SafeGetName(oldId, "_bsontype");
      }
    }
    if Truthy(oldId) && SafeGet(oldId, "_bsontype") == Str("ObjectID") then
      Err(TypeError("objectid(...).equals is not a function"))
    else if oldId.Str? then
      if ObjectId.IsHex24(oldId.s) then
        ObjectId.HexRoundTrip(oldId.s);
        Ok(ObjectId.EqualsValue(ObjectId.FromString(oldId.s).value, newId))
      else
        var id :- ObjectId.FromString(oldId.s);
        Ok(ObjectId.EqualsValue(id, newId))
    else if oldId.Num? || oldId.NaN? || oldId.Undefined? then
      Ok(ObjectId.EqualsValue(generated, newId))
    else if !Truthy(newId) then Ok(false)
    else Err(TypeError("Cannot read properties of undefined (reading 'map')"))
  }

  /** The check `update` maps over the matches: a truthy patch `_id` must
      equal the match's id (`_id's cannot be modified`), and a truthy patch
      `_v` must be the match's `_v` (`Entry version mismatch`). */
  function CheckMatch(prev: Value, patch: Value, generated: ObjectId.ObjectIdValue): (r: Outcome)
    ensures !Truthy(patch) ==> r.Pass?
    ensures !IsNil(prev) && Truthy(patch) && Truthy(SafeGet(patch, "_id")) ==>
      match SameId(SafeGet(prev, "_id"), SafeGet(patch, "_id"), generated)
      case Err(e) => r == Fail(e)
      case Ok(same) =>
        && (!same ==> r == Fail(Plain("_id's cannot be modified")))
        && (same ==> VersionChecked(prev, patch, r))
    ensures !IsNil(prev) && Truthy(patch) && !Truthy(SafeGet(patch, "_id")) ==> VersionChecked(prev, patch, r)
    ensures IsNil(prev) && Truthy(patch) && (Truthy(SafeGet(patch, "_id")) || Truthy(SafeGet(patch, "_v"))) ==>
      r.Fail? && r.error.Thrown? && r.error.name == "TypeError"
    ensures r.Fail? ==> Truthy(patch)
  {
    var newId := SafeGet(patch, "_id");
    var newV := SafeGet(patch, "_v");
    var idCheck :=
      if Truthy(patch) && Truthy(newId) then
        match Member(prev, "_id")
        case Err(e) => Fail(e)
        case Ok(oldId) =>
          match SameId(oldId, newId, generated)
          case Err(e) => Fail(e)
          case Ok(same) => if same then Pass else Fail(Plain("_id's cannot be modified"))
      else Pass;
    if idCheck.Fail? then idCheck
    else if Truthy(patch) && Truthy(newV) then
      match Member(prev, "_v")
      case Err(e) => Fail(e)
      case Ok(oldV) => if !StrictEquals(newV, oldV) then Fail(Plain("Entry version mismatch")) else Pass
    else Pass
  }

  /** The version half of the check on a match whose id passed: a truthy patch
      `_v` that is not `===` the match's `_v` fails with the version error,
      and anything else passes. */
  predicate VersionChecked(prev: Value, patch: Value, r: Outcome) {
    && (r.Pass? <==> !Truthy(SafeGet(patch, "_v")) || StrictEquals(SafeGet(patch, "_v"), SafeGet(prev, "_v")))
    && (r.Fail? ==> r == Fail(Plain("Entry version mismatch")))
  }

  /** The first match that fails the check, in `find` order. */
  function CheckAll(found: seq<Value>, patch: Value, generated: ObjectId.ObjectIdValue): (r: Outcome)
    ensures r.Pass? <==> forall i :: 0 <= i < |found| ==> CheckMatch(found[i], patch, generated).Pass?
    ensures r.Fail? ==> exists i :: (0 <= i < |found| && CheckMatch(found[i], patch, generated) == r
      && forall j :: 0 <= j < i ==> CheckMatch(found[j], patch, generated).Pass?)
  {
    if found == [] then Pass
    else
      var first := CheckMatch(found[0], patch, generated);
      var rest := CheckAll(found[1..], patch, generated);
      assert forall i :: 1 <= i < |found| ==> found[i] == found[1..][i - 1];
      if first.Fail? then first
      else
        assert rest.Fail? ==> exists i :: (0 <= i < |found| && CheckMatch(found[i], patch, generated) == rest
          && forall j :: 0 <= j < i ==> CheckMatch(found[j], patch, generated).Pass?) by {
          if rest.Fail? {
            var k :| 0 <= k < |found[1..]| && CheckMatch(found[1..][k], patch, generated) == rest
              && forall j :: 0 <= j < k ==> CheckMatch(found[1..][j], patch, generated).Pass?;
            assert found[k + 1] == found[1..][k];
            assert forall j :: 0 <= j < k + 1 ==> CheckMatch(found[j], patch, generated).Pass? by {
              forall j | 0 <= j < k + 1 ensures CheckMatch(found[j], patch, generated).Pass? {
                if j > 0 { assert found[j] == found[1..][j - 1]; }
              }
            }
          }
        }
        rest
  }

  // ---------------------------------------------------------------------------
  // objectHasBeenModified
  // ---------------------------------------------------------------------------

  /** `Object.keys(v).map(k => v[k])`: the values a `forEach` over the keys
      visits; nil throws. */
  function KeyedValues(v: Value): (r: Result<seq<Value>>)
    ensures r.Err? <==> IsNil(v)
    ensures r.Ok? ==> (|r.value| == |ObjectKeys(v).value|
      && forall i :: 0 <= i < |r.value| ==> r.value[i] == SafeGet(v, ObjectKeys(v).value[i]))
  {
    var keys :- ObjectKeys(v);
    Ok(seq(|keys|, i requires 0 <= i < |keys| => SafeGet(v, keys[i])))
  }

  /** A changed value the scan counts: one with at least one key. */
  predicate Keyed(v: Value) {
    !IsNil(v) && |ObjectKeys(v).value| > 0
  }

  /** A changed value the scan passes over: a number, a boolean, an empty
      string, array or object. */
  predicate Quiet(v: Value) {
    !IsNil(v) && |ObjectKeys(v).value| == 0
  }

  /** The inner `forEach` over one group of the diff: once `modified` is set
      the callback returns at once; until then it sets `modified` to whether
      the changed value has any key, and throws on a nil one. */
  function ScanValues(vals: seq<Value>, modified: bool): (r: Result<bool>)
    ensures modified ==> r == Ok(true)
    ensures !modified ==>
      && (r == Ok(false) <==> forall j :: 0 <= j < |vals| ==> Quiet(vals[j]))
      && (r == Ok(true) <==> FirstKeyed(vals))
    decreases |vals|
  {
    if vals == [] then Ok(modified)
    else if modified then ScanValues(vals[1..], true)
    else
      match ObjectKeys(vals[0])
      case Err(e) => Err(e)
      case Ok(keys) =>
        var r := ScanValues(vals[1..], |keys| > 0);
        ScanShift(vals);
        r
  }

  /** The scan's facts about `vals[1..]`, moved onto `vals`. */
  lemma ScanShift(vals: seq<Value>)
    requires vals != []
    ensures (forall j :: 0 <= j < |vals| ==> Quiet(vals[j])) <==>
      Quiet(vals[0]) && forall j :: 0 <= j < |vals[1..]| ==> Quiet(vals[1..][j])
    ensures Quiet(vals[0]) ==>
      (FirstKeyed(vals) <==> FirstKeyed(vals[1..]))
    ensures Keyed(vals[0]) ==> FirstKeyed(vals)
  {
    assert forall j :: 1 <= j < |vals| ==> vals[j] == vals[1..][j - 1];
    if Quiet(vals[0]) {
      if FirstKeyed(vals[1..]) {
        FirstKeyedCons(vals);
      }
      if FirstKeyed(vals) {
        FirstKeyedUncons(vals);
      }
    }
  }

  /** Some changed value has keys, and every one before it is quiet. */
  predicate FirstKeyed(vals: seq<Value>) {
    exists i :: 0 <= i < |vals| && Keyed(vals[i]) && forall j :: 0 <= j < i ==> Quiet(vals[j])
  }

  lemma FirstKeyedCons(vals: seq<Value>)
    requires vals != [] && Quiet(vals[0]) && FirstKeyed(vals[1..])
    ensures FirstKeyed(vals)
  {
    var i :| 0 <= i < |vals[1..]| && Keyed(vals[1..][i]) && forall j :: 0 <= j < i ==> Quiet(vals[1..][j]);
    assert Keyed(vals[i + 1]);
    forall j | 0 <= j < i + 1 ensures Quiet(vals[j]) {
      if j > 0 { assert vals[j] == vals[1..][j - 1]; }
    }
  }

  lemma FirstKeyedUncons(vals: seq<Value>)
    requires vals != [] && Quiet(vals[0]) && FirstKeyed(vals)
    ensures FirstKeyed(vals[1..])
  {
    var i :| 0 <= i < |vals| && Keyed(vals[i]) && forall j :: 0 <= j < i ==> Quiet(vals[j]);
    assert i > 0;
    assert Keyed(vals[1..][i - 1]);
    forall j | 0 <= j < i - 1 ensures Quiet(vals[1..][j]) {
      assert vals[1..][j] == vals[j + 1];
    }
  }

  /** The outer `forEach` over the groups of the diff (`added`, `deleted`,
      `updated`): `Object.keys` of every group is taken, whether or not
      `modified` is set already. */
  function ScanGroups(groups: seq<Value>, modified: bool): (r: Result<bool>)
    ensures modified && r.Ok? ==> r.value
    decreases |groups|
  {
    if groups == [] then Ok(modified)
    else
      var vals :- KeyedValues(groups[0]);
      var m :- ScanValues(vals, modified);
      ScanGroups(groups[1..], m)
  }

  /** The changed values of every group, in key order, when no group is nil. */
  function Leaves(groups: seq<Value>): (r: Result<seq<Value>>)
    ensures r.Err? <==> exists i :: 0 <= i < |groups| && IsNil(groups[i])
    decreases |groups|
  {
    if groups == [] then Ok([])
    else
      assert forall i :: 1 <= i < |groups| ==> groups[i] == groups[1..][i - 1];
      var first :- KeyedValues(groups[0]);
      var rest :- Leaves(groups[1..]);
      Ok(first + rest)
  }

  /** `objectHasBeenModified(objA, objB)` as written, given the detailed diff
      of the two: `modified` is whether the first changed value it reaches
      has any key. */
  function ModifiedAsWritten(diff: Value): (r: Result<bool>)
    ensures IsNil(diff) ==> r.Err?
  {
    var groups :- KeyedValues(diff);
    ScanGroups(groups, false)
  }

  /** Scanning the values of `a + b` is scanning `a`, then `b` from where it
      left `modified`. */
  lemma {:induction false} ScanValuesAppend(a: seq<Value>, b: seq<Value>, modified: bool)
    ensures ScanValues(a + b, modified) ==
      match ScanValues(a, modified)
      case Err(e) => Err(e)
      case Ok(m) => ScanValues(b, m)
    decreases |a|
  {
    if a == [] {
      assert a + b == b;
    } else {
      assert (a + b)[1..] == a[1..] + b;
      assert (a + b)[0] == a[0];
      if modified {
        ScanValuesAppend(a[1..], b, true);
      } else if ObjectKeys(a[0]).Ok? {
        ScanValuesAppend(a[1..], b, |ObjectKeys(a[0]).value| > 0);
      }
    }
  }

  /** The two nested loops read as one scan over the changed values. */
  lemma {:induction false} ScanGroupsLeaves(groups: seq<Value>, modified: bool)
    requires Leaves(groups).Ok?
    ensures ScanGroups(groups, modified) == ScanValues(Leaves(groups).value, modified)
    decreases |groups|
  {
    if groups != [] {
      var vals := KeyedValues(groups[0]).value;
      var rest := Leaves(groups[1..]).value;
      assert Leaves(groups).value == vals + rest;
      ScanValuesAppend(vals, rest, modified);
      match ScanValues(vals, modified)
      case Err(_) =>
      case Ok(m) => ScanGroupsLeaves(groups[1..], m);
    }
  }

  /** What `objectHasBeenModified` decides, given a diff whose groups are
      objects: `true` exactly when some changed value has a key and no nil
      one comes before it, `false` exactly when every changed value is keyless
      (a number, a boolean, an empty string, array or object), and a throw
      otherwise. */
  lemma ModifiedAsWrittenMeaning(diff: Value)
    requires KeyedValues(diff).Ok? && Leaves(KeyedValues(diff).value).Ok?
    ensures var vals := Leaves(KeyedValues(diff).value).value;
      && (ModifiedAsWritten(diff) == Ok(false) <==> forall j :: 0 <= j < |vals| ==> Quiet(vals[j]))
      && (ModifiedAsWritten(diff) == Ok(true) <==>
            exists i :: 0 <= i < |vals| && Keyed(vals[i]) && forall j :: 0 <= j < i ==> Quiet(vals[j]))
  {
    ScanGroupsLeaves(KeyedValues(diff).value, false);
  }

  /** deep-object-diff's `detailedDiff` of `{ age: 30 }` and `{ age: 31 }`. */
  function AgeUpdatedDiff(): Value {
    Obj([Prop("added", Obj([])), Prop("deleted", Obj([])), Prop("updated", Obj([Prop("age", Num(31))]))])
  }

  /** `detailedDiff` of `{ age: 30 }` and `{}`: a deleted key is listed with the
      value `undefined`. */
  function AgeDeletedDiff(): Value {
    Obj([Prop("added", Obj([])), Prop("deleted", Obj([Prop("age", Undefined)])), Prop("updated", Obj([]))])
  }

  /** The groups of `AgeUpdatedDiff`, in key order. */
  lemma AgeUpdatedGroups()
    ensures KeyedValues(AgeUpdatedDiff()) == Ok([Obj([]), Obj([]), Obj([Prop("age", Num(31))])])
  {
    var u := AgeUpdatedDiff();
    assert KeysOf(u.props) == ["added", "deleted", "updated"];
    var gu := KeyedValues(u).value;
    assert |gu| == 3;
    assert gu[0] == Obj([]) && gu[1] == Obj([]) && gu[2] == Obj([Prop("age", Num(31))]);
    assert gu == [Obj([]), Obj([]), Obj([Prop("age", Num(31))])];
  }

  /** The one changed value of `AgeUpdatedDiff` is the number 31. */
  lemma AgeUpdatedLeaves()
    ensures Leaves([Obj([]), Obj([]), Obj([Prop("age", Num(31))])]) == Ok([Num(31)])
  {
    var g2 := Obj([Prop("age", Num(31))]);
    var e := Obj([]);
    assert KeysOf(g2.props) == ["age"];
    assert KeyedValues(g2).Ok? && |KeyedValues(g2).value| == 1;
    assert KeyedValues(g2).value == [Num(31)];
    assert KeyedValues(e) == Ok([]);
    assert Leaves([g2]) == Ok([Num(31)]) by {
      assert [g2][1..] == [];
      assert [Num(31)] + [] == [Num(31)];
    }
    assert Leaves([e, g2]) == Ok([Num(31)]) by {
      assert [e, g2][1..] == [g2];
      assert [] + [Num(31)] == [Num(31)];
    }
    assert [e, e, g2][1..] == [e, g2];
    assert [] + [Num(31)] == [Num(31)];
  }

  /** As written, a change to a number is no modification at all. */
  lemma ModifiedAsWrittenMissesScalars()
    ensures ModifiedAsWritten(AgeUpdatedDiff()) == Ok(false)
  {
    AgeUpdatedGroups();
    AgeUpdatedLeaves();
    ModifiedAsWrittenMeaning(AgeUpdatedDiff());
    assert Quiet(Num(31));
  }

  /** As written, a deleted property makes `Object.keys(undefined)` throw. */
  lemma ModifiedAsWrittenThrowsOnDelete()
    ensures ModifiedAsWritten(AgeDeletedDiff()) == Err(TypeError("Cannot convert undefined or null to object"))
  {
    var d := AgeDeletedDiff();
    assert KeysOf(d.props) == ["added", "deleted", "updated"];
    var gd := KeyedValues(d).value;
    var g1 := Obj([Prop("age", Undefined)]);
    assert gd[0] == Obj([]) && gd[1] == g1;
    assert KeyedValues(Obj([])) == Ok([]);
    assert ScanValues([], false) == Ok(false);
    assert KeysOf(g1.props) == ["age"];
    assert KeyedValues(g1).Ok? && |KeyedValues(g1).value| == 1;
    assert KeyedValues(g1).value == [Undefined];
    assert ScanValues([Undefined], false) == Err(TypeError("Cannot convert undefined or null to object"));
    assert gd[1..][0] == g1;
  }

  /** Whether the parsed entry counts as modified under `reading`: as written
      the scan of `detailedDiff(oldEntry, entry)`, as corrected structural
      inequality. */
  function Modified(reading: Reading, detailedDiff: (Value, Value) -> Value, prev: Value, entry: Value): (r: Result<bool>)
    ensures reading.Corrected? ==> r == Ok(entry != prev)
    ensures reading.AsWritten? ==> r == ModifiedAsWritten(detailedDiff(prev, entry))
  {
    match reading
    case AsWritten => ModifiedAsWritten(detailedDiff(prev, entry))
    case Corrected => Ok(entry != prev)
  }

  // ---------------------------------------------------------------------------
  // One match
  // ---------------------------------------------------------------------------

  /** `Object.assign(cloneDeep(oldEntry), newEntry)`. */
  function Compose(prev: Value, patch: Value): (r: Result<Value>)
    ensures r.Err? <==> IsNil(prev)
    ensures r.Ok? ==> r.value.Obj?
    ensures r.Ok? && WellFormed(OwnProps(patch)) ==>
      forall k :: Get(r.value.props, k) == (if Has(OwnProps(patch), k) then Get(OwnProps(patch), k) else Get(OwnProps(prev), k))
  {
    if IsNil(prev) then Err(TypeError("Cannot convert undefined or null to object"))
    else
      var props := Assign(OwnProps(prev), OwnProps(patch));
      assert WellFormed(OwnProps(patch)) ==>
        forall k :: Get(props, k) == (if Has(OwnProps(patch), k) then Get(OwnProps(patch), k) else Get(OwnProps(prev), k)) by {
        if WellFormed(OwnProps(patch)) {
          forall k ensures Get(props, k) == if Has(OwnProps(patch), k) then Get(OwnProps(patch), k) else Get(OwnProps(prev), k) {
            AssignGet(OwnProps(prev), OwnProps(patch), k);
          }
        }
      }
      Ok(Obj(props))
  }

  /** The hook payload `{ oldEntry, newEntry, entry, state }` (its `result`
      array is kept beside it). */
  function Payload(prev: Value, patch: Value, entry: Value, state: Value): (p: Value)
    ensures p.Obj?
    ensures SafeGet(p, "oldEntry") == prev
    ensures SafeGet(p, "newEntry") == patch
    ensures SafeGet(p, "entry") == entry
    ensures SafeGet(p, "state") == state
  {
    var props := [Prop("oldEntry", prev), Prop("newEntry", patch), Prop("entry", entry), Prop("state", state)];
    assert "oldEntry"[0] != "newEntry"[0] && "oldEntry"[0] != "entry"[0] && "oldEntry"[0] != "state"[0];
    assert "newEntry"[0] != "entry"[0] && "newEntry"[0] != "state"[0] && "entry"[0] != "state"[0];
    var t1 := [Prop("newEntry", patch), Prop("entry", entry), Prop("state", state)];
    var t2 := [Prop("entry", entry), Prop("state", state)];
    var t3 := [Prop("state", state)];
    assert props[1..] == t1 && t1[1..] == t2 && t2[1..] == t3 && t3[1..] == [];
    assert Get(t3, "state") == state;
    assert Get(t2, "entry") == entry && Get(t2, "state") == state;
    assert Get(t1, "newEntry") == patch && Get(t1, "entry") == entry && Get(t1, "state") == state;
    Obj(props)
  }

  /** What one match comes to before any hook runs: either the parsed entry
      is the match itself, or the bumped patch and the payload of the update
      hooks. */
  datatype Prepared =
    | Unchanged(state: Value)
    | Changed(state: Value, patch: Value, payload: Value)

  /** `Object.assign(state, { oldEntry })`, compose, parse, and, when the
      parsed entry counts as modified, `newEntry._v = entry._v = oldEntry._v
      + 1`. */
  function Prepare(reading: Reading, detailedDiff: (Value, Value) -> Value, prev: Value, patch: Value, state: Value,
                   parse: Value -> Result<Value>): (r: Result<Prepared>)
    ensures r.Ok? ==> !IsNil(prev) && !IsNil(r.value.state)
    ensures r.Ok? && state.Obj? ==>
      && r.value.state.Obj? && Get(r.value.state.props, "oldEntry") == prev
      && forall k :: k != "oldEntry" ==> Get(r.value.state.props, k) == Get(state.props, k)
    ensures r.Ok? && r.value.Changed? ==> r.value.payload.Obj? && !IsNil(SafeGet(r.value.payload, "entry"))
    ensures r.Ok? && r.value.Unchanged? <==>
      && !IsNil(state) && Compose(prev, patch).Ok? && parse(Compose(prev, patch).value).Ok?
      && Modified(reading, detailedDiff, prev, parse(Compose(prev, patch).value).value) == Ok(false)
    ensures reading.Corrected? ==>
      (r.Ok? && r.value.Unchanged? <==> !IsNil(state) && Compose(prev, patch).Ok? && parse(Compose(prev, patch).value) == Ok(prev))
    ensures r.Ok? && r.value.Changed? ==>
      && SafeGet(r.value.payload, "oldEntry") == prev
      && SafeGet(r.value.payload, "newEntry") == r.value.patch
      && SafeGet(r.value.payload, "state") == r.value.state
      && (patch.Obj? ==> r.value.patch.Obj? && Get(r.value.patch.props, "_v") == PlusOne(SafeGet(prev, "_v")))
      && (SafeGet(r.value.payload, "entry").Obj? ==> Get(SafeGet(r.value.payload, "entry").props, "_v") == PlusOne(SafeGet(prev, "_v")))
  {
    var state' :- AssignProp(state, "oldEntry", prev);
    var composed :- Compose(prev, patch);
    var entry :- parse(composed);
    var modified :- Modified(reading, detailedDiff, prev, entry);
    if !modified then Ok(Unchanged(state'))
    else Bump(prev, patch, entry, state')
  }

  /** The changed branch of Prepare: `newEntry._v = entry._v = oldEntry._v
      + 1`, and the hook payload built from them. */
  function Bump(prev: Value, patch: Value, entry: Value, state: Value): (r: Result<Prepared>)
    ensures r.Ok? ==> r.value.Changed? && r.value.state == state
    ensures r.Ok? ==> r.value.payload.Obj? && !IsNil(SafeGet(r.value.payload, "entry"))
    ensures r.Ok? ==>
      && SafeGet(r.value.payload, "oldEntry") == prev
      && SafeGet(r.value.payload, "newEntry") == r.value.patch
      && SafeGet(r.value.payload, "state") == state
      && (patch.Obj? ==> r.value.patch.Obj? && Get(r.value.patch.props, "_v") == PlusOne(SafeGet(prev, "_v")))
      && (SafeGet(r.value.payload, "entry").Obj? ==> Get(SafeGet(r.value.payload, "entry").props, "_v") == PlusOne(SafeGet(prev, "_v")))
  {
    var v := PlusOne(SafeGet(prev, "_v"));
    var entry' :- SetProp(entry, "_v", v);
    var patch' :- SetProp(patch, "_v", v);
    Ok(Changed(state, patch', Payload(prev, patch', entry', state)))
  }

  /** As written, an update that only changes a number (`{ age: 30 }` to
      `{ age: 31 }`) is taken for no change: the match is collected as it was
      and no hook runs; as corrected it is a change. */
  lemma ScalarChangeIgnoredAsWritten(detailedDiff: (Value, Value) -> Value, prev: Value, patch: Value, state: Value,
                                     parse: Value -> Result<Value>)
    requires !IsNil(state) && !IsNil(prev)
    requires parse(Compose(prev, patch).value).Ok?
    requires parse(Compose(prev, patch).value).value != prev
    requires detailedDiff(prev, parse(Compose(prev, patch).value).value) == AgeUpdatedDiff()
    ensures var w := Prepare(AsWritten, detailedDiff, prev, patch, state, parse);
      w.Ok? && w.value.Unchanged?
    ensures var c := Prepare(Corrected, detailedDiff, prev, patch, state, parse);
      !(c.Ok? && c.value.Unchanged?)
  {
    ModifiedAsWrittenMissesScalars();
  }

  /** Where the loop over the matches stands: the plugins' state, the patch
      (whose `_v` an earlier match may have set), the state object, and the
      entries collected so far. */
  datatype Loop = Loop(world: World, patch: Value, state: Value, out: seq<Value>)

  /** The plugins' state after a step, and either where the loop stands or
      what was thrown. */
  datatype Effect<T> = Effect(world: World, result: Result<T>)

  /** One turn of the loop.  An unchanged entry is collected as it was and no
      hook runs.  Otherwise before:update and after:update run, each with a
      fresh rollback list, on one payload and one `result` array, and what the
      hooks pushed there is collected; a hook failure ends the update with the
      plugins' state it left. */
  function UpdateOne(reading: Reading, detailedDiff: (Value, Value) -> Value, hooks: seq<Hooks.Hook<Ctx>>, l: Loop, prev: Value,
                     parse: Value -> Result<Value>): (r: Effect<Loop>)
    ensures r.result.Ok? ==> |r.result.value.out| >= |l.out| && r.result.value.out[..|l.out|] == l.out
    ensures r.result.Ok? ==> r.world == r.result.value.world
    ensures var p := Prepare(reading, detailedDiff, prev, l.patch, l.state, parse);
      && (p.Err? ==> r == Effect(l.world, Err(p.error)))
      && (p.Ok? && p.value.Unchanged? ==> r == Effect(l.world, Ok(l.(state := p.value.state, out := l.out + [prev]))))
    ensures var p := Prepare(reading, detailedDiff, prev, l.patch, l.state, parse);
      p.Ok? && p.value.Changed? ==>
        var b := Hooks.Fire(hooks, "before", "update", Ctx(p.value.payload, [], [], l.world));
        && (b.Err? ==> r.result == Err(b.error))
        && (b.Ok? ==>
              var a := Hooks.Fire(hooks, "after", "update", b.value.(rollback := []));
              && (a.Err? ==> r.result == Err(a.error))
              && (a.Ok? ==> r == Effect(a.value.world, Ok(Loop(a.value.world, p.value.patch, p.value.state, l.out + a.value.result)))))
  {
    match Prepare(reading, detailedDiff, prev, l.patch, l.state, parse)
    case Err(e) => Effect(l.world, Err(e))
    case Ok(Unchanged(state)) => Effect(l.world, Ok(l.(state := state, out := l.out + [prev])))
    case Ok(Changed(state, patch, payload)) =>
      var before := TriggerAs(reading, hooks, "before", "update", Ctx(payload, [], [], l.world));
      if before.outcome.Fail? then Effect(before.ctx.world, Err(before.outcome.error))
      else
        var after := TriggerAs(reading, hooks, "after", "update", before.ctx.(rollback := []));
        if after.outcome.Fail? then Effect(after.ctx.world, Err(after.outcome.error))
        else
          var out := l.out + after.ctx.result;
          assert out[..|l.out|] == l.out;
          Effect(after.ctx.world, Ok(Loop(after.ctx.world, patch, state, out)))
  }

  /** Without update hooks, a changed match collects nothing and changes
      nothing. */
  lemma UpdateOneNoHooks(reading: Reading, detailedDiff: (Value, Value) -> Value, hooks: seq<Hooks.Hook<Ctx>>, l: Loop, prev: Value,
                         parse: Value -> Result<Value>)
    requires Prepare(reading, detailedDiff, prev, l.patch, l.state, parse).Ok?
    requires Prepare(reading, detailedDiff, prev, l.patch, l.state, parse).value.Changed?
    requires Hooks.Matched(hooks, "before", "update") == [] && Hooks.Matched(hooks, "after", "update") == []
    ensures var r := UpdateOne(reading, detailedDiff, hooks, l, prev, parse);
      && r.result.Ok? && r.result.value.out == l.out && r.world == l.world
  {
    var p := Prepare(reading, detailedDiff, prev, l.patch, l.state, parse).value;
    var c := Ctx(p.payload, [], [], l.world);
    assert Hooks.Fire(hooks, "before", "update", c) == Ok(c);
    assert Hooks.Fire(hooks, "after", "update", c.(rollback := [])) == Ok(c.(rollback := []));
    assert l.out + [] == l.out;
  }

  /** The loop over all matches, in `find` order. */
  function UpdateEach(reading: Reading, detailedDiff: (Value, Value) -> Value, hooks: seq<Hooks.Hook<Ctx>>, l: Loop, found: seq<Value>,
                      parse: Value -> Result<Value>): (r: Effect<Loop>)
    ensures r.result.Ok? ==> r.world == r.result.value.world
    ensures r.result.Ok? ==> |r.result.value.out| >= |l.out| && r.result.value.out[..|l.out|] == l.out
    decreases |found|
  {
    if found == [] then Effect(l.world, Ok(l))
    else
      var step := UpdateOne(reading, detailedDiff, hooks, l, found[0], parse);
      if step.result.Err? then step
      else
        var r := UpdateEach(reading, detailedDiff, hooks, step.result.value, found[1..], parse);
        assert r.result.Ok? ==> r.result.value.out[..|l.out|] == l.out by {
          if r.result.Ok? {
            assert r.result.value.out[..|l.out|] == r.result.value.out[..|step.result.value.out|][..|l.out|];
          }
        }
        r
  }

  /** The loop over `a + b` is the loop over `a`, then, unless that threw, the
      loop over `b` from where it stood. */
  lemma {:induction false} UpdateEachAppend(reading: Reading, detailedDiff: (Value, Value) -> Value, hooks: seq<Hooks.Hook<Ctx>>, l: Loop,
                                            a: seq<Value>, b: seq<Value>, parse: Value -> Result<Value>)
    ensures var ra := UpdateEach(reading, detailedDiff, hooks, l, a, parse);
      UpdateEach(reading, detailedDiff, hooks, l, a + b, parse) ==
        if ra.result.Err? then ra else UpdateEach(reading, detailedDiff, hooks, ra.result.value, b, parse)
    decreases |a|
  {
    if a == [] {
      assert a + b == b;
    } else {
      assert (a + b)[0] == a[0] && (a + b)[1..] == a[1..] + b;
      var step := UpdateOne(reading, detailedDiff, hooks, l, a[0], parse);
      if step.result.Ok? {
        UpdateEachAppend(reading, detailedDiff, hooks, step.result.value, a[1..], b, parse);
      }
    }
  }

  /** `Promise.map(newEntries, entry => this.schema.parse(entry))`: every
      entry parsed, the first failure in order rethrown. */
  function ParseAll(entries: seq<Value>, parse: Value -> Result<Value>): (r: Result<seq<Value>>)
    ensures r.Ok? <==> forall i :: 0 <= i < |entries| ==> parse(entries[i]).Ok?
    ensures r.Ok? ==> |r.value| == |entries| && forall i :: 0 <= i < |entries| ==> r.value[i] == parse(entries[i]).value
  {
    if entries == [] then Ok([])
    else
      assert forall i :: 1 <= i < |entries| ==> entries[i] == entries[1..][i - 1];
      var first :- parse(entries[0]);
      var rest :- ParseAll(entries[1..], parse);
      Ok([first] + rest)
  }

  /** `state = {}` when none is given, then `Object.assign(state, { method:
      'update' })`. */
  function InitState(state: Value): (r: Result<Value>)
    ensures r.Err? <==> state.Null?
    ensures r.Ok? ==> !IsNil(r.value)
    ensures r.Ok? && (state.Undefined? || state.Obj?) ==> r.value.Obj? && Get(r.value.props, "method") == Str("update")
  {
    AssignProp(if state.Undefined? then Obj([]) else state, "method", Str("update"))
  }

  /** `this.find(query, state, true)` runs `Object.assign(state, { method:
      'find' })` on the very state object `update` passes, so the update hooks
      see `method: 'find'`. */
  function FindState(state: Value): (r: Result<Value>)
    ensures r.Err? <==> IsNil(state)
    ensures r.Ok? && state.Obj? ==>
      && r.value.Obj? && Get(r.value.props, "method") == Str("find")
      && forall k :: k != "method" ==> Get(r.value.props, k) == Get(state.props, k)
  {
    AssignProp(state, "method", Str("find"))
  }

  /** `update(query, newEntry, state)`, given the matches `found` of
      `this.find(query, state, true)`: every match passes the id and version
      check before anything else happens, then the matches are merged,
      parsed and written one by one, and the collected entries are parsed
      again on the way out. */
  function Update(reading: Reading, detailedDiff: (Value, Value) -> Value, hooks: seq<Hooks.Hook<Ctx>>, world: World, found: seq<Value>,
                  patch: Value, state: Value, parse: Value -> Result<Value>, generated: ObjectId.ObjectIdValue): (r: Effect<seq<Value>>)
    ensures state.Null? ==> r.result.Err? && r.world == world
    ensures !state.Null? && CheckAll(found, patch, generated).Fail? ==>
      r == Effect(world, Err(CheckAll(found, patch, generated).error))
    ensures !state.Null? && CheckAll(found, patch, generated).Pass? ==>
      var run := UpdateEach(reading, detailedDiff, hooks, Loop(world, patch, FindState(InitState(state).value).value, []), found, parse);
      && r.world == run.world
      && (run.result.Err? ==> r.result == Err(run.result.error))
      && (run.result.Ok? ==> r.result == ParseAll(run.result.value.out, parse))
  {
    match InitState(state)
    case Err(e) => Effect(world, Err(e))
    case Ok(st) =>
      match CheckAll(found, patch, generated)
      case Fail(e) => Effect(world, Err(e))
      case Pass =>
        var st' := FindState(st).value;
        var run := UpdateEach(reading, detailedDiff, hooks, Loop(world, patch, st', []), found, parse);
        match run.result
        case Err(e) => Effect(run.world, Err(e))
        case Ok(l) => Effect(run.world, ParseAll(l.out, parse))
  }

  /** The update hooks of the first changed match see the state `find` left:
      `method` is `'find'`, not `'update'`, and `oldEntry` is the match. */
  lemma UpdateHooksSeeFind(reading: Reading, detailedDiff: (Value, Value) -> Value, world: World, prev: Value, patch: Value,
                           state: Value, parse: Value -> Result<Value>)
    requires state.Undefined? || state.Obj?
    ensures InitState(state).Ok? && FindState(InitState(state).value).Ok?
    ensures var st := FindState(InitState(state).value).value;
      var p := Prepare(reading, detailedDiff, prev, patch, st, parse);
      p.Ok? && p.value.Changed? ==>
        var s := SafeGet(p.value.payload, "state");
        && s.Obj? && Get(s.props, "method") == Str("find") && Get(s.props, "oldEntry") == prev
  {
    FindAfterInit(state);
    var st := FindState(InitState(state).value).value;
    ChangedPayloadState(reading, detailedDiff, prev, patch, st, parse);
    var p := Prepare(reading, detailedDiff, prev, patch, st, parse);
    if p.Ok? && p.value.Changed? {
      KeepsMethod(st, SafeGet(p.value.payload, "state"));
    }
  }

  /** The state the loop starts from is an object whose `method` is `'find'`. */
  lemma FindAfterInit(state: Value)
    requires state.Undefined? || state.Obj?
    ensures InitState(state).Ok? && FindState(InitState(state).value).Ok?
    ensures var st := FindState(InitState(state).value).value;
      st.Obj? && Get(st.props, "method") == Str("find")
  {
  }

  /** The state a changed match hands its hooks is the loop's state with
      `oldEntry` set to the match. */
  lemma ChangedPayloadState(reading: Reading, detailedDiff: (Value, Value) -> Value, prev: Value, patch: Value, st: Value,
                            parse: Value -> Result<Value>)
    requires st.Obj?
    ensures var p := Prepare(reading, detailedDiff, prev, patch, st, parse);
      p.Ok? && p.value.Changed? ==>
        var s := SafeGet(p.value.payload, "state");
        && s.Obj? && Get(s.props, "oldEntry") == prev
        && forall k :: k != "oldEntry" ==> Get(s.props, k) == Get(st.props, k)
  {
  }

  /** A state that differs from `st` at most in `oldEntry` has its `method`. */
  lemma KeepsMethod(st: Value, s: Value)
    requires st.Obj? && s.Obj?
    requires forall k :: k != "oldEntry" ==> Get(s.props, k) == Get(st.props, k)
    ensures Get(s.props, "method") == Get(st.props, "method")
  {
    assert |"method"| != |"oldEntry"|;
  }

  // ---------------------------------------------------------------------------
  // Properties
  // ---------------------------------------------------------------------------

  /** A match that `update` leaves alone under `reading`: its merged and
      re-parsed entry does not count as modified. */
  predicate NoChange(reading: Reading, detailedDiff: (Value, Value) -> Value, prev: Value, patch: Value, parse: Value -> Result<Value>) {
    && !IsNil(prev)
    && parse(Compose(prev, patch).value).Ok?
    && Modified(reading, detailedDiff, prev, parse(Compose(prev, patch).value).value) == Ok(false)
  }

  /** One turn over a match that does not change collects it and nothing
      else. */
  lemma UpdateOneNoChange(reading: Reading, detailedDiff: (Value, Value) -> Value, hooks: seq<Hooks.Hook<Ctx>>, l: Loop, prev: Value,
                          parse: Value -> Result<Value>)
    requires !IsNil(l.state) && NoChange(reading, detailedDiff, prev, l.patch, parse)
    ensures var r := UpdateOne(reading, detailedDiff, hooks, l, prev, parse);
      && r.world == l.world && r.result.Ok?
      && r.result.value.patch == l.patch && r.result.value.out == l.out + [prev]
      && !IsNil(r.result.value.state)
  {
    var p := Prepare(reading, detailedDiff, prev, l.patch, l.state, parse);
    assert p.Ok? && p.value.Unchanged?;
  }

  /** A loop over matches none of which changes collects them as they are,
      leaves the patch alone and runs no hook. */
  lemma {:induction false} UpdateEachNoChange(reading: Reading, detailedDiff: (Value, Value) -> Value, hooks: seq<Hooks.Hook<Ctx>>, l: Loop,
                                              found: seq<Value>, parse: Value -> Result<Value>)
    requires !IsNil(l.state)
    requires forall i :: 0 <= i < |found| ==> NoChange(reading, detailedDiff, found[i], l.patch, parse)
    ensures UpdateEach(reading, detailedDiff, hooks, l, found, parse).world == l.world
    ensures UpdateEach(reading, detailedDiff, hooks, l, found, parse).result.Ok?
    ensures UpdateEach(reading, detailedDiff, hooks, l, found, parse).result.value.out == l.out + found
    ensures UpdateEach(reading, detailedDiff, hooks, l, found, parse).result.value.patch == l.patch
    decreases |found|
  {
    if found == [] {
      assert l.out + found == l.out;
    } else {
      var l' := NoChangeTurn(reading, detailedDiff, hooks, l, found, parse);
      NoChangeTail(reading, detailedDiff, found, l.patch, parse);
      UpdateEachNoChange(reading, detailedDiff, hooks, l', found[1..], parse);
      HeadThenTail(l.out, found);
    }
  }

  /** Collecting the head and then the tail collects the whole list. */
  lemma HeadThenTail(out: seq<Value>, found: seq<Value>)
    requires found != []
    ensures out + [found[0]] + found[1..] == out + found
  {
    assert [found[0]] + found[1..] == found;
  }

  /** What holds of every match holds of every later one. */
  lemma NoChangeTail(reading: Reading, detailedDiff: (Value, Value) -> Value, found: seq<Value>, patch: Value,
                     parse: Value -> Result<Value>)
    requires found != []
    requires forall i :: 0 <= i < |found| ==> NoChange(reading, detailedDiff, found[i], patch, parse)
    ensures forall i :: 0 <= i < |found[1..]| ==> NoChange(reading, detailedDiff, found[1..][i], patch, parse)
  {
    forall i | 0 <= i < |found[1..]| ensures NoChange(reading, detailedDiff, found[1..][i], patch, parse) {
      assert found[1..][i] == found[i + 1];
    }
  }

  /** The first turn over a match that does not change: the loop goes on
      over the rest from `l'`, which has collected the match. */
  lemma NoChangeTurn(reading: Reading, detailedDiff: (Value, Value) -> Value, hooks: seq<Hooks.Hook<Ctx>>, l: Loop,
                     found: seq<Value>, parse: Value -> Result<Value>) returns (l': Loop)
    requires !IsNil(l.state) && found != [] && NoChange(reading, detailedDiff, found[0], l.patch, parse)
    ensures l'.world == l.world && l'.patch == l.patch && l'.out == l.out + [found[0]] && !IsNil(l'.state)
    ensures UpdateEach(reading, detailedDiff, hooks, l, found, parse) == UpdateEach(reading, detailedDiff, hooks, l', found[1..], parse)
  {
    UpdateOneNoChange(reading, detailedDiff, hooks, l, found[0], parse);
    l' := UpdateOne(reading, detailedDiff, hooks, l, found[0], parse).result.value;
  }

  /** An update none of whose matches changes returns the matches, parsed
      again, bumps no version and runs no hook: the plugins' state is as it
      was, whatever hooks are registered. */
  lemma UpdateNoChange(reading: Reading, detailedDiff: (Value, Value) -> Value, hooks: seq<Hooks.Hook<Ctx>>, world: World, found: seq<Value>,
                       patch: Value, state: Value, parse: Value -> Result<Value>, generated: ObjectId.ObjectIdValue)
    requires !state.Null?
    requires CheckAll(found, patch, generated).Pass?
    requires forall i :: 0 <= i < |found| ==> NoChange(reading, detailedDiff, found[i], patch, parse)
    ensures Update(reading, detailedDiff, hooks, world, found, patch, state, parse, generated) == Effect(world, ParseAll(found, parse))
  {
    var st := FindState(InitState(state).value).value;
    UpdateEachNoChange(reading, detailedDiff, hooks, Loop(world, patch, st, []), found, parse);
    assert [] + found == found;
  }

  /** With the in-memory store's before:update hook registered, a match that
      changes is written under its id, with its version bumped, and that
      entry is exactly what the turn collects; the locks are untouched. */
  lemma UpdateOneStores(reading: Reading, detailedDiff: (Value, Value) -> Value, rack: string, l: Loop, prev: Value,
                        parse: Value -> Result<Value>)
    requires rack in l.world.db
    requires Prepare(reading, detailedDiff, prev, l.patch, l.state, parse).Ok?
    requires Prepare(reading, detailedDiff, prev, l.patch, l.state, parse).value.Changed?
    ensures var hooks := [Hooks.Hook("before", "update", StoreBeforeUpdate(rack))];
      var entry := SafeGet(Prepare(reading, detailedDiff, prev, l.patch, l.state, parse).value.payload, "entry");
      var r := UpdateOne(reading, detailedDiff, hooks, l, prev, parse);
      && r.result.Ok?
      && r.result.value.out == l.out + [entry]
      && rack in r.world.db
      && Get(r.world.db[rack], ToText(SafeGet(entry, "_id"))) == entry
      && r.world.locks == l.world.locks
      && (entry.Obj? ==> Get(entry.props, "_v") == PlusOne(SafeGet(prev, "_v")))
  {
    var hooks := [Hooks.Hook("before", "update", StoreBeforeUpdate(rack))];
    var p := Prepare(reading, detailedDiff, prev, l.patch, l.state, parse).value;
    var c := Ctx(p.payload, [], [], l.world);
    StoreBeforeUpdateStores(rack, c);
    var q := StoreBeforeUpdate(rack)(c).value;
    StoreOnlyRuns(rack, c);
    UpdateOneFires(reading, detailedDiff, hooks, l, prev, parse, q);
    assert q.result == [SafeGet(p.payload, "entry")] by {
      assert c.result + [SafeGet(p.payload, "entry")] == [SafeGet(p.payload, "entry")];
    }
  }

  /** A changed match whose before:update leaves `q` and whose after:update
      changes nothing ends the step in `q`'s world, with `q`'s result
      collected. */
  lemma UpdateOneFires(reading: Reading, detailedDiff: (Value, Value) -> Value, hooks: seq<Hooks.Hook<Ctx>>, l: Loop, prev: Value,
                       parse: Value -> Result<Value>, q: Ctx)
    requires Prepare(reading, detailedDiff, prev, l.patch, l.state, parse).Ok?
    requires Prepare(reading, detailedDiff, prev, l.patch, l.state, parse).value.Changed?
    requires var p := Prepare(reading, detailedDiff, prev, l.patch, l.state, parse).value;
      Hooks.Fire(hooks, "before", "update", Ctx(p.payload, [], [], l.world)) == Ok(q)
    requires Hooks.Matched(hooks, "after", "update") == []
    ensures var p := Prepare(reading, detailedDiff, prev, l.patch, l.state, parse).value;
      UpdateOne(reading, detailedDiff, hooks, l, prev, parse) == Effect(q.world, Ok(Loop(q.world, p.patch, p.state, l.out + q.result)))
  {
  }

  /** The store hook alone: before:update runs it, after:update runs
      nothing. */
  lemma StoreOnlyRuns(rack: string, c: Ctx)
    requires StoreBeforeUpdate(rack)(c).Ok?
    ensures var hooks := [Hooks.Hook("before", "update", StoreBeforeUpdate(rack))];
      && Hooks.Fire(hooks, "before", "update", c) == Ok(StoreBeforeUpdate(rack)(c).value)
      && Hooks.Matched(hooks, "after", "update") == []
  {
    var hooks := [Hooks.Hook("before", "update", StoreBeforeUpdate(rack))];
    assert hooks[1..] == [] && hooks[..|hooks| - 1] == [];
    assert Hooks.Matched(hooks, "before", "update") == hooks;
    assert Hooks.Chain(hooks, c) == Hooks.Done(StoreBeforeUpdate(rack)(c).value);
  }
}
