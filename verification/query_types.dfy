/** The `Query` and `Sort` schema types (src/lib/types/query.js and
    src/lib/types/sort.js): the operator sets, operator recognition, the
    scalar-to-`$eq` cast, the dispatch of `parse` and the single-operator
    rule of `validate`.

    The schema engine is outside this model: parsing a non-operator object
    (`mapSchema: 'Query'`) and parsing an operator's operand against the
    operator's schema are parameters.  `this.name` is the field name the type
    sits at; errors raised through `this.throwError` are modelled as plain
    errors with the same message.
 */
module QueryTypes {
  import opened Results
  import opened JsValues

  /** The fields of `QuerySchema`: comparison, logical and element operators. */
  const QueryOperators: seq<string> :=
    ["$eq", "$ne", "$lte", "$gte", "$gt", "$lt", "$in", "$nin",
     "$and", "$not", "$nor", "$or",
     "$exists", "$type"]

  /** The fields of `SortSchema`. */
  const SortOperators: seq<string> := ["$sort"]

  /** The keys that start with `$`, in order. */
  function OperatorKeys(keys: seq<string>): (ops: seq<string>)
    ensures |ops| <= |keys|
    ensures forall i :: 0 <= i < |ops| ==> IsOperatorKey(ops[i]) && ops[i] in keys
  {
    if keys == [] then []
    else (if IsOperatorKey(keys[0]) then [keys[0]] else []) + OperatorKeys(keys[1..])
  }

  /** The filter is empty exactly when no key starts with `$`. */
  lemma {:induction false} OperatorKeysEmpty(keys: seq<string>)
    ensures OperatorKeys(keys) == [] <==> forall i :: 0 <= i < |keys| ==> !IsOperatorKey(keys[i])
  {
    if keys != [] {
      OperatorKeysEmpty(keys[1..]);
      assert forall i :: 1 <= i < |keys| ==> keys[i] == keys[1..][i - 1];
    }
  }

  /** `Query.isOperator(o)` and `Sort.isSort(o)`: whether `Object.keys(o)` has
      a key starting with `$`.  `Object.keys` throws on `undefined` and
      `null`. */
  function IsOperator(v: Value): (r: Result<bool>)
    ensures r.Err? <==> IsNil(v)
    ensures r.Ok? && v.Obj? ==> (r.value <==> exists i :: 0 <= i < |v.props| && IsOperatorKey(v.props[i].key))
    ensures r.Ok? && !v.Obj? ==> !r.value
  {
    var keys :- ObjectKeys(v);
    OperatorKeysEmpty(keys);
    if !v.Obj? then
      NoOperatorIndices(v);
      Ok(|OperatorKeys(keys)| > 0)
    else
      Ok(|OperatorKeys(keys)| > 0)
  }

  /** The keys of a non-object are array or string indices, never `$` keys. */
  lemma NoOperatorIndices(v: Value)
    requires !v.Obj?
    ensures forall i :: 0 <= i < |KeysOf(OwnProps(v))| ==> !IsOperatorKey(KeysOf(OwnProps(v))[i])
  {
    var props := OwnProps(v);
    forall i | 0 <= i < |props|
      ensures !IsOperatorKey(props[i].key)
    {
      assert props[i].key == IntToDecimal(i);
      assert IntToDecimal(i)[0] == NatToDecimal(i)[0];
    }
  }

  /** A defined string, number or boolean. */
  predicate IsScalar(v: Value) {
    v.Str? || v.Num? || v.NaN? || v.Bool?
  }

  /** `Query.cast` (and the identical `Sort.cast`) at field name `name`: a
      scalar at a non-`$` name becomes `{ $eq: v }`; anything else passes
      through. */
  function Cast(name: string, v: Value): (r: Value)
    ensures r == v || r == Obj([Prop("$eq", v)])
    ensures r != v <==> IsScalar(v) && !IsOperatorKey(name)
  {
    if v != Undefined && !IsOperatorKey(name) && IsScalar(v) then Obj([Prop("$eq", v)]) else v
  }

  /** Casting twice is casting once, and the `$eq` operand of a cast scalar is
      the scalar itself. */
  lemma CastIdempotent(name: string, v: Value)
    ensures Cast(name, Cast(name, v)) == Cast(name, v)
    ensures Cast(name, v) != v ==> Get(Cast(name, v).props, "$eq") == v
  {
  }

  /** A cast value at a non-`$` name is an operator object whenever it changed. */
  lemma CastIsOperator(name: string, v: Value)
    requires Cast(name, v) != v
    ensures IsOperator(Cast(name, v)) == Ok(true)
  {
    assert Cast(name, v).props[0].key == "$eq";
  }

  /** The shared dispatch of `parse`, for the operator set `operators`:
      a non-operator object is returned as is when empty and handed to
      `parseMap` otherwise; an operator object whose first key is not in
      `operators` fails with `Unknown operator <key>`; otherwise the result is
      `{ [key]: parseOperand(key, v[key]) }`. */
  function Parse(operators: seq<string>, v: Value, parseMap: Value -> Result<Value>,
                 parseOperand: (string, Value) -> Result<Value>): (r: Result<Value>)
    ensures IsNil(v) ==> r.Err?
    ensures v.Obj? && v.props == [] ==> r == Ok(v)
    ensures v.Obj? && IsOperator(v) == Ok(true) ==>
      var key := v.props[0].key;
      && (key !in operators ==> r == Err(Plain("Unknown operator " + key)))
      && (r.Ok? ==> r.value.Obj? && |r.value.props| == 1 && r.value.props[0].key == key)
      && (key in operators ==> (r.Ok? <==> parseOperand(key, Get(v.props, key)).Ok?))
  {
    var isOperator :- IsOperator(v);
    var keys := KeysOf(OwnProps(v));
    if !isOperator then
      if |keys| == 0 then Ok(v) else parseMap(v)
    else
      var key := keys[0];
      if key !in operators then Err(Plain("Unknown operator " + key))
      else
        var operand :- parseOperand(key, SafeGet(v, key));
        Ok(Obj([Prop(key, operand)]))
  }

  /** `Query.parse`. */
  function QueryParse(v: Value, parseMap: Value -> Result<Value>,
                      parseOperand: (string, Value) -> Result<Value>): (r: Result<Value>)
    ensures v.Obj? && v.props == [] ==> r == Ok(v)
    ensures v.Obj? && v.props != [] && IsOperatorKey(v.props[0].key) ==>
      (v.props[0].key !in QueryOperators ==> r == Err(Plain("Unknown operator " + v.props[0].key)))
      && (r.Ok? ==> r.value.Obj? && |r.value.props| == 1 && r.value.props[0].key == v.props[0].key)
  {
    Parse(QueryOperators, v, parseMap, parseOperand)
  }

  /** `Sort.parse` as written: its first statement calls `Sort.isOperator`,
      which the `Sort` object does not define, so every call throws. */
  function SortParseAsWritten(v: Value): (r: Result<Value>)
    ensures r.Err? && r.error.Name() == "TypeError"
  {
    Err(TypeError("Sort.isOperator is not a function"))
  }

  /** `Sort.parse` with `Sort.isSort` in place of the missing `Sort.isOperator`. */
  function SortParse(v: Value, parseMap: Value -> Result<Value>,
                     parseOperand: (string, Value) -> Result<Value>): (r: Result<Value>)
    ensures v.Obj? && v.props == [] ==> r == Ok(v)
    ensures v.Obj? && v.props != [] && IsOperatorKey(v.props[0].key) ==>
      (v.props[0].key != "$sort" ==> r == Err(Plain("Unknown operator " + v.props[0].key)))
      && (r.Ok? ==> r.value.Obj? && |r.value.props| == 1 && r.value.props[0].key == v.props[0].key)
  {
    Parse(SortOperators, v, parseMap, parseOperand)
  }

  /** A `{ $sort: ... }` specification, which `Sort.parse` exists to accept,
      always throws as written and parses as intended whenever its operand
      does. */
  lemma SortParseAsWrittenRejectsSort(spec: Value, parseMap: Value -> Result<Value>,
                                      parseOperand: (string, Value) -> Result<Value>)
    requires parseOperand("$sort", spec).Ok?
    ensures SortParseAsWritten(Obj([Prop("$sort", spec)])).Err?
    ensures SortParse(Obj([Prop("$sort", spec)]), parseMap, parseOperand)
      == Ok(Obj([Prop("$sort", parseOperand("$sort", spec).value)]))
  {
    var v := Obj([Prop("$sort", spec)]);
    assert IsOperator(v) == Ok(true) by {
      assert IsOperatorKey(v.props[0].key);
    }
  }

  /** The single-operator rule shared by both `validate`s: a truthy operator
      object with more than one key fails with `message`. */
  function ValidateSingle(v: Value, message: string): (r: Outcome)
    ensures r.Fail? <==> v.Obj? && |v.props| > 1 && exists i :: 0 <= i < |v.props| && IsOperatorKey(v.props[i].key)
    ensures r.Fail? ==> r.error == Plain(message)
  {
    if !Truthy(v) then Pass
    else
      match IsOperator(v)
      case Err(_) => Pass
      case Ok(isOperator) =>
        if isOperator && |KeysOf(OwnProps(v))| > 1 then Fail(Plain(message)) else Pass
  }

  /** `Query.validate`. */
  function QueryValidate(v: Value): (r: Outcome)
    ensures r.Fail? <==> v.Obj? && |v.props| > 1 && exists i :: 0 <= i < |v.props| && IsOperatorKey(v.props[i].key)
    ensures r.Fail? ==> r.error == Plain("Invalid operator")
  {
    ValidateSingle(v, "Invalid operator")
  }

  /** `Sort.validate`. */
  function SortValidate(v: Value): (r: Outcome)
    ensures r.Fail? <==> v.Obj? && |v.props| > 1 && exists i :: 0 <= i < |v.props| && IsOperatorKey(v.props[i].key)
    ensures r.Fail? ==> r.error == Plain("Invalid sorter")
  {
    ValidateSingle(v, "Invalid sorter")
  }

  /** What a successful operator parse produces passes validation, and so
      does what a cast produces. */
  lemma {:induction false} ParseThenValidate(v: Value, parseMap: Value -> Result<Value>,
                                             parseOperand: (string, Value) -> Result<Value>, name: string, w: Value)
    requires v.Obj? && v.props != [] && IsOperatorKey(v.props[0].key)
    ensures QueryParse(v, parseMap, parseOperand).Ok? ==> QueryValidate(QueryParse(v, parseMap, parseOperand).value).Pass?
    ensures QueryValidate(Cast(name, w)).Pass? || Cast(name, w) == w
  {
  }
}
