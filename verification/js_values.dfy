/** JavaScript values as the document store sees them.

    Documents, queries, sort specifications and hook states are plain
    JavaScript values.  An object is an ordered list of own enumerable
    properties, listed in the order `Object.keys` reports them.  Numbers are
    the integers plus `NaN`: the store only ever counts (`_v + 1`), compares
    and subtracts them.
 */
module JsValues {
  import opened Results

  datatype Value =
    | Undefined
    | Null
    | Bool(b: bool)
    | Num(n: int)
    | NaN
    | Str(s: string)
    | Arr(items: seq<Value>)
    | Obj(props: seq<Prop>)

  datatype Prop = Prop(key: string, val: Value)

  /** JavaScript truthiness (`if (v)`, `!v`, `v && ...`). */
  predicate Truthy(v: Value) {
    match v
    case Undefined => false
    case Null => false
    case NaN => false
    case Bool(b) => b
    case Num(n) => n != 0
    case Str(s) => s != ""
    case Arr(_) => true
    case Obj(_) => true
  }

  /** The `typeof` operator. */
  function TypeOf(v: Value): string {
    match v
    case Undefined => "undefined"
    case Bool(_) => "boolean"
    case Num(_) => "number"
    case NaN => "number"
    case Str(_) => "string"
    case _ => "object"
  }

  /** `typeof v === 'object' && v !== null && !Array.isArray(v)`: the test the
      store applies to entries before accepting them. */
  predicate IsRecord(v: Value) {
    v.Obj?
  }

  /** `v === undefined || v === null` (Ramda's `isNil`). */
  predicate IsNil(v: Value) {
    v.Undefined? || v.Null?
  }

  /** The strict equality `===`.  Primitives compare by value and `NaN` equals
      nothing; arrays and objects compare by identity in JavaScript, which this
      model approximates by structural equality. */
  predicate StrictEquals(a: Value, b: Value) {
    a == b && !a.NaN?
  }

  // ---------------------------------------------------------------------------
  // Own properties of an object
  // ---------------------------------------------------------------------------

  function KeysOf(props: seq<Prop>): (keys: seq<string>)
    ensures |keys| == |props|
    ensures forall i :: 0 <= i < |props| ==> keys[i] == props[i].key
  {
    if props == [] then [] else [props[0].key] + KeysOf(props[1..])
  }

  predicate Distinct(keys: seq<string>) {
    forall i, j :: 0 <= i < j < |keys| ==> keys[i] != keys[j]
  }

  /** No key is listed twice: what every JavaScript object satisfies. */
  predicate WellFormed(props: seq<Prop>) {
    Distinct(KeysOf(props))
  }

  predicate Has(props: seq<Prop>, key: string) {
    key in KeysOf(props)
  }

  /** The value stored at `key`, or `undefined` when there is none. */
  function Get(props: seq<Prop>, key: string): Value {
    if props == [] then Undefined
    else if props[0].key == key then props[0].val
    else Get(props[1..], key)
  }

  /** `o[key] = v`: an existing key keeps its position, a new key goes last. */
  function Put(props: seq<Prop>, key: string, v: Value): seq<Prop> {
    if props == [] then [Prop(key, v)]
    else if props[0].key == key then [Prop(key, v)] + props[1..]
    else [props[0]] + Put(props[1..], key, v)
  }

  /** Writing a key changes what that key reads and nothing else. */
  lemma {:induction false} PutGet(props: seq<Prop>, key: string, v: Value, k: string)
    ensures Get(Put(props, key, v), k) == if k == key then v else Get(props, k)
  {
    if props != [] && props[0].key != key {
      var r := Put(props, key, v);
      assert r[1..] == Put(props[1..], key, v);
      PutGet(props[1..], key, v, k);
    } else if props != [] {
      assert Put(props, key, v)[1..] == props[1..];
    }
  }

  /** Writing an existing key keeps the key order; a new key is appended. */
  lemma {:induction false} PutKeys(props: seq<Prop>, key: string, v: Value)
    ensures KeysOf(Put(props, key, v)) == if Has(props, key) then KeysOf(props) else KeysOf(props) + [key]
  {
    if props == [] {
    } else if props[0].key == key {
      assert Put(props, key, v)[1..] == props[1..];
      assert KeysOf(Put(props, key, v)) == [key] + KeysOf(props[1..]);
    } else {
      var r := Put(props, key, v);
      assert r[1..] == Put(props[1..], key, v);
      PutKeys(props[1..], key, v);
      assert KeysOf(props) == [props[0].key] + KeysOf(props[1..]);
      assert KeysOf(r) == [props[0].key] + KeysOf(Put(props[1..], key, v));
    }
  }

  lemma PutWellFormed(props: seq<Prop>, key: string, v: Value)
    requires WellFormed(props)
    ensures WellFormed(Put(props, key, v))
  {
    PutKeys(props, key, v);
  }

  /** A key that is not there reads as `undefined`. */
  lemma {:induction false} GetAbsent(props: seq<Prop>, key: string)
    requires !Has(props, key)
    ensures Get(props, key) == Undefined
  {
    if props != [] {
      assert KeysOf(props)[0] == props[0].key;
      assert KeysOf(props[1..]) == KeysOf(props)[1..];
      GetAbsent(props[1..], key);
    }
  }

  /** `delete o[key]`. */
  function Remove(props: seq<Prop>, key: string): seq<Prop> {
    if props == [] then []
    else if props[0].key == key then Remove(props[1..], key)
    else [props[0]] + Remove(props[1..], key)
  }

  /** Deleting a key makes it read as `undefined` and changes nothing else. */
  lemma {:induction false} RemoveGet(props: seq<Prop>, key: string, k: string)
    ensures Get(Remove(props, key), k) == if k == key then Undefined else Get(props, k)
  {
    if props != [] {
      RemoveGet(props[1..], key, k);
      if props[0].key != key {
        assert Remove(props, key)[1..] == Remove(props[1..], key);
      }
    }
  }

  /** `Object.assign(target, source)` for an object `source`: its properties are
      written one after the other, in order. */
  function Assign(target: seq<Prop>, source: seq<Prop>): seq<Prop>
    decreases |source|
  {
    if source == [] then target
    else Assign(Put(target, source[0].key, source[0].val), source[1..])
  }

  /** After `Object.assign(target, source)` a key reads as in `source` when
      `source` has it and as in `target` otherwise. */
  lemma {:induction false} AssignGet(target: seq<Prop>, source: seq<Prop>, k: string)
    requires WellFormed(source)
    ensures Get(Assign(target, source), k) == if Has(source, k) then Get(source, k) else Get(target, k)
    decreases |source|
  {
    if source != [] {
      var rest := source[1..];
      assert KeysOf(rest) == KeysOf(source)[1..];
      assert WellFormed(rest);
      AssignGet(Put(target, source[0].key, source[0].val), rest, k);
      PutGet(target, source[0].key, source[0].val, k);
      if k == source[0].key {
        assert !Has(rest, k) by {
          forall i | 0 <= i < |rest|
            ensures rest[i].key != k
          {
            assert KeysOf(source)[0] == k && KeysOf(source)[i + 1] == rest[i].key;
          }
        }
      }
    }
  }

  /** What `Object.assign` copies out of an arbitrary source value: the own
      properties of an object, the indexed elements of an array or a string, and
      nothing out of `undefined`, `null`, booleans and numbers. */
  function OwnProps(v: Value): seq<Prop> {
    match v
    case Obj(ps) => ps
    case Arr(items) => seq(|items|, i requires 0 <= i < |items| => Prop(IntToDecimal(i), items[i]))
    case Str(s) => seq(|s|, i requires 0 <= i < |s| => Prop(IntToDecimal(i), Str([s[i]])))
    case _ => []
  }

  /** The property read `v[key]`: reading from `undefined` or `null` throws, a
      missing key reads as `undefined`.  Array and string elements read by
      index; other built-in properties (a string's `length`, say) are not
      modelled, and none of the keys the store reads is one. */
  function Member(v: Value, key: string): (r: Result<Value>)
    ensures r.Err? <==> IsNil(v)
    ensures v.Obj? ==> r == Ok(Get(v.props, key))
    ensures !IsNil(v) ==> r == Ok(SafeGet(v, key))
  {
    match v
    case Undefined => Err(TypeError("Cannot read properties of undefined (reading '" + key + "')"))
    case Null => Err(TypeError("Cannot read properties of null (reading '" + key + "')"))
    case _ => Ok(Get(OwnProps(v), key))
  }

  /** A property read that yields `undefined` instead of throwing on a nil
      value, as lodash `get` and Ramda `path` do at every step. */
  function SafeGet(v: Value, key: string): Value {
    Get(OwnProps(v), key)
  }

  /** A key that starts like a name, not like a number. */
  predicate IsNameKey(key: string) {
    |key| > 0 && !('0' <= key[0] <= '9') && key[0] != '-'
  }

  /** Only objects have named own properties: reading a name from anything
      else gives `undefined`. */
  lemma SafeGetName(v: Value, key: string)
    requires IsNameKey(key) && !v.Obj?
    ensures SafeGet(v, key) == Undefined
  {
    var props := OwnProps(v);
    forall i | 0 <= i < |props|
      ensures props[i].key != key
    {
      assert props[i].key == IntToDecimal(i);
      assert IntToDecimal(i)[0] == NatToDecimal(i)[0];
    }
    GetAbsent(props, key);
  }

  /** `Object.keys(v)`. */
  function ObjectKeys(v: Value): (r: Result<seq<string>>)
    ensures r.Err? <==> IsNil(v)
    ensures v.Obj? ==> r == Ok(KeysOf(v.props))
  {
    match v
    case Undefined => Err(TypeError("Cannot convert undefined or null to object"))
    case Null => Err(TypeError("Cannot convert undefined or null to object"))
    case _ => Ok(KeysOf(OwnProps(v)))
  }

  // ---------------------------------------------------------------------------
  // Conversions
  // ---------------------------------------------------------------------------

  function DigitChar(d: nat): char
    requires d < 10
  {
    "0123456789"[d]
  }

  function NatToDecimal(n: nat): (r: string)
    ensures |r| >= 1
    ensures forall i :: 0 <= i < |r| ==> '0' <= r[i] <= '9'
  {
    if n < 10 then [DigitChar(n)] else NatToDecimal(n / 10) + [DigitChar(n % 10)]
  }

  /** `String(n)` for an integral number. */
  function IntToDecimal(n: int): string {
    if n < 0 then "-" + NatToDecimal(-n) else NatToDecimal(n)
  }

  function Join(parts: seq<string>, sep: string): string {
    if parts == [] then ""
    else if |parts| == 1 then parts[0]
    else parts[0] + sep + Join(parts[1..], sep)
  }

  /** `String(v)`, which is also what a template literal `${v}` and a property key
      `o[v]` turn `v` into.  An array joins its elements with commas, printing
      `undefined` and `null` elements as the empty string. */
  function ToText(v: Value): string {
    match v
    case Undefined => "undefined"
    case Null => "null"
    case Bool(b) => if b then "true" else "false"
    case Num(n) => IntToDecimal(n)
    case NaN => "NaN"
    case Str(s) => s
    case Arr(items) =>
      Join(seq(|items|, i requires 0 <= i < |items| => if IsNil(items[i]) then "" else ToText(items[i])), ",")
    case Obj(_) => "[object Object]"
  }

  predicate AllDigits(s: string) {
    forall i :: 0 <= i < |s| ==> '0' <= s[i] <= '9'
  }

  function DecimalValue(s: string): nat
    requires AllDigits(s)
  {
    if s == [] then 0 else DecimalValue(s[..|s| - 1]) * 10 + (s[|s| - 1] as int - '0' as int)
  }

  /** `Number(s)` for a string: the empty string is 0 and a string of decimal
      digits is its value; every other string is `NaN` (`None`).  Signs,
      surrounding white space, fractions and exponents are not modelled. */
  function StrToNumber(s: string): Option<int> {
    if s == "" then Some(0)
    else if AllDigits(s) then Some(DecimalValue(s))
    else None
  }

  /** `Number(v)`; `None` stands for `NaN`. */
  function ToNumber(v: Value): Option<int> {
    match v
    case Undefined => None
    case NaN => None
    case Null => Some(0)
    case Bool(b) => Some(if b then 1 else 0)
    case Num(n) => Some(n)
    case Str(s) => StrToNumber(s)
    case _ => StrToNumber(ToText(v))
  }

  /** `v + 1`: string concatenation when `v` is or converts to a string,
      numeric addition otherwise. */
  function PlusOne(v: Value): (r: Value)
    ensures v.Num? ==> r == Num(v.n + 1)
  {
    match v
    case Str(s) => Str(s + "1")
    case Arr(_) => Str(ToText(v) + "1")
    case Obj(_) => Str(ToText(v) + "1")
    case _ => match ToNumber(v) case Some(n) => Num(n + 1) case None => NaN
  }

  // ---------------------------------------------------------------------------
  // Hexadecimal digits
  // ---------------------------------------------------------------------------

  predicate IsHexChar(c: char) {
    ('0' <= c <= '9') || ('a' <= c <= 'f') || ('A' <= c <= 'F')
  }

  function HexValue(c: char): (d: nat)
    requires IsHexChar(c)
    ensures d < 16
  {
    if '0' <= c <= '9' then c as int - '0' as int
    else if 'a' <= c <= 'f' then c as int - 'a' as int + 10
    else c as int - 'A' as int + 10
  }

  /** The lower-case digit `toString(16)` writes for a value below 16. */
  function HexChar(d: nat): char
    requires d < 16
  {
    if d < 10 then ('0' as int + d) as char else ('a' as int + d - 10) as char
  }

  /** `n.toString(16)`. */
  function ToHexString(n: nat): (r: string)
    ensures |r| >= 1
  {
    if n < 16 then [HexChar(n)] else ToHexString(n / 16) + [HexChar(n % 16)]
  }

  /** Lexicographic order of strings by code point.  JavaScript's `<` on two
      strings compares UTF-16 code units; the two orders agree on strings
      whose characters all lie below U+10000. */
  predicate StrLess(a: string, b: string) {
    if a == [] then b != []
    else if b == [] then false
    else if a[0] != b[0] then a[0] < b[0]
    else StrLess(a[1..], b[1..])
  }

  /** `StrLess` is a strict total order on strings. */
  lemma {:induction false} StrLessTrichotomy(a: string, b: string)
    ensures a == b || StrLess(a, b) || StrLess(b, a)
    ensures !(StrLess(a, b) && StrLess(b, a))
    ensures !StrLess(a, a)
  {
    if a != [] && b != [] && a[0] == b[0] {
      StrLessTrichotomy(a[1..], b[1..]);
      if a[1..] == b[1..] {
        assert a == [a[0]] + a[1..] && b == [b[0]] + b[1..];
      }
    }
    if a != [] {
      StrLessTrichotomy(a[1..], a[1..]);
    }
  }

  lemma {:induction false} StrLessTransitive(a: string, b: string, c: string)
    requires StrLess(a, b) && StrLess(b, c)
    ensures StrLess(a, c)
  {
    if a != [] && a[0] == b[0] && b[0] == c[0] {
      StrLessTransitive(a[1..], b[1..], c[1..]);
    }
  }

  /** The relational comparison `a > b`: two strings (or values that convert to
      strings, such as arrays) compare lexicographically, anything else
      numerically, and a comparison involving `NaN` is false. */
  predicate GreaterThan(a: Value, b: Value) {
    var pa := if a.Arr? || a.Obj? then Str(ToText(a)) else a;
    var pb := if b.Arr? || b.Obj? then Str(ToText(b)) else b;
    if pa.Str? && pb.Str? then StrLess(pb.s, pa.s)
    else
      match (ToNumber(pa), ToNumber(pb))
      case (Some(x), Some(y)) => x > y
      case _ => false
  }

  /** The regular expression test `/^\$/.test(key)`. */
  predicate IsOperatorKey(key: string) {
    |key| > 0 && key[0] == '$'
  }
}
