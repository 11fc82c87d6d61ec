/** The multi-key sort of the store: `sortArray` with its helpers `toIndex` and
    `calcIndex` (src/lib/plugins/in-memory-db.js, and the copy inside
    `DuckRack.list` in dist/duck-storage.js).

    `Array.prototype.sort` is modelled as a stable insertion sort driven by
    "the comparator returned a positive number"; a `NaN` result counts as
    zero, as the language requires.  For a comparator that is a total preorder
    on the elements every stable sort gives this same result.
 */
module Sorting {
  import opened Results
  import opened JsValues
  import opened Paths

  // ---------------------------------------------------------------------------
  // A stable sort driven by a comparator
  // ---------------------------------------------------------------------------

  /** Puts `x` after the last element of `s` that does not come after it. */
  function Insert<T>(s: seq<T>, x: T, gt: (T, T) -> bool): (r: seq<T>)
    ensures multiset(r) == multiset(s) + multiset{x}
    ensures |r| == |s| + 1
  {
    if s == [] then [x]
    else if gt(s[|s| - 1], x) then
      assert s == s[..|s| - 1] + [s[|s| - 1]];
      Insert(s[..|s| - 1], x, gt) + [s[|s| - 1]]
    else s + [x]
  }

  /** `arr.sort(cmp)` with `gt(a, b)` meaning `cmp(a, b) > 0`. */
  function SortWith<T>(a: seq<T>, gt: (T, T) -> bool): (r: seq<T>)
    ensures multiset(r) == multiset(a)
    ensures |r| == |a|
  {
    if a == [] then []
    else
      assert a == a[..|a| - 1] + [a[|a| - 1]];
      Insert(SortWith(a[..|a| - 1], gt), a[|a| - 1], gt)
  }

  /** No element is placed before one that should come first. */
  predicate Sorted<T>(s: seq<T>, gt: (T, T) -> bool) {
    forall i, j :: 0 <= i < j < |s| ==> !gt(s[i], s[j])
  }

  /** `gt` orders the elements of `elems` consistently: it is asymmetric and
      "does not come after" is transitive. */
  predicate TotalPreorder<T(!new)>(elems: multiset<T>, gt: (T, T) -> bool) {
    && (forall x, y :: x in elems && y in elems && gt(x, y) ==> !gt(y, x))
    && (forall x, y, z :: x in elems && y in elems && z in elems && !gt(x, y) && !gt(y, z) ==> !gt(x, z))
  }

  lemma TotalPreorderSub<T(!new)>(a: multiset<T>, b: multiset<T>, gt: (T, T) -> bool)
    requires a <= b && TotalPreorder(b, gt)
    ensures TotalPreorder(a, gt)
  {
  }

  /** An element that no earlier element comes after may go last. */
  lemma AppendSorted<T>(s: seq<T>, x: T, gt: (T, T) -> bool)
    requires Sorted(s, gt)
    requires forall i :: 0 <= i < |s| ==> !gt(s[i], x)
    ensures Sorted(s + [x], gt)
  {
  }

  lemma {:induction false} InsertSorted<T(!new)>(s: seq<T>, x: T, gt: (T, T) -> bool)
    requires Sorted(s, gt)
    requires TotalPreorder(multiset(s) + multiset{x}, gt)
    ensures Sorted(Insert(s, x, gt), gt)
  {
    var all := multiset(s) + multiset{x};
    if s != [] {
      var last := s[|s| - 1];
      var init := s[..|s| - 1];
      assert s == init + [last];
      assert last in all && x in all;
      if gt(last, x) {
        assert !gt(x, last);
        TotalPreorderSub(multiset(init) + multiset{x}, all, gt);
        InsertSorted(init, x, gt);
        var r := Insert(init, x, gt);
        forall i | 0 <= i < |r|
          ensures !gt(r[i], last)
        {
          assert r[i] in multiset(r);
          if r[i] != x {
            assert r[i] in multiset(init);
            var k :| 0 <= k < |init| && init[k] == r[i];
            assert s[k] == r[i];
          }
        }
        AppendSorted(r, last, gt);
      } else {
        forall i | 0 <= i < |s|
          ensures !gt(s[i], x)
        {
          if i < |s| - 1 {
            assert s[i] in all;
            assert !gt(s[i], last);
          }
        }
        AppendSorted(s, x, gt);
      }
    }
  }

  lemma {:induction false} SortWithSorted<T(!new)>(a: seq<T>, gt: (T, T) -> bool)
    requires TotalPreorder(multiset(a), gt)
    ensures Sorted(SortWith(a, gt), gt)
  {
    if a != [] {
      var init := a[..|a| - 1];
      assert a == init + [a[|a| - 1]];
      SortWithSorted(init, gt);
      InsertSorted(SortWith(init, gt), a[|a| - 1], gt);
    }
  }

  /** The elements of `s` that satisfy `p`, in order. */
  function Filter<T>(s: seq<T>, p: T -> bool): (r: seq<T>)
    ensures |r| <= |s|
  {
    if s == [] then []
    else Filter(s[..|s| - 1], p) + (if p(s[|s| - 1]) then [s[|s| - 1]] else [])
  }

  lemma FilterSnoc<T>(s: seq<T>, x: T, p: T -> bool)
    ensures Filter(s + [x], p) == Filter(s, p) + (if p(x) then [x] else [])
  {
    assert (s + [x])[..|s|] == s;
  }

  /** Inserting `x` puts it after every element it ties with (those in `p`
      when `x` is), and leaves the order among the elements of `p` alone. */
  lemma {:induction false} InsertFilter<T>(s: seq<T>, x: T, gt: (T, T) -> bool, p: T -> bool)
    requires p(x) ==> forall k :: 0 <= k < |s| && p(s[k]) ==> !gt(s[k], x)
    ensures Filter(Insert(s, x, gt), p) == Filter(s, p) + (if p(x) then [x] else [])
  {
    if s == [] {
      assert Insert(s, x, gt) == [] + [x];
      FilterSnoc([], x, p);
    } else {
      var init := s[..|s| - 1];
      var last := s[|s| - 1];
      assert s == init + [last];
      if gt(last, x) {
        InsertFilter(init, x, gt, p);
        FilterSnoc(Insert(init, x, gt), last, p);
        FilterSnoc(init, last, p);
      } else {
        FilterSnoc(s, x, p);
      }
    }
  }

  /** `SortWith` is stable: among elements that never compare as greater
      than one another (the elements of `p`), the input order is kept. */
  lemma {:induction false} SortWithStable<T>(a: seq<T>, gt: (T, T) -> bool, p: T -> bool)
    requires forall i, j :: 0 <= i < |a| && 0 <= j < |a| && p(a[i]) && p(a[j]) ==> !gt(a[i], a[j])
    ensures Filter(SortWith(a, gt), p) == Filter(a, p)
  {
    if a != [] {
      var init := a[..|a| - 1];
      var last := a[|a| - 1];
      assert a == init + [last];
      SortWithStable(init, gt, p);
      var sorted := SortWith(init, gt);
      forall k | 0 <= k < |sorted| && p(sorted[k]) && p(last)
        ensures !gt(sorted[k], last)
      {
        assert sorted[k] in multiset(init);
        var i :| 0 <= i < |init| && init[i] == sorted[k];
        assert a[i] == sorted[k];
      }
      InsertFilter(sorted, last, gt, p);
      FilterSnoc(init, last, p);
    }
  }

  // ---------------------------------------------------------------------------
  // toIndex and calcIndex
  // ---------------------------------------------------------------------------

  /** `toIndex`: `true` is 1, `false` is -1, anything else is itself. */
  function ToIndex(v: Value): (r: Value)
    ensures v.Bool? ==> r == Num(if v.b then 1 else -1)
    ensures !v.Bool? ==> r == v
  {
    match v
    case Bool(b) => if b then Num(1) else Num(-1)
    case _ => v
  }

  /** What `toIndex` is for: a boolean compares exactly as 1 (`true`) or -1
      (`false`) would, against any value. */
  lemma BooleansCompareAsOneAndMinusOne(a: Value, b: Value, factor: Value)
    requires ToNumber(Factor(factor)).Some?
    ensures CalcIndex(a, b, factor) == CalcIndex(ToIndex(a), ToIndex(b), factor)
  {
  }

  /** Ascending (`1` or `true`) `false` sorts before `true`; descending
      (`-1` or `false`, which `toIndex` turns into -1) the other way round. */
  lemma FalseBeforeTrue()
    ensures Positive(CalcIndex(Bool(true), Bool(false), Num(1)))
    ensures Positive(CalcIndex(Bool(true), Bool(false), ToIndex(Bool(true))))
    ensures !Positive(CalcIndex(Bool(false), Bool(true), Num(1)))
    ensures Positive(CalcIndex(Bool(false), Bool(true), ToIndex(Bool(false))))
  {
  }

  /** `x * y` and `x - y` on numbers that may be `NaN` (`None`). */
  function Times(x: Option<int>, y: Option<int>): Option<int> {
    if x.Some? && y.Some? then Some(x.value * y.value) else None
  }

  function Minus(x: Option<int>, y: Option<int>): Option<int> {
    if x.Some? && y.Some? then Some(x.value - y.value) else None
  }

  /** The default parameter `factor = 1`: it replaces an `undefined`
      argument only. */
  function Factor(factor: Value): (f: Value)
    ensures factor.Undefined? ==> f == Num(1)
    ensures !factor.Undefined? ==> f == factor
  {
    if factor.Undefined? then Num(1) else factor
  }

  /** `calcIndex(a, b, factor = 1)`: 0 for strictly equal values; for two
      strings `factor` when `a > b` and `-factor` otherwise; for anything else
      `(toIndex(a) - toIndex(b)) * factor`.  `None` is `NaN`. */
  function CalcIndex(a: Value, b: Value, factor: Value): (r: Option<int>)
    ensures StrictEquals(a, b) ==> r == Some(0)
    ensures !StrictEquals(a, b) && a.Str? && b.Str? ==>
      r == Times(Some(if StrLess(b.s, a.s) then 1 else -1), ToNumber(Factor(factor)))
    ensures !(a.Str? && b.Str?) && !StrictEquals(a, b) ==>
      r == Times(Minus(ToNumber(ToIndex(a)), ToNumber(ToIndex(b))), ToNumber(Factor(factor)))
  {
    var f := Factor(factor);
    if StrictEquals(a, b) then Some(0)
    else if a.Str? && b.Str? then Times(ToNumber(ToIndex(Bool(GreaterThan(a, b)))), ToNumber(f))
    else Times(Minus(ToNumber(ToIndex(a)), ToNumber(ToIndex(b))), ToNumber(f))
  }

  /** A path the sort value does not hold sorts ascending, as `1` does. */
  lemma UndefinedFactorAscends(a: Value, b: Value)
    ensures CalcIndex(a, b, Undefined) == CalcIndex(a, b, Num(1))
    ensures a.Str? && b.Str? && StrLess(b.s, a.s) ==> Positive(CalcIndex(a, b, Undefined))
  {
    if a.Str? && b.Str? {
      StrLessTrichotomy(a.s, b.s);
    }
  }

  /** Two different strings compare in opposite directions. */
  lemma CalcIndexAntisymmetric(a: string, b: string, factor: Value)
    requires a != b && ToNumber(Factor(factor)).Some?
    ensures CalcIndex(Str(a), Str(b), factor).Some?
    ensures CalcIndex(Str(a), Str(b), factor).value == -CalcIndex(Str(b), Str(a), factor).value
  {
    StrLessTrichotomy(a, b);
  }

  /** The comparator result as `Array.prototype.sort` reads it. */
  predicate Positive(r: Option<int>) {
    r.Some? && r.value > 0
  }

  // ---------------------------------------------------------------------------
  // sortArray
  // ---------------------------------------------------------------------------

  /** One pass of `sortArray`: sort by the value at `prop`, in the direction
      `toIndex(find(sort, prop))`. */
  function ByPath(prop: string, sort: Value): (Value, Value) -> bool {
    (a: Value, b: Value) => Positive(CalcIndex(Find(a, prop), Find(b, prop), ToIndex(Find(sort, prop))))
  }

  function SortBy(arr: seq<Value>, prop: string, sort: Value): (r: seq<Value>)
    ensures multiset(r) == multiset(arr)
  {
    SortWith(arr, ByPath(prop, sort))
  }

  /** The passes of `forEach`, in the order given. */
  function Passes(arr: seq<Value>, props: seq<string>, sort: Value): (r: seq<Value>)
    ensures multiset(r) == multiset(arr)
    decreases |props|
  {
    if props == [] then arr else Passes(SortBy(arr, props[0], sort), props[1..], sort)
  }

  /** `sortArray(arr, sort)`, where `paths` is `obj2dot(sort)`: the dotted
      paths of the leaves of the sort specification, in key order.  One pass
      per path, last path first. */
  function SortArray(arr: seq<Value>, sort: Value, paths: seq<string>): (r: seq<Value>)
    ensures multiset(r) == multiset(arr)
  {
    Passes(arr, Reverse(paths), sort)
  }

  lemma {:induction false} PassesAppend(arr: seq<Value>, a: seq<string>, b: seq<string>, sort: Value)
    ensures Passes(arr, a + b, sort) == Passes(Passes(arr, a, sort), b, sort)
    decreases |a|
  {
    if a == [] {
      assert a + b == b;
    } else {
      assert (a + b)[0] == a[0] && (a + b)[1..] == a[1..] + b;
      PassesAppend(SortBy(arr, a[0], sort), a[1..], b, sort);
    }
  }

  lemma {:induction false} ReverseCons<T>(x: T, s: seq<T>)
    ensures Reverse([x] + s) == Reverse(s) + [x]
    decreases |s|
  {
    if s != [] {
      var t := [x] + s;
      assert t[..|t| - 1] == [x] + s[..|s| - 1];
      ReverseCons(x, s[..|s| - 1]);
    } else {
      assert [x] + s == [x];
      assert Reverse([x]) == [x] + Reverse([]);
    }
  }

  /** The first declared path is sorted by last, so it decides the final
      order; the later paths only break its ties. */
  lemma SortArrayFirstPathLast(arr: seq<Value>, sort: Value, paths: seq<string>)
    requires paths != []
    ensures SortArray(arr, sort, paths) == SortBy(SortArray(arr, sort, paths[1..]), paths[0], sort)
  {
    assert paths == [paths[0]] + paths[1..];
    ReverseCons(paths[0], paths[1..]);
    PassesAppend(arr, Reverse(paths[1..]), [paths[0]], sort);
    var mid := Passes(arr, Reverse(paths[1..]), sort);
    assert Passes(mid, [paths[0]], sort) == Passes(SortBy(mid, paths[0], sort), [], sort);
  }

  /** Later paths only break ties: entries that tie on the first declared
      path keep the order the passes for the other paths gave them. */
  lemma SortArrayTiesKeepOrder(arr: seq<Value>, sort: Value, paths: seq<string>, p: Value -> bool)
    requires paths != []
    requires forall x, y :: x in arr && y in arr && p(x) && p(y) ==> !ByPath(paths[0], sort)(x, y)
    ensures Filter(SortArray(arr, sort, paths), p) == Filter(SortArray(arr, sort, paths[1..]), p)
  {
    SortArrayFirstPathLast(arr, sort, paths);
    var mid := SortArray(arr, sort, paths[1..]);
    forall i, j | 0 <= i < |mid| && 0 <= j < |mid| && p(mid[i]) && p(mid[j])
      ensures !ByPath(paths[0], sort)(mid[i], mid[j])
    {
      assert mid[i] in multiset(arr) && mid[j] in multiset(arr);
    }
    SortWithStable(mid, ByPath(paths[0], sort), p);
  }

  /** When every entry holds a string at `prop` and the direction is a number,
      a pass orders consistently. */
  lemma StringPassIsTotalPreorder(arr: seq<Value>, prop: string, sort: Value)
    requires forall i :: 0 <= i < |arr| ==> Find(arr[i], prop).Str?
    requires ToNumber(Factor(ToIndex(Find(sort, prop)))).Some?
    ensures TotalPreorder(multiset(arr), ByPath(prop, sort))
  {
    var gt := ByPath(prop, sort);
    var f := ToNumber(Factor(ToIndex(Find(sort, prop)))).value;
    forall x, y | x in multiset(arr) && y in multiset(arr)
      ensures Find(x, prop).Str? && Find(y, prop).Str?
      ensures gt(x, y) <==> (f > 0 && StrLess(Find(y, prop).s, Find(x, prop).s)) || (f < 0 && StrLess(Find(x, prop).s, Find(y, prop).s))
    {
      var i :| 0 <= i < |arr| && arr[i] == x;
      var j :| 0 <= j < |arr| && arr[j] == y;
      StrLessTrichotomy(Find(x, prop).s, Find(y, prop).s);
      assert gt(x, y) == Positive(CalcIndex(Find(x, prop), Find(y, prop), ToIndex(Find(sort, prop))));
    }
    forall x, y, z | x in multiset(arr) && y in multiset(arr) && z in multiset(arr) && !gt(x, y) && !gt(y, z)
      ensures !gt(x, z)
    {
      var a, b, c := Find(x, prop).s, Find(y, prop).s, Find(z, prop).s;
      StrLessTrichotomy(a, b);
      StrLessTrichotomy(b, c);
      StrLessTrichotomy(a, c);
      if f > 0 && StrLess(c, a) {
        if StrLess(b, a) {
        } else if StrLess(c, b) {
        } else {
          assert (a == b || StrLess(a, b)) && (b == c || StrLess(b, c));
          if a != b && b != c { StrLessTransitive(a, b, c); }
        }
      }
      if f < 0 && StrLess(a, c) {
        if StrLess(a, b) {
        } else if StrLess(b, c) {
        } else {
          assert (a == b || StrLess(b, a)) && (b == c || StrLess(c, b));
          if a != b && b != c { StrLessTransitive(c, b, a); }
        }
      }
    }
    forall x, y | x in multiset(arr) && y in multiset(arr) && gt(x, y)
      ensures !gt(y, x)
    {
      StrLessTrichotomy(Find(x, prop).s, Find(y, prop).s);
    }
  }

  /** Sorting `{ name: 1 }` over entries that all have a string `name` puts
      the names in ascending order (descending for `-1`). */
  lemma SortArrayByStringPath(arr: seq<Value>, sort: Value, paths: seq<string>)
    requires paths != []
    requires forall i :: 0 <= i < |arr| ==> Find(arr[i], paths[0]).Str?
    requires ToNumber(Factor(ToIndex(Find(sort, paths[0])))).Some?
    ensures Sorted(SortArray(arr, sort, paths), ByPath(paths[0], sort))
  {
    SortArrayFirstPathLast(arr, sort, paths);
    var mid := SortArray(arr, sort, paths[1..]);
    forall i | 0 <= i < |mid|
      ensures Find(mid[i], paths[0]).Str?
    {
      assert mid[i] in multiset(arr);
    }
    StringPassIsTotalPreorder(mid, paths[0], sort);
    SortWithSorted(mid, ByPath(paths[0], sort));
  }
}
