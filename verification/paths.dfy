/** Dotted field paths (`"address.zip"`) and the helpers that read and build
    nested values along them: `String.prototype.split('.')`, the dotted-path
    lookups of lodash `get` and `Utils.find`, and `pathToObj` of the bundle.
 */
module Paths {
  import opened JsValues

  /** `s.split(sep)` for a one-character separator: the pieces between the
      separators, empty pieces included. */
  function Split(s: string, sep: char): (parts: seq<string>)
    ensures |parts| >= 1
    ensures forall i :: 0 <= i < |parts| ==> sep !in parts[i]
  {
    if s == [] then [""]
    else
      var rest := Split(s[1..], sep);
      if s[0] == sep then [""] + rest
      else [[s[0]] + rest[0]] + rest[1..]
  }

  /** Splitting and joining again gives back the path. */
  lemma {:induction false} JoinSplit(s: string, sep: char)
    ensures Join(Split(s, sep), [sep]) == s
  {
    if s != [] {
      var rest := Split(s[1..], sep);
      JoinSplit(s[1..], sep);
      if s[0] == sep {
        assert Split(s, sep)[1..] == rest;
      } else {
        var parts := Split(s, sep);
        if |rest| == 1 {
          assert parts == [[s[0]] + rest[0]];
        } else {
          assert parts[1..] == rest[1..];
          assert Join(rest, [sep]) == rest[0] + [sep] + Join(rest[1..], [sep]);
        }
      }
    }
  }

  /** Joining separator-free pieces and splitting again gives back the pieces. */
  lemma {:induction false} SplitJoin(parts: seq<string>, sep: char)
    requires |parts| >= 1
    requires forall i :: 0 <= i < |parts| ==> sep !in parts[i]
    ensures Split(Join(parts, [sep]), sep) == parts
  {
    if |parts| == 1 {
      SplitPiece(parts[0], [], sep);
      assert parts[0] + [] == parts[0];
      assert parts == [parts[0]];
      assert parts[0] + "" == parts[0];
    } else {
      var tail := [sep] + Join(parts[1..], [sep]);
      SplitJoin(parts[1..], sep);
      SplitPiece(parts[0], tail, sep);
      assert Join(parts, [sep]) == parts[0] + tail;
      assert tail[1..] == Join(parts[1..], [sep]);
      assert Split(tail, sep) == [""] + parts[1..];
      assert parts == [parts[0]] + parts[1..];
      assert parts[0] + "" == parts[0];
    }
  }

  /** A separator-free prefix glues onto the first piece of what follows it. */
  lemma {:induction false} SplitPiece(piece: string, tail: string, sep: char)
    requires sep !in piece
    ensures var t := Split(tail, sep);
      Split(piece + tail, sep) == (if piece == [] then t else [piece + t[0]] + t[1..])
  {
    if piece != [] {
      var t := Split(tail, sep);
      assert (piece + tail)[1..] == piece[1..] + tail;
      assert (piece + tail)[0] == piece[0] && piece[0] != sep;
      SplitPiece(piece[1..], tail, sep);
      var rest := Split(piece[1..] + tail, sep);
      assert Split(piece + tail, sep) == [[piece[0]] + rest[0]] + rest[1..];
      if piece[1..] == [] {
        assert piece == [piece[0]];
        assert rest == t;
      } else {
        assert rest[0] == piece[1..] + t[0];
        assert rest[1..] == t[1..];
        assert [piece[0]] + (piece[1..] + t[0]) == piece + t[0];
      }
    } else {
      assert piece + tail == tail;
    }
  }

  /** The path segments of a dotted path. */
  function Segments(path: string): seq<string> {
    Split(path, '.')
  }

  /** A path without a dot is a single segment, so `Find` reads it as a plain
      property name. */
  lemma PlainSegments(path: string)
    requires '.' !in path
    ensures Segments(path) == [path]
  {
    SplitPiece(path, "", '.');
    assert path + "" == path;
  }

  /** Reading along literal segments, yielding `undefined` as soon as a step
      finds nothing: lodash `get(obj, [s1, s2, ...])`. */
  function GetIn(v: Value, segs: seq<string>): Value
    decreases segs
  {
    if segs == [] then v else GetIn(SafeGet(v, segs[0]), segs[1..])
  }

  /** Reading a dotted path: lodash `get(obj, 'a.b')` and duckfficer's
      `Utils.find(obj, 'a.b')`.  Bracket notation is not modelled. */
  function Find(v: Value, path: string): Value {
    GetIn(v, Segments(path))
  }

  /** `pathToObj` folds over the reversed segments, wrapping the value in one
      single-key object per segment (dist/duck-storage.js). */
  function WrapAll(reversed: seq<string>, v: Value): Value {
    if reversed == [] then v else WrapAll(reversed[1..], Obj([Prop(reversed[0], v)]))
  }

  /** `Array.prototype.reverse`. */
  function Reverse<T>(s: seq<T>): seq<T> {
    if s == [] then [] else [s[|s| - 1]] + Reverse(s[..|s| - 1])
  }

  function PathToObj(path: string, v: Value): Value {
    WrapAll(Reverse(Segments(path)), v)
  }

  /** Nesting from the outside in: one single-key object per segment. */
  function Nest(segs: seq<string>, v: Value): Value {
    if segs == [] then v else Obj([Prop(segs[0], Nest(segs[1..], v))])
  }

  lemma {:induction false} WrapAllIsNest(segs: seq<string>, inner: seq<string>, v: Value)
    ensures WrapAll(Reverse(segs), Nest(inner, v)) == Nest(segs + inner, v)
  {
    if segs != [] {
      var last := segs[|segs| - 1];
      var init := segs[..|segs| - 1];
      var rev := Reverse(segs);
      assert rev == [last] + Reverse(init);
      assert rev[0] == last && rev[1..] == Reverse(init);
      assert WrapAll(rev, Nest(inner, v)) == WrapAll(Reverse(init), Obj([Prop(last, Nest(inner, v))]));
      var li := [last] + inner;
      assert li[0] == last && li[1..] == inner;
      assert Obj([Prop(last, Nest(inner, v))]) == Nest(li, v);
      WrapAllIsNest(init, li, v);
      assert init + li == segs + inner;
    } else {
      assert segs + inner == inner;
    }
  }

  /** `pathToObj("a.b.c", v)` is `{ a: { b: { c: v } } }`. */
  lemma PathToObjNests(path: string, v: Value)
    ensures PathToObj(path, v) == Nest(Segments(path), v)
  {
    WrapAllIsNest(Segments(path), [], v);
    assert Segments(path) + [] == Segments(path);
  }

  /** Reading the path back out of the object it built gives the value. */
  lemma {:induction false} GetInNest(segs: seq<string>, v: Value)
    ensures GetIn(Nest(segs, v), segs) == v
  {
    if segs != [] {
      GetInNest(segs[1..], v);
    }
  }

  lemma PathToObjRoundTrip(path: string, v: Value)
    ensures Find(PathToObj(path, v), path) == v
  {
    PathToObjNests(path, v);
    GetInNest(Segments(path), v);
  }
}
