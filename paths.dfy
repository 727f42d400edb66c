/** Field locations inside an instance, dotted-path resolution, and the typed
    single-field accessor built on it (`reflect(mirror:path:)`,
    `reflect(object:path:type:)` and the `SubScriptReflectable` subscript). */
module Paths {
  import opened Values

  /** A field's storage, named by the child index taken at each level from
      the root: the model's stand-in for the raw `ptr` of a `TwoWayMirror`. */
  type Location = seq<nat>

  predicate ValidLoc(v: Value, loc: Location)
    decreases loc
  {
    loc == [] || (v.Composite? && loc[0] < |v.fields| && ValidLoc(v.fields[loc[0]].value, loc[1..]))
  }

  /** The storage `loc` points at (`ptr.pointee`). */
  function At(v: Value, loc: Location): Value
    requires ValidLoc(v, loc)
    decreases loc
  {
    if loc == [] then v else At(v.fields[loc[0]].value, loc[1..])
  }

  /** Field `i` of composite `c` overwritten with `x`, its name kept. */
  function WithField(c: Value, i: nat, x: Value): Value
    requires c.Composite? && i < |c.fields|
  {
    Composite(c.typeName, c.fields[i := Field(c.fields[i].name, x)])
  }

  /** The instance after `ptr.pointee = w` through the location `loc`. */
  function ReplaceAt(v: Value, loc: Location, w: Value): (r: Value)
    requires ValidLoc(v, loc)
    ensures ValidLoc(r, loc) && At(r, loc) == w
    decreases loc
  {
    if loc == [] then w
    else WithField(v, loc[0], ReplaceAt(v.fields[loc[0]].value, loc[1..], w))
  }

  /** A write below the root keeps the root's type and its children's
      names, and changes no child except the one on the way down. */
  lemma ReplaceAtShape(v: Value, loc: Location, w: Value)
    requires ValidLoc(v, loc) && loc != []
    ensures var r := ReplaceAt(v, loc, w);
      && r.Composite? && r.typeName == v.typeName && |r.fields| == |v.fields|
      && (forall k :: 0 <= k < |v.fields| ==> r.fields[k].name == v.fields[k].name)
      && (forall k :: 0 <= k < |v.fields| && k != loc[0] ==> r.fields[k] == v.fields[k])
  {
  }

  /** Stepping into child `i` of the composite at `loc`. */
  lemma {:induction false} AtChild(v: Value, loc: Location, i: nat)
    requires ValidLoc(v, loc) && At(v, loc).Composite? && i < |At(v, loc).fields|
    ensures ValidLoc(v, loc + [i]) && At(v, loc + [i]) == At(v, loc).fields[i].value
    decreases loc
  {
    if loc != [] {
      assert (loc + [i])[1..] == loc[1..] + [i];
      AtChild(v.fields[loc[0]].value, loc[1..], i);
    }
  }

  /** Writing child `i` of the composite at `loc` is writing that composite
      with one field changed. */
  lemma {:induction false} ReplaceAtChild(v: Value, loc: Location, i: nat, x: Value)
    requires ValidLoc(v, loc) && At(v, loc).Composite? && i < |At(v, loc).fields|
    ensures ValidLoc(v, loc + [i])
    ensures ReplaceAt(v, loc + [i], x) == ReplaceAt(v, loc, WithField(At(v, loc), i, x))
    decreases loc
  {
    AtChild(v, loc, i);
    if loc != [] {
      assert (loc + [i])[1..] == loc[1..] + [i];
      ReplaceAtChild(v.fields[loc[0]].value, loc[1..], i, x);
    }
  }

  /** Writing back what a location holds changes nothing. */
  lemma {:induction false} ReplaceAtSelf(v: Value, loc: Location)
    requires ValidLoc(v, loc)
    ensures ReplaceAt(v, loc, At(v, loc)) == v
    decreases loc
  {
    if loc != [] {
      ReplaceAtSelf(v.fields[loc[0]].value, loc[1..]);
      assert v.fields[loc[0] := Field(v.fields[loc[0]].name, v.fields[loc[0]].value)] == v.fields;
    }
  }

  /** A second write through the same location wins. */
  lemma {:induction false} ReplaceAtTwice(v: Value, loc: Location, a: Value, b: Value)
    requires ValidLoc(v, loc)
    ensures ReplaceAt(ReplaceAt(v, loc, a), loc, b) == ReplaceAt(v, loc, b)
    decreases loc
  {
    if loc != [] {
      ReplaceAtTwice(v.fields[loc[0]].value, loc[1..], a, b);
    }
  }

  /** A write through `loc` leaves every location that is neither above nor
      below it as it was. */
  lemma {:induction false} ReplaceAtElsewhere(v: Value, loc: Location, w: Value, other: Location)
    requires ValidLoc(v, loc) && ValidLoc(v, other)
    requires !(loc <= other) && !(other <= loc)
    ensures ValidLoc(ReplaceAt(v, loc, w), other)
    ensures At(ReplaceAt(v, loc, w), other) == At(v, other)
    decreases loc
  {
    var r := ReplaceAt(v, loc, w);
    if loc[0] == other[0] {
      ReplaceAtElsewhere(v.fields[loc[0]].value, loc[1..], w, other[1..]);
    } else {
      assert r.fields[other[0]] == v.fields[other[0]];
    }
  }

  /** `path.components(separatedBy: ".")`: every piece between dots, so
      "" gives [""] and "a..b" gives ["a", "", "b"]. */
  function Split(s: string): (segs: seq<string>)
    ensures |segs| >= 1
    ensures forall k :: 0 <= k < |segs| ==> '.' !in segs[k]
  {
    if s == [] then [""]
    else
      var rest := Split(s[1..]);
      if s[0] == '.' then [""] + rest else [[s[0]] + rest[0]] + rest[1..]
  }

  /** The dotted string a path of segments is written as. */
  function Join(segs: seq<string>): string
  {
    if segs == [] then ""
    else if |segs| == 1 then segs[0]
    else segs[0] + "." + Join(segs[1..])
  }

  lemma {:induction false} JoinSplit(s: string)
    ensures Join(Split(s)) == s
  {
    if s != [] {
      JoinSplit(s[1..]);
      var rest := Split(s[1..]);
      if s[0] == '.' {
        assert s == "." + s[1..];
      } else if |rest| == 1 {
        assert s == [s[0]] + s[1..];
      } else {
        assert Join(rest) == rest[0] + "." + Join(rest[1..]);
        assert s == [s[0]] + s[1..];
      }
    }
  }

  lemma {:induction false} SplitDotless(a: string, t: string)
    requires '.' !in a
    ensures Split(a + t) == [a + Split(t)[0]] + Split(t)[1..]
  {
    if a != [] {
      assert (a + t)[1..] == a[1..] + t;
      SplitDotless(a[1..], t);
      assert [a[0]] + (a[1..] + Split(t)[0]) == a + Split(t)[0];
    } else {
      assert a + t == t && a + Split(t)[0] == Split(t)[0];
      assert Split(t) == [Split(t)[0]] + Split(t)[1..];
    }
  }

  lemma {:induction false} SplitJoin(segs: seq<string>)
    requires |segs| >= 1
    requires forall k :: 0 <= k < |segs| ==> '.' !in segs[k]
    ensures Split(Join(segs)) == segs
  {
    if |segs| == 1 {
      SplitDotless(segs[0], "");
      assert segs[0] + "" == segs[0];
    } else {
      SplitJoin(segs[1..]);
      var t := "." + Join(segs[1..]);
      assert segs[0] + "." + Join(segs[1..]) == segs[0] + t;
      SplitDotless(segs[0], t);
      assert t[1..] == Join(segs[1..]);
      assert Split(t) == [""] + segs[1..];
      assert segs[0] + "" == segs[0];
      assert segs == [segs[0]] + segs[1..];
    }
  }

  /** The children a mirror lists: the fields of a composite, none otherwise. */
  function Children(v: Value): seq<Field> {
    if v.Composite? then v.fields else []
  }

  /** The first child named `name`, in declaration order. */
  function FirstMatch(fields: seq<Field>, name: string): (r: Option<nat>)
    ensures r.Some? ==> r.value < |fields| && fields[r.value].name == name
    ensures r.Some? ==> forall j :: 0 <= j < r.value ==> fields[j].name != name
    ensures r.None? ==> forall j :: 0 <= j < |fields| ==> fields[j].name != name
  {
    if fields == [] then None
    else if fields[0].name == name then Some(0)
    else
      match FirstMatch(fields[1..], name)
      case None => None
      case Some(k) => Some(k + 1)
  }

  /** `loc` spells `path` and takes, at every level, the first child of
      that name. */
  predicate FirstMatchWalk(v: Value, loc: Location, path: seq<string>)
    requires ValidLoc(v, loc)
    decreases loc
  {
    && |loc| == |path|
    && (loc != [] ==>
          && v.fields[loc[0]].name == path[0]
          && (forall j :: 0 <= j < loc[0] ==> v.fields[j].name != path[0])
          && FirstMatchWalk(v.fields[loc[0]].value, loc[1..], path[1..]))
  }

  /** `reflect(mirror:path:)`: the root for an empty path; otherwise the
      first child named like the first segment, and the rest of the path
      inside it; a segment that names no child is `PathNotFound`. */
  function Resolve(v: Value, path: seq<string>): (r: Result<Location>)
    ensures r.Ok? ==> ValidLoc(v, r.value) && FirstMatchWalk(v, r.value, path)
    ensures r.Err? ==> exists k :: 0 <= k < |path| && r.error == PathNotFound(path[k])
    decreases path
  {
    if path == [] then Ok([])
    else
      match FirstMatch(Children(v), path[0])
      case None => Err(PathNotFound(path[0]))
      case Some(i) =>
        match Resolve(v.fields[i].value, path[1..])
        case Err(e) =>
          ghost var k :| 0 <= k < |path[1..]| && e == PathNotFound(path[1..][k]);
          assert path[1..][k] == path[k + 1];
          Err(e)
        case Ok(loc) =>
          assert ([i] + loc)[1..] == loc;
          Ok([i] + loc)
  }

  /** Resolution finds the first-match walk whenever one exists, so with
      the ensures of Resolve: it fails exactly when there is none. */
  lemma {:induction false} ResolveComplete(v: Value, loc: Location, path: seq<string>)
    requires ValidLoc(v, loc) && FirstMatchWalk(v, loc, path)
    ensures Resolve(v, path) == Ok(loc)
    decreases loc
  {
    if loc != [] {
      assert FirstMatch(Children(v), path[0]) == Some(loc[0]);
      ResolveComplete(v.fields[loc[0]].value, loc[1..], path[1..]);
      assert [loc[0]] + loc[1..] == loc;
    }
  }

  /** A write through `loc` does not change how any path resolves, unless
      the path reaches below `loc` (where the new value decides). */
  lemma {:induction false} ResolveAfterReplace(v: Value, path: seq<string>, loc: Location, w: Value)
    requires ValidLoc(v, loc) && Resolve(v, path).Ok?
    requires !(loc < Resolve(v, path).value)
    ensures Resolve(ReplaceAt(v, loc, w), path) == Resolve(v, path)
    decreases path
  {
    var target := Resolve(v, path).value;
    if path != [] {
      var r := ReplaceAt(v, loc, w);
      assert loc != [];
      ReplaceAtShape(v, loc, w);
      var i := target[0];
      assert FirstMatch(Children(r), path[0]) == Some(i);
      if loc[0] == i {
        ResolveAfterReplace(v.fields[i].value, path[1..], loc[1..], w);
      } else {
        assert r.fields[i] == v.fields[i];
      }
    }
  }

  /** First match wins, with no backtracking: with two children named "a",
      the path a.y is looked up in the first only and fails, although the
      second has a child named "y". */
  lemma FirstMatchShadows()
    ensures
      var inner1 := Composite("A", [Field("x", IntValue(1))]);
      var inner2 := Composite("B", [Field("y", IntValue(2))]);
      var v := Composite("C", [Field("a", inner1), Field("a", inner2)]);
      && Resolve(v, ["a", "y"]) == Err(PathNotFound("y"))
      && ValidLoc(v, [1, 0]) && At(v, [1, 0]) == IntValue(2)
  {
    var inner1 := Composite("A", [Field("x", IntValue(1))]);
    var inner2 := Composite("B", [Field("y", IntValue(2))]);
    var v := Composite("C", [Field("a", inner1), Field("a", inner2)]);
    assert FirstMatch(Children(v), "a") == Some(0);
    assert FirstMatch(Children(inner1), "y") == None;
  }

  /** `reflect(object:path:type:)`: the location of `path`, provided the
      field there has exactly the requested type. */
  function Locate(root: Value, path: string, t: Type): (r: Result<Location>)
    ensures r.Ok? ==> ValidLoc(root, r.value) && TypeOf(At(root, r.value)) == t
    ensures r.Ok? <==> Resolve(root, Split(path)).Ok? && TypeOf(At(root, Resolve(root, Split(path)).value)) == t
  {
    match Resolve(root, Split(path))
    case Err(e) => Err(e)
    case Ok(loc) =>
      var actual := TypeOf(At(root, loc));
      if actual == t then Ok(loc) else Err(TypeMismatch(actual, t))
  }

  /** The subscript getter `object[path, T.self]`. */
  function Lookup(root: Value, path: string, t: Type): (r: Result<Value>)
    ensures r.Ok? ==> TypeOf(r.value) == t
    ensures r.Err? ==> r.error.PathNotFound? || (r.error.TypeMismatch? && r.error.requested == t && r.error.actual != t)
  {
    match Locate(root, path, t)
    case Err(e) => Err(e)
    case Ok(loc) => Ok(At(root, loc))
  }

  /** The subscript setter `object[path, T.self] = x`. */
  function Update(root: Value, path: string, t: Type, x: Value): (r: Result<Value>)
    ensures r.Ok? <==> Locate(root, path, t).Ok?
    ensures r.Ok? ==> ValidLoc(r.value, Locate(root, path, t).value) && At(r.value, Locate(root, path, t).value) == x
    ensures r.Err? ==> r.error == Locate(root, path, t).error
  {
    match Locate(root, path, t)
    case Err(e) => Err(e)
    case Ok(loc) => Ok(ReplaceAt(root, loc, x))
  }

  /** Typed access never coerces: asking for any type other than the
      field's own fails with `TypeMismatch`, and asking for the field's own
      type succeeds. */
  lemma LookupNoCoercion(root: Value, path: string, t: Type)
    requires Resolve(root, Split(path)).Ok?
    ensures var actual := TypeOf(At(root, Resolve(root, Split(path)).value));
      && (t != actual ==> Lookup(root, path, t) == Err(TypeMismatch(actual, t)))
      && (t == actual ==> Lookup(root, path, t).Ok?)
  {
  }

  /** The setter succeeds exactly when the getter at the same path and type
      does, and a get after a set returns the value written. */
  lemma {:induction false} UpdateThenLookup(root: Value, path: string, t: Type, x: Value)
    requires TypeOf(x) == t
    ensures Update(root, path, t, x).Ok? <==> Lookup(root, path, t).Ok?
    ensures Update(root, path, t, x).Ok? ==> Lookup(Update(root, path, t, x).value, path, t) == Ok(x)
  {
    if Locate(root, path, t).Ok? {
      var loc := Locate(root, path, t).value;
      ResolveAfterReplace(root, Split(path), loc, x);
    }
  }

  /** A set changes no field that is neither above nor below the one it
      writes: a get of such a field returns what it returned before. */
  lemma {:induction false} UpdateElsewhere(root: Value, path: string, t: Type, x: Value, other: string, u: Type)
    requires TypeOf(x) == t
    requires Locate(root, path, t).Ok? && Locate(root, other, u).Ok?
    requires var loc := Locate(root, path, t).value; var loc2 := Locate(root, other, u).value;
      !(loc <= loc2) && !(loc2 <= loc)
    ensures Lookup(Update(root, path, t, x).value, other, u) == Lookup(root, other, u)
  {
    var loc := Locate(root, path, t).value;
    var loc2 := Locate(root, other, u).value;
    ResolveAfterReplace(root, Split(other), loc, x);
    ReplaceAtElsewhere(root, loc, x, loc2);
  }
}
