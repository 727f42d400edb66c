/** The mirror at work on a live instance: path lookup as a search loop,
    typed get and set through the subscript, decoding that writes into the
    instance's storage in place, and encoding that builds fresh arrays and
    dictionaries. Each is proved equal to its specification in Paths and
    Codec. */
module Mirror {
  import opened Values
  import opened Paths
  import opened Codec

  /** `reflect(mirror:path:)`: search the children in order for the first
      segment and recurse into the first match with the rest of the path. */
  method Reflect(v: Value, path: seq<string>) returns (r: Result<Location>)
    ensures r == Resolve(v, path)
    decreases path
  {
    if path == [] {
      return Ok([]);
    }
    var target := path[0];
    var children := Children(v);
    var index := 0;
    while index < |children|
      invariant 0 <= index <= |children|
      invariant forall j :: 0 <= j < index ==> children[j].name != target
    {
      if children[index].name == target {
        assert FirstMatch(children, target) == Some(index);
        var sub := Reflect(children[index].value, path[1..]);
        match sub {
          case Err(e) =>
            return Err(e);
          case Ok(loc) =>
            return Ok([index] + loc);
        }
      }
      index := index + 1;
    }
    return Err(PathNotFound(target));
  }

  /** `encode(mirror:)`: builds the NSNumber, NSString, NSMutableArray or
      NSMutableDictionary for the storage `v`. */
  method EncodeValue(v: Value, env: Env) returns (r: DynamicValue)
    ensures r == Encode(v, env)
    decreases v
  {
    match v {
      case IntValue(i) =>
        return Number(i as real);
      case IntArray(xs) =>
        var encoded := [];
        for k := 0 to |xs|
          invariant encoded == seq(k, j requires 0 <= j < k => Number(xs[j] as real))
        {
          encoded := encoded + [Number(xs[k] as real)];
        }
        return Array(encoded);
      case DoubleValue(d) =>
        return Number(d);
      case DoubleArray(xs) =>
        var encoded := [];
        for k := 0 to |xs|
          invariant encoded == seq(k, j requires 0 <= j < k => Number(xs[j]))
        {
          encoded := encoded + [Number(xs[k])];
        }
        return Array(encoded);
      case StringValue(s) =>
        return Str(s);
      case StringArray(xs) =>
        var encoded := [];
        for k := 0 to |xs|
          invariant encoded == seq(k, j requires 0 <= j < k => Str(xs[j]))
        {
          encoded := encoded + [Str(xs[k])];
        }
        return Array(encoded);
      case ElementArray(e, items) =>
        var encoded := [];
        if Containable(env, e) {
          // decodeElements(from:into:)
          for k := 0 to |items|
            invariant encoded == seq(k, j requires 0 <= j < k => Encode(items[j], env))
          {
            var element := EncodeValue(items[k], env);
            encoded := encoded + [element];
          }
        }
        return Array(encoded);
      case DateValue(t) =>
        return Str(env.formatDate(t));
      case Composite(_, fs) =>
        ghost var entries := seq(|fs|, i requires 0 <= i < |fs| => (fs[i].name, Encode(fs[i].value, env)));
        var dict := map[];
        for i := 0 to |fs|
          invariant dict == Members(entries[..i])
        {
          assert entries[..i + 1][..i] == entries[..i];
          if fs[i].name == SuperKey {
            continue;
          }
          var member := EncodeValue(fs[i].value, env);
          dict := dict[fs[i].name := member];
        }
        assert entries[..|fs|] == entries;
        return Object(dict);
      case Opaque(_, _) =>
        return Object(map[]);
    }
  }

  /** An object whose stored properties the mirror reads and writes. */
  class Instance {
    var root: Value

    constructor (root: Value)
      ensures this.root == root
    {
      this.root := root;
    }

    /** `reflect(object:path:type:)`: resolve the dotted path, then insist
        that the field found has the requested type. */
    method ReflectTyped(path: string, t: Type) returns (r: Result<Location>)
      ensures r == Locate(root, path, t)
    {
      var found := Reflect(root, Split(path));
      if found.Err? {
        return Err(found.error);
      }
      var actual := TypeOf(At(root, found.value));
      if actual != t {
        return Err(TypeMismatch(actual, t));
      }
      return Ok(found.value);
    }

    /** The subscript getter `self[path, T.self]`. */
    method Get(path: string, t: Type) returns (r: Result<Value>)
      ensures r == Lookup(root, path, t)
      ensures r.Ok? ==> TypeOf(r.value) == t
    {
      var loc := ReflectTyped(path, t);
      if loc.Err? {
        return Err(loc.error);
      }
      return Ok(At(root, loc.value));
    }

    /** The subscript setter `self[path, T.self] = x`. */
    method Set(path: string, t: Type, x: Value) returns (r: Outcome)
      requires TypeOf(x) == t
      modifies this
      ensures Update(old(root), path, t, x).Ok? ==> r == Pass && root == Update(old(root), path, t, x).value
      ensures Update(old(root), path, t, x).Err? ==> r == Fail(Update(old(root), path, t, x).error) && root == old(root)
    {
      var loc := ReflectTyped(path, t);
      if loc.Err? {
        return Fail(loc.error);
      }
      root := ReplaceAt(root, loc.value, x);
      return Pass;
    }

    /** `decode(object:any:)`: decode a dynamic value into the whole object. */
    method Decode(any: DynamicValue, env: Env) returns (r: Outcome)
      modifies this
      ensures Codec.Decode(old(root), any, env).Ok? ==> r == Pass && root == Codec.Decode(old(root), any, env).value
      ensures Codec.Decode(old(root), any, env).Err? ==> r == Fail(Codec.Decode(old(root), any, env).error)
    {
      r := DecodeAt([], any, env);
    }

    /** `decode(mirror:any:)` on the field at `loc`, writing its storage in
        place: scalars are overwritten, scalar arrays are emptied and then
        refilled element by element, containable arrays are appended to, and
        a composite has each child that the object names decoded in turn. */
    method DecodeAt(loc: Location, any: DynamicValue, env: Env) returns (r: Outcome)
      requires ValidLoc(root, loc)
      modifies this
      ensures Codec.Decode(At(old(root), loc), any, env).Ok? ==>
        r == Pass && root == ReplaceAt(old(root), loc, Codec.Decode(At(old(root), loc), any, env).value)
      ensures Codec.Decode(At(old(root), loc), any, env).Err? ==>
        r == Fail(Codec.Decode(At(old(root), loc), any, env).error)
      decreases any, 2
    {
      var v := At(root, loc);
      match v {
        case IntArray(_) =>
          r := DecodeIntArray(loc, any, env);
        case DoubleArray(_) =>
          r := DecodeDoubleArray(loc, any, env);
        case StringArray(_) =>
          r := DecodeStringArray(loc, any, env);
        case ElementArray(e, _) =>
          if !Containable(env, e) {
            ReplaceAtSelf(root, loc);
            return Pass;
          }
          r := DecodeElements(loc, any, env);
        case Composite(_, fs) =>
          if |fs| == 0 || !any.Object? {
            ReplaceAtSelf(root, loc);
            return Pass;
          }
          r := DecodeFields(loc, v.typeName, fs, any.members, env);
        case Opaque(_, _) =>
          ReplaceAtSelf(root, loc);
          return Pass;
        case _ =>
          r := DecodeLeaf(loc, any, env);
      }
    }

    /** The leaf branches: an Int, a Double or a String is overwritten with
        the value cast from `any`, a Date with the date parsed from it. */
    method DecodeLeaf(loc: Location, any: DynamicValue, env: Env) returns (r: Outcome)
      requires ValidLoc(root, loc)
      requires At(root, loc).IntValue? || At(root, loc).DoubleValue? || At(root, loc).StringValue? || At(root, loc).DateValue?
      modifies this
      ensures Codec.Decode(At(old(root), loc), any, env).Ok? ==>
        r == Pass && root == ReplaceAt(old(root), loc, Codec.Decode(At(old(root), loc), any, env).value)
      ensures Codec.Decode(At(old(root), loc), any, env).Err? ==>
        r == Fail(Codec.Decode(At(old(root), loc), any, env).error)
    {
      match At(root, loc) {
        case IntValue(_) =>
          var n := AsNumber(any);
          if n.Err? {
            return Fail(n.error);
          }
          root := ReplaceAt(root, loc, IntValue(IntValueOf(n.value)));
          return Pass;
        case DoubleValue(_) =>
          var n := AsNumber(any);
          if n.Err? {
            return Fail(n.error);
          }
          root := ReplaceAt(root, loc, DoubleValue(n.value));
          return Pass;
        case StringValue(_) =>
          var s := AsString(any);
          if s.Err? {
            return Fail(s.error);
          }
          root := ReplaceAt(root, loc, StringValue(s.value));
          return Pass;
        case DateValue(_) =>
          var s := AsString(any);
          if s.Err? {
            return Fail(s.error);
          }
          var parsed := env.parseDate(s.value);
          if parsed.None? {
            return Fail(DateUnparsable(s.value));
          }
          root := ReplaceAt(root, loc, DateValue(parsed.value));
          return Pass;
      }
    }

    /** The `[Int]` branch: `removeAll()`, then one `append` per element. */
    method DecodeIntArray(loc: Location, any: DynamicValue, env: Env) returns (r: Outcome)
      requires ValidLoc(root, loc) && At(root, loc).IntArray?
      modifies this
      ensures Codec.Decode(At(old(root), loc), any, env).Ok? ==>
        r == Pass && root == ReplaceAt(old(root), loc, Codec.Decode(At(old(root), loc), any, env).value)
      ensures Codec.Decode(At(old(root), loc), any, env).Err? ==>
        r == Fail(Codec.Decode(At(old(root), loc), any, env).error)
    {
      root := ReplaceAt(root, loc, IntArray([]));
      var ds := AsArray(any);
      if ds.Err? {
        return Fail(ds.error);
      }
      var elements := ds.value;
      ghost var casts := NumberCasts(elements);
      ghost var done: seq<int> := [];
      var i := 0;
      while i < |elements|
        invariant 0 <= i <= |elements| && |done| == i
        invariant forall k :: 0 <= k < i ==> casts[k].Ok? && done[k] == IntValueOf(casts[k].value)
        invariant root == ReplaceAt(old(root), loc, IntArray(done))
      {
        var n := AsNumber(elements[i]);
        if n.Err? {
          CollectFirstErr(casts, i);
          return Fail(n.error);
        }
        var current := At(root, loc).ints;
        root := ReplaceAt(root, loc, IntArray(current + [IntValueOf(n.value)]));
        ReplaceAtTwice(old(root), loc, IntArray(done), IntArray(done + [IntValueOf(n.value)]));
        done := done + [IntValueOf(n.value)];
        i := i + 1;
      }
      assert Codec.Decode(At(old(root), loc), any, env).value.ints == done;
      return Pass;
    }

    /** The `[Double]` branch: `removeAll()`, then one `append` per element. */
    method DecodeDoubleArray(loc: Location, any: DynamicValue, env: Env) returns (r: Outcome)
      requires ValidLoc(root, loc) && At(root, loc).DoubleArray?
      modifies this
      ensures Codec.Decode(At(old(root), loc), any, env).Ok? ==>
        r == Pass && root == ReplaceAt(old(root), loc, Codec.Decode(At(old(root), loc), any, env).value)
      ensures Codec.Decode(At(old(root), loc), any, env).Err? ==>
        r == Fail(Codec.Decode(At(old(root), loc), any, env).error)
    {
      root := ReplaceAt(root, loc, DoubleArray([]));
      var ds := AsArray(any);
      if ds.Err? {
        return Fail(ds.error);
      }
      var elements := ds.value;
      ghost var casts := NumberCasts(elements);
      ghost var done: seq<real> := [];
      var i := 0;
      while i < |elements|
        invariant 0 <= i <= |elements| && |done| == i
        invariant forall k :: 0 <= k < i ==> casts[k] == Ok(done[k])
        invariant root == ReplaceAt(old(root), loc, DoubleArray(done))
      {
        var n := AsNumber(elements[i]);
        if n.Err? {
          CollectFirstErr(casts, i);
          return Fail(n.error);
        }
        var current := At(root, loc).doubles;
        root := ReplaceAt(root, loc, DoubleArray(current + [n.value]));
        ReplaceAtTwice(old(root), loc, DoubleArray(done), DoubleArray(done + [n.value]));
        assert casts[i] == n;
        CollectedOneMore(casts, done);
        done := done + [n.value];
        i := i + 1;
      }
      CollectAllOk(casts, done);
      return Pass;
    }

    /** The `[String]` branch: `removeAll()`, then one `append` per element. */
    method DecodeStringArray(loc: Location, any: DynamicValue, env: Env) returns (r: Outcome)
      requires ValidLoc(root, loc) && At(root, loc).StringArray?
      modifies this
      ensures Codec.Decode(At(old(root), loc), any, env).Ok? ==>
        r == Pass && root == ReplaceAt(old(root), loc, Codec.Decode(At(old(root), loc), any, env).value)
      ensures Codec.Decode(At(old(root), loc), any, env).Err? ==>
        r == Fail(Codec.Decode(At(old(root), loc), any, env).error)
    {
      root := ReplaceAt(root, loc, StringArray([]));
      var ds := AsArray(any);
      if ds.Err? {
        return Fail(ds.error);
      }
      var elements := ds.value;
      ghost var casts := StringCasts(elements);
      ghost var done: seq<string> := [];
      var i := 0;
      while i < |elements|
        invariant 0 <= i <= |elements| && |done| == i
        invariant forall k :: 0 <= k < i ==> casts[k] == Ok(done[k])
        invariant root == ReplaceAt(old(root), loc, StringArray(done))
      {
        var s := AsString(elements[i]);
        if s.Err? {
          CollectFirstErr(casts, i);
          return Fail(s.error);
        }
        var current := At(root, loc).strs;
        root := ReplaceAt(root, loc, StringArray(current + [s.value]));
        ReplaceAtTwice(old(root), loc, StringArray(done), StringArray(done + [s.value]));
        assert casts[i] == s;
        CollectedOneMore(casts, done);
        done := done + [s.value];
        i := i + 1;
      }
      CollectAllOk(casts, done);
      return Pass;
    }

    /** The branch for an array of a `TwoWayContainable` type: one
        `encodeElement(to:from:)` per element, with no `removeAll()`. */
    method DecodeElements(loc: Location, any: DynamicValue, env: Env) returns (r: Outcome)
      requires ValidLoc(root, loc) && At(root, loc).ElementArray? && Containable(env, At(root, loc).element)
      modifies this
      ensures Codec.Decode(At(old(root), loc), any, env).Ok? ==>
        r == Pass && root == ReplaceAt(old(root), loc, Codec.Decode(At(old(root), loc), any, env).value)
      ensures Codec.Decode(At(old(root), loc), any, env).Err? ==>
        r == Fail(Codec.Decode(At(old(root), loc), any, env).error)
      decreases any, 1
    {
      var e, items := At(root, loc).element, At(root, loc).items;
      var ds := AsArray(any);
      if ds.Err? {
        return Fail(ds.error);
      }
      var elements := ds.value;
      ghost var steps := ElementSteps(e, elements, env);
      ghost var added: seq<Value> := [];
      ReplaceAtSelf(root, loc);
      assert items + added == items;
      var i := 0;
      while i < |elements|
        invariant 0 <= i <= |elements| && |added| == i
        invariant forall k :: 0 <= k < i ==> steps[k] == Ok(added[k])
        invariant root == ReplaceAt(old(root), loc, ElementArray(e, items + added))
      {
        var o := AppendElement(loc, e, elements[i], env);
        if o.Fail? {
          CollectFirstErr(steps, i);
          return o;
        }
        ghost var w := Codec.Decode(env.defaults[e], elements[i], env).value;
        ReplaceAtTwice(old(root), loc, ElementArray(e, items + added), ElementArray(e, items + added + [w]));
        assert items + (added + [w]) == items + added + [w];
        assert steps[i] == Ok(w);
        CollectedOneMore(steps, added);
        added := added + [w];
        i := i + 1;
      }
      CollectAllOk(steps, added);
      return Pass;
    }

    /** `encodeElement(to:from:)`: decode into a fresh `T()` held by a
        separate object, then append it to the array at `loc`. */
    method AppendElement(loc: Location, e: ElementType, d: DynamicValue, env: Env) returns (r: Outcome)
      requires ValidLoc(root, loc) && At(root, loc).ElementArray? && At(root, loc).element == e
      requires Containable(env, e)
      modifies this
      ensures Codec.Decode(env.defaults[e], d, env).Ok? ==>
        && r == Pass
        && root == ReplaceAt(old(root), loc, ElementArray(e, At(old(root), loc).items + [Codec.Decode(env.defaults[e], d, env).value]))
      ensures Codec.Decode(env.defaults[e], d, env).Err? ==>
        r == Fail(Codec.Decode(env.defaults[e], d, env).error) && root == old(root)
      decreases d, 3
    {
      var holder := new Instance(env.defaults[e]);
      var o := holder.DecodeAt([], d, env);
      if o.Fail? {
        return o;
      }
      var current := At(root, loc).items;
      root := ReplaceAt(root, loc, ElementArray(e, current + [holder.root]));
      return Pass;
    }

    /** The composite branch: for each child in declaration order, decode it
        from the member of the same name, if there is one. */
    method DecodeFields(loc: Location, n: string, fs: seq<Field>, m: map<string, DynamicValue>, env: Env) returns (r: Outcome)
      requires ValidLoc(root, loc) && At(root, loc) == Composite(n, fs)
      modifies this
      ensures Collect(FieldSteps(fs, m, env)).Ok? ==>
        r == Pass && root == ReplaceAt(old(root), loc, Composite(n, Collect(FieldSteps(fs, m, env)).value))
      ensures Collect(FieldSteps(fs, m, env)).Err? ==>
        r == Fail(Collect(FieldSteps(fs, m, env)).error)
      decreases Object(m), 1
    {
      ghost var steps := FieldSteps(fs, m, env);
      ghost var done: seq<Field> := [];
      ReplaceAtSelf(root, loc);
      assert done + fs[0..] == fs;
      assert Collect(steps[..0]) == Ok(done);
      var index := 0;
      while index < |fs|
        invariant 0 <= index <= |fs| && |done| == index
        invariant Collect(steps[..index]) == Ok(done)
        invariant root == ReplaceAt(old(root), loc, Composite(n, done + fs[index..]))
      {
        var o := DecodeChild(loc, index, m, env, old(root), n, done, fs);
        if o.Fail? {
          CollectStops(steps, index);
          return o;
        }
        CollectSnoc(steps, index, done);
        done := done + [steps[index].value];
        index := index + 1;
      }
      assert steps[..|fs|] == steps;
      assert done + fs[|fs|..] == done;
      return Pass;
    }

    /** One turn of the composite loop, on a composite whose children
        before `index` are already decoded into `done`: child `index` is
        decoded from the member of the same name, if there is one. */
    method DecodeChild(loc: Location, index: nat, m: map<string, DynamicValue>, env: Env,
                       ghost base: Value, ghost n: string, ghost done: seq<Field>, ghost fs: seq<Field>)
      returns (r: Outcome)
      requires ValidLoc(base, loc) && index == |done| < |fs|
      requires root == ReplaceAt(base, loc, Composite(n, done + fs[index..]))
      modifies this
      ensures FieldSteps(fs, m, env)[index].Ok? ==>
        && r == Pass
        && root == ReplaceAt(base, loc, Composite(n, (done + [FieldSteps(fs, m, env)[index].value]) + fs[index + 1..]))
      ensures FieldSteps(fs, m, env)[index].Err? ==>
        r == Fail(FieldSteps(fs, m, env)[index].error)
      decreases Object(m), 0
    {
      var child := At(root, loc).fields[index];
      assert child == fs[index];
      FieldStep(fs, m, env, index);
      if child.name in m {
        AtChild(root, loc, index);
        var o := DecodeAt(loc + [index], m[child.name], env);
        if o.Fail? {
          return o;
        }
        ReplaceField(base, loc, n, done, fs, Codec.Decode(child.value, m[child.name], env).value);
      } else {
        MoveFirst(done, fs[index..]);
        assert fs[index..][1..] == fs[index + 1..];
      }
      return Pass;
    }
  }

  lemma MoveFirst<T>(a: seq<T>, b: seq<T>)
    requires |b| > 0
    ensures a + b == (a + [b[0]]) + b[1..]
  {
  }

  /** The step for a child that the object names is the decoding of that
      child from the member, its name kept; any other child stays as it is. */
  lemma FieldStep(fs: seq<Field>, m: map<string, DynamicValue>, env: Env, i: nat)
    requires i < |fs|
    ensures fs[i].name !in m ==> FieldSteps(fs, m, env)[i] == Ok(fs[i])
    ensures fs[i].name in m && Codec.Decode(fs[i].value, m[fs[i].name], env).Ok? ==>
      FieldSteps(fs, m, env)[i] == Ok(Field(fs[i].name, Codec.Decode(fs[i].value, m[fs[i].name], env).value))
    ensures fs[i].name in m && Codec.Decode(fs[i].value, m[fs[i].name], env).Err? ==>
      FieldSteps(fs, m, env)[i] == Err(Codec.Decode(fs[i].value, m[fs[i].name], env).error)
  {
  }

  /** Replacing the first element of `b` in `a + b`. */
  lemma UpdateFirst<T>(a: seq<T>, b: seq<T>, x: T)
    requires |b| > 0
    ensures (a + b)[|a| := x] == (a + [x]) + b[1..]
  {
  }

  /** Writing child `|done|` through its own location, once the children
      before it hold `done`, is writing the whole composite. */
  lemma ReplaceField(v: Value, loc: Location, n: string, done: seq<Field>, fs: seq<Field>, w: Value)
    requires ValidLoc(v, loc) && |done| < |fs|
    ensures var before := ReplaceAt(v, loc, Composite(n, done + fs[|done|..]));
      && ValidLoc(before, loc + [|done|])
      && ReplaceAt(before, loc + [|done|], w)
         == ReplaceAt(v, loc, Composite(n, (done + [Field(fs[|done|].name, w)]) + fs[|done| + 1..]))
  {
    var i := |done|;
    var c := Composite(n, done + fs[i..]);
    var before := ReplaceAt(v, loc, c);
    ReplaceAtChild(before, loc, i, w);
    ReplaceAtTwice(v, loc, c, WithField(c, i, w));
    UpdateFirst(done, fs[i..], Field(fs[i].name, w));
    assert fs[i..][1..] == fs[i + 1..];
  }
}
