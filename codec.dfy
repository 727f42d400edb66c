/** The recursive encoder and decoder between an instance's storage and the
    dynamic value tree (`encode(mirror:)`, `decode(mirror:any:)`, and the
    `TwoWayContainable` element hooks), as functions of the values involved. */
module Codec {
  import opened Values

  /** The key under which a class mirror lists its superclass storage;
      the encoder leaves it out of the object it builds. */
  const SuperKey: string := "super"

  /** `as! NSNumber` applied to every element of an array, in order. */
  function NumberCasts(ds: seq<DynamicValue>): (rs: seq<Result<real>>)
    ensures |rs| == |ds|
  {
    seq(|ds|, k requires 0 <= k < |ds| => AsNumber(ds[k]))
  }

  /** `as! String` applied to every element of an array, in order. */
  function StringCasts(ds: seq<DynamicValue>): (rs: seq<Result<string>>)
    ensures |rs| == |ds|
  {
    seq(|ds|, k requires 0 <= k < |ds| => AsString(ds[k]))
  }

  /** `encodeElement(to:from:)` for every element of an array: each decoded
      into a fresh `t()`. */
  function ElementSteps(t: Type, ds: seq<DynamicValue>, env: Env): (rs: seq<Result<Value>>)
    requires Containable(env, t)
    ensures |rs| == |ds|
    decreases Array(ds), 0
  {
    seq(|ds|, k requires 0 <= k < |ds| => Decode(env.defaults[t], ds[k], env))
  }

  /** Every element that decodes has the type of the default instance,
      which is the element type itself when the defaults are well formed. */
  lemma ElementStepsTyped(t: Type, ds: seq<DynamicValue>, env: Env)
    requires Containable(env, t)
    ensures forall k :: 0 <= k < |ds| && ElementSteps(t, ds, env)[k].Ok? ==>
      TypeOf(ElementSteps(t, ds, env)[k].value) == TypeOf(env.defaults[t])
    ensures WellFormed(env) ==> forall k :: 0 <= k < |ds| && ElementSteps(t, ds, env)[k].Ok? ==>
      TypeOf(ElementSteps(t, ds, env)[k].value) == t
  {
  }

  /** The body of the composite loop of `decode(mirror:any:)` for each
      child: decoded from the member of the same name when there is one,
      left as it is otherwise. */
  function FieldSteps(fs: seq<Field>, m: map<string, DynamicValue>, env: Env): (rs: seq<Result<Field>>)
    ensures |rs| == |fs|
    ensures forall i :: 0 <= i < |fs| && rs[i].Ok? ==> rs[i].value.name == fs[i].name
    ensures forall i :: 0 <= i < |fs| && fs[i].name !in m ==> rs[i] == Ok(fs[i])
    decreases Object(m), 0
  {
    seq(|fs|, i requires 0 <= i < |fs| =>
      if fs[i].name !in m then Ok(fs[i])
      else
        match Decode(fs[i].value, m[fs[i].name], env)
        case Err(e) => Err(e)
        case Ok(w) => Ok(Field(fs[i].name, w)))
  }

  /** `decode(mirror:any:)`: the storage `v` after decoding `any` into it,
      dispatching on the field's type in the source's order: Int, [Int],
      Double, [Double], String, [String], any other array, Date, and last
      a type with children; a type without children is left as it is. A
      failing forced cast is an error. */
  function Decode(v: Value, any: DynamicValue, env: Env): (r: Result<Value>)
    ensures r.Ok? ==> TypeOf(r.value) == TypeOf(v)
    ensures r.Ok? && v.Opaque? ==> r.value == v
    ensures r.Ok? && v.Composite? ==>
      && r.value.Composite?
      && |r.value.fields| == |v.fields|
      && forall i :: 0 <= i < |v.fields| ==> r.value.fields[i].name == v.fields[i].name
    decreases any, 1
  {
    match v
    case IntValue(_) =>
      (match AsNumber(any)
       case Err(e) => Err(e)
       case Ok(n) => Ok(IntValue(IntValueOf(n))))
    case IntArray(_) =>
      (match AsArray(any)
       case Err(e) => Err(e)
       case Ok(ds) =>
         match Collect(NumberCasts(ds))
         case Err(e) => Err(e)
         case Ok(ns) => Ok(IntArray(seq(|ns|, k requires 0 <= k < |ns| => IntValueOf(ns[k])))))
    case DoubleValue(_) =>
      (match AsNumber(any)
       case Err(e) => Err(e)
       case Ok(n) => Ok(DoubleValue(n)))
    case DoubleArray(_) =>
      (match AsArray(any)
       case Err(e) => Err(e)
       case Ok(ds) =>
         match Collect(NumberCasts(ds))
         case Err(e) => Err(e)
         case Ok(ns) => Ok(DoubleArray(ns)))
    case StringValue(_) =>
      (match AsString(any)
       case Err(e) => Err(e)
       case Ok(s) => Ok(StringValue(s)))
    case StringArray(_) =>
      (match AsArray(any)
       case Err(e) => Err(e)
       case Ok(ds) =>
         match Collect(StringCasts(ds))
         case Err(e) => Err(e)
         case Ok(ss) => Ok(StringArray(ss)))
    case ElementArray(e, items) =>
      if !Containable(env, e) then Ok(v)
      else
        (match AsArray(any)
         case Err(er) => Err(er)
         case Ok(ds) =>
           match Collect(ElementSteps(e, ds, env))
           case Err(er) => Err(er)
           case Ok(added) => Ok(ElementArray(e, items + added)))
    case DateValue(_) =>
      (match AsString(any)
       case Err(e) => Err(e)
       case Ok(s) =>
         match env.parseDate(s)
         case None => Err(DateUnparsable(s))
         case Some(t) => Ok(DateValue(t)))
    case Composite(n, fs) =>
      if |fs| == 0 || !any.Object? then Ok(v)
      else
        (match Collect(FieldSteps(fs, any.members, env))
         case Err(e) => Err(e)
         case Ok(nfs) => Ok(Composite(n, nfs)))
    case Opaque(_, _) => Ok(v)
  }

  /** The NSMutableDictionary built by assigning `dict[name] = value` for
      each entry in turn, skipping the key "super": a later entry of the same
      name overwrites an earlier one. */
  function Members(entries: seq<(string, DynamicValue)>): (m: map<string, DynamicValue>)
    ensures SuperKey !in m
    ensures forall k :: k in m ==> exists i :: 0 <= i < |entries| && entries[i] == (k, m[k])
  {
    if entries == [] then map[]
    else
      var last := entries[|entries| - 1];
      var m := Members(entries[..|entries| - 1]);
      if last.0 == SuperKey then m else m[last.0 := last.1]
  }

  /** `encode(mirror:)`: the dynamic value of the storage `v`, in the same
      dispatch order as Decode. An array of a type that is not containable
      encodes as an empty array; a type with no children, opaque or not, as
      an empty object. */
  function Encode(v: Value, env: Env): (r: DynamicValue)
    ensures r.Number? <==> v.IntValue? || v.DoubleValue?
    ensures r.Str? <==> v.StringValue? || v.DateValue?
    ensures r.Array? <==> v.IntArray? || v.DoubleArray? || v.StringArray? || v.ElementArray?
    ensures r.Object? <==> v.Composite? || v.Opaque?
    ensures v.Opaque? ==> r == Object(map[])
    ensures v.IntArray? ==> |r.elements| == |v.ints|
    ensures v.DoubleArray? ==> |r.elements| == |v.doubles|
    ensures v.StringArray? ==> |r.elements| == |v.strs|
    ensures v.ElementArray? ==> |r.elements| == if Containable(env, v.element) then |v.items| else 0
    decreases v
  {
    match v
    case IntValue(i) => Number(i as real)
    case IntArray(xs) => Array(seq(|xs|, k requires 0 <= k < |xs| => Number(xs[k] as real)))
    case DoubleValue(d) => Number(d)
    case DoubleArray(xs) => Array(seq(|xs|, k requires 0 <= k < |xs| => Number(xs[k])))
    case StringValue(s) => Str(s)
    case StringArray(xs) => Array(seq(|xs|, k requires 0 <= k < |xs| => Str(xs[k])))
    case ElementArray(e, items) =>
      if Containable(env, e) then Array(seq(|items|, k requires 0 <= k < |items| => Encode(items[k], env)))
      else Array([])
    case DateValue(t) => Str(env.formatDate(t))
    case Composite(_, fs) =>
      Object(Members(seq(|fs|, i requires 0 <= i < |fs| => (fs[i].name, Encode(fs[i].value, env)))))
    case Opaque(_, _) => Object(map[])
  }

  /** What `encode` produces, value by value: a scalar as itself, a date as
      the formatter's string, and every array as the encodings of its
      elements in the same order. */
  lemma EncodeValues(v: Value, env: Env)
    ensures v.IntValue? ==> Encode(v, env) == Number(v.integer as real)
    ensures v.DoubleValue? ==> Encode(v, env) == Number(v.double)
    ensures v.StringValue? ==> Encode(v, env) == Str(v.str)
    ensures v.DateValue? ==> Encode(v, env) == Str(env.formatDate(v.stamp))
    ensures v.IntArray? ==> forall k :: 0 <= k < |v.ints| ==> Encode(v, env).elements[k] == Number(v.ints[k] as real)
    ensures v.DoubleArray? ==> forall k :: 0 <= k < |v.doubles| ==> Encode(v, env).elements[k] == Number(v.doubles[k])
    ensures v.StringArray? ==> forall k :: 0 <= k < |v.strs| ==> Encode(v, env).elements[k] == Str(v.strs[k])
    ensures v.ElementArray? && Containable(env, v.element) ==>
      forall k :: 0 <= k < |v.items| ==> Encode(v, env).elements[k] == Encode(v.items[k], env)
    ensures v.ElementArray? && !Containable(env, v.element) ==> Encode(v, env) == Array([])
  {
  }

  /** The dictionary has one key per entry name, except "super". */
  lemma {:induction false} MembersKeys(es: seq<(string, DynamicValue)>)
    ensures Members(es).Keys == set i | 0 <= i < |es| && es[i].0 != SuperKey :: es[i].0
  {
    if es != [] {
      var pre := es[..|es| - 1];
      MembersKeys(pre);
      var want := set i | 0 <= i < |es| && es[i].0 != SuperKey :: es[i].0;
      var had := set i | 0 <= i < |pre| && pre[i].0 != SuperKey :: pre[i].0;
      forall k | k in want ensures k in Members(es) {
        var i :| 0 <= i < |es| && es[i].0 != SuperKey && es[i].0 == k;
        if i < |pre| {
          assert pre[i] == es[i];
        }
      }
      forall k | k in Members(es) ensures k in want {
        if k in had {
          var i :| 0 <= i < |pre| && pre[i].0 != SuperKey && pre[i].0 == k;
          assert es[i] == pre[i];
        } else {
          assert es[|es| - 1].0 == k;
        }
      }
    }
  }

  /** The value under a key is that of the last entry with that name. */
  lemma {:induction false} MembersLast(es: seq<(string, DynamicValue)>, i: nat)
    requires i < |es| && es[i].0 != SuperKey
    requires forall j :: i < j < |es| ==> es[j].0 != es[i].0
    ensures es[i].0 in Members(es) && Members(es)[es[i].0] == es[i].1
  {
    if i < |es| - 1 {
      var pre := es[..|es| - 1];
      assert pre[i] == es[i];
      MembersLast(pre, i);
    }
  }

  predicate DistinctNames(fs: seq<Field>) {
    forall i, j :: 0 <= i < j < |fs| ==> fs[i].name != fs[j].name
  }

  /** A composite encodes to an object with one member per child except the
      one named "super"; when the names are distinct, each member is the
      encoding of its child. */
  lemma EncodeComposite(n: string, fs: seq<Field>, env: Env)
    ensures Encode(Composite(n, fs), env).Object?
    ensures forall name :: name in Encode(Composite(n, fs), env).members <==>
      name != SuperKey && exists i :: 0 <= i < |fs| && fs[i].name == name
    ensures DistinctNames(fs) ==> forall i :: 0 <= i < |fs| && fs[i].name != SuperKey ==>
      Encode(Composite(n, fs), env).members[fs[i].name] == Encode(fs[i].value, env)
  {
    var es := seq(|fs|, i requires 0 <= i < |fs| => (fs[i].name, Encode(fs[i].value, env)));
    MembersKeys(es);
    forall name ensures name in Members(es) <==> name != SuperKey && exists i :: 0 <= i < |fs| && fs[i].name == name {
      if name != SuperKey && exists i :: 0 <= i < |fs| && fs[i].name == name {
        var i :| 0 <= i < |fs| && fs[i].name == name;
        assert es[i].0 == name;
      }
    }
    if DistinctNames(fs) {
      forall i | 0 <= i < |fs| && fs[i].name != SuperKey
        ensures Members(es)[fs[i].name] == Encode(fs[i].value, env)
      {
        MembersLast(es, i);
      }
    }
  }

  /** Decoding a composite from an object is a partial update: a child
      whose name is a key is decoded from that member, every other child is
      left as it was, and the first child that fails (in declaration order)
      decides the error. A composite with no children, or a value that is not
      an object, changes nothing. */
  lemma DecodeComposite(n: string, fs: seq<Field>, any: DynamicValue, env: Env)
    ensures |fs| == 0 || !any.Object? ==> Decode(Composite(n, fs), any, env) == Ok(Composite(n, fs))
    ensures |fs| > 0 && any.Object? ==>
      var m := any.members;
      var r := Decode(Composite(n, fs), any, env);
      && (r.Ok? <==> forall i :: 0 <= i < |fs| && fs[i].name in m ==> Decode(fs[i].value, m[fs[i].name], env).Ok?)
      && (r.Ok? ==> r.value.Composite? && r.value.typeName == n && |r.value.fields| == |fs|)
      && (r.Ok? ==> forall i :: 0 <= i < |fs| ==>
            && r.value.fields[i].name == fs[i].name
            && (fs[i].name !in m ==> r.value.fields[i].value == fs[i].value)
            && (fs[i].name in m ==> Decode(fs[i].value, m[fs[i].name], env) == Ok(r.value.fields[i].value)))
      && (r.Err? ==> exists i ::
            && 0 <= i < |fs| && fs[i].name in m && Decode(fs[i].value, m[fs[i].name], env) == Err(r.error)
            && forall j :: 0 <= j < i && fs[j].name in m ==> Decode(fs[j].value, m[fs[j].name], env).Ok?)
  {
    if |fs| > 0 && any.Object? {
      var m := any.members;
      var rs := FieldSteps(fs, m, env);
      var r := Decode(Composite(n, fs), any, env);
      assert r.Err? ==> Collect(rs).Err?;
      forall i | 0 <= i < |fs| && fs[i].name in m
        ensures rs[i].Ok? <==> Decode(fs[i].value, m[fs[i].name], env).Ok?
      {
      }
    }
  }

  /** An array of an element type that is not containable is left unchanged
      whatever the value; one of a containable type keeps its old elements
      and appends one element per source element, each decoded into a fresh
      default instance. */
  lemma DecodeElementArray(e: ElementType, items: seq<Value>, any: DynamicValue, env: Env)
    ensures !Containable(env, e) ==> Decode(ElementArray(e, items), any, env) == Ok(ElementArray(e, items))
    ensures Containable(env, e) && !any.Array? ==> Decode(ElementArray(e, items), any, env) == Err(CastFailed(ToArray, any))
    ensures Containable(env, e) && any.Array? ==>
      var ds := any.elements;
      var r := Decode(ElementArray(e, items), any, env);
      && (r.Ok? <==> forall k :: 0 <= k < |ds| ==> Decode(env.defaults[e], ds[k], env).Ok?)
      && (r.Ok? ==>
            && r.value.ElementArray? && r.value.element == e
            && |r.value.items| == |items| + |ds|
            && r.value.items[..|items|] == items
            && forall k :: 0 <= k < |ds| ==> Decode(env.defaults[e], ds[k], env) == Ok(r.value.items[|items| + k]))
      && (r.Ok? && WellFormed(env) ==> forall k :: |items| <= k < |r.value.items| ==> TypeOf(r.value.items[k]) == e)
  {
    if Containable(env, e) && any.Array? {
      var ds := any.elements;
      var rs := ElementSteps(e, ds, env);
      var r := Decode(ElementArray(e, items), any, env);
      if r.Ok? {
        var added := Collect(rs).value;
        assert r.value.items == items + added;
        forall k | 0 <= k < |ds| ensures Decode(env.defaults[e], ds[k], env) == Ok(r.value.items[|items| + k]) {
          assert r.value.items[|items| + k] == added[k];
        }
      }
    }
  }

  /** The leaf branches of the decoder and how each fails: a forced cast of
      the wrong kind of value, or a date string the formatter cannot parse.
      An opaque value is left as it is whatever the value. */
  lemma DecodeLeafCases(v: Value, any: DynamicValue, env: Env)
    ensures (v.IntValue? || v.DoubleValue?) && !any.Number? ==> Decode(v, any, env) == Err(CastFailed(ToNumber, any))
    ensures v.IntValue? && any.Number? ==> Decode(v, any, env) == Ok(IntValue(IntValueOf(any.number)))
    ensures v.DoubleValue? && any.Number? ==> Decode(v, any, env) == Ok(DoubleValue(any.number))
    ensures (v.StringValue? || v.DateValue?) && !any.Str? ==> Decode(v, any, env) == Err(CastFailed(ToString, any))
    ensures v.StringValue? && any.Str? ==> Decode(v, any, env) == Ok(StringValue(any.text))
    ensures v.DateValue? && any.Str? && env.parseDate(any.text).None? ==> Decode(v, any, env) == Err(DateUnparsable(any.text))
    ensures v.DateValue? && any.Str? && env.parseDate(any.text).Some? ==> Decode(v, any, env) == Ok(DateValue(env.parseDate(any.text).value))
    ensures (v.IntArray? || v.DoubleArray? || v.StringArray?) && !any.Array? ==> Decode(v, any, env) == Err(CastFailed(ToArray, any))
    ensures v.Opaque? ==> Decode(v, any, env) == Ok(v)
  {
  }

  /** Decoding an array of Int, Double or String replaces its contents: the
      result is the source array converted element by element, whatever the
      field held before. */
  lemma DecodeScalarArray(v: Value, ds: seq<DynamicValue>, env: Env)
    requires v.IntArray? || v.DoubleArray? || v.StringArray?
    ensures var r := Decode(v, Array(ds), env);
      && (v.IntArray? ==> (r.Ok? <==> forall k :: 0 <= k < |ds| ==> ds[k].Number?))
      && (v.IntArray? && r.Ok? ==> |r.value.ints| == |ds| && forall k :: 0 <= k < |ds| ==> r.value.ints[k] == IntValueOf(ds[k].number))
      && (v.DoubleArray? ==> (r.Ok? <==> forall k :: 0 <= k < |ds| ==> ds[k].Number?))
      && (v.DoubleArray? && r.Ok? ==> |r.value.doubles| == |ds| && forall k :: 0 <= k < |ds| ==> r.value.doubles[k] == ds[k].number)
      && (v.StringArray? ==> (r.Ok? <==> forall k :: 0 <= k < |ds| ==> ds[k].Str?))
      && (v.StringArray? && r.Ok? ==> |r.value.strs| == |ds| && forall k :: 0 <= k < |ds| ==> r.value.strs[k] == ds[k].text)
  {
    var ns := NumberCasts(ds);
    var ss := StringCasts(ds);
    assert forall k :: 0 <= k < |ds| ==> (ns[k].Ok? <==> ds[k].Number?);
    assert forall k :: 0 <= k < |ds| ==> (ss[k].Ok? <==> ds[k].Str?);
  }

  /** No array anywhere in `v` appends on decode. */
  predicate AppendFree(v: Value, env: Env)
    decreases v
  {
    match v
    case ElementArray(e, _) => !Containable(env, e)
    case Composite(_, fs) => forall i :: 0 <= i < |fs| ==> AppendFree(fs[i].value, env)
    case _ => true
  }

  /** Decoding is idempotent on an instance without containable arrays:
      decoding the same value a second time changes nothing more. */
  lemma {:induction false} DecodeIdempotent(v: Value, any: DynamicValue, env: Env)
    requires AppendFree(v, env) && Decode(v, any, env).Ok?
    ensures Decode(Decode(v, any, env).value, any, env) == Decode(v, any, env)
    decreases v
  {
    var w := Decode(v, any, env).value;
    match v
    case Composite(n, fs) =>
      if |fs| > 0 && any.Object? {
        var m := any.members;
        DecodeComposite(n, fs, any, env);
        var ws := w.fields;
        var rs := FieldSteps(ws, m, env);
        assert w == Composite(n, ws) && |ws| == |fs| > 0;
        forall i | 0 <= i < |ws| ensures rs[i] == Ok(ws[i]) {
          if ws[i].name in m {
            DecodeIdempotent(fs[i].value, m[fs[i].name], env);
            assert Decode(ws[i].value, m[ws[i].name], env) == Ok(ws[i].value);
          }
        }
        CollectAllOk(rs, ws);
        assert Decode(Composite(n, ws), any, env) == Ok(Composite(n, ws));
      }
    case _ =>
  }

  /** Decoding into a containable array is not idempotent: the second time
      the same elements are appended again. */
  lemma DecodeAppendsAgain(e: ElementType, items: seq<Value>, ds: seq<DynamicValue>, env: Env)
    requires Containable(env, e) && Decode(ElementArray(e, items), Array(ds), env).Ok?
    ensures var w := Decode(ElementArray(e, items), Array(ds), env).value;
      var added := w.items[|items|..];
      |added| == |ds| && Decode(w, Array(ds), env) == Ok(ElementArray(e, items + added + added))
  {
    var w := Decode(ElementArray(e, items), Array(ds), env).value;
    DecodeElementArray(e, items, Array(ds), env);
    var added := w.items[|items|..];
    var decoded := Collect(ElementSteps(e, ds, env)).value;
    assert w.items == items + decoded;
    assert added == decoded;
  }
}
