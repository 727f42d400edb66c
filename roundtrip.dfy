/** Decoding the encoding of an instance into a fresh default instance of
    the same type: what the test's decode, encode, decode sequence relies on. */
module RoundTrip {
  import opened Values
  import opened Codec

  /** The date formatter reads back every date it writes. */
  ghost predicate DateCodecInverse(env: Env) {
    forall t :: env.parseDate(env.formatDate(t)) == Some(t)
  }

  /** `d` is a freshly constructed instance of the type of `x`: same shapes
      and field names throughout, distinct names in each type, the same
      element type in every array, every array of a containable type empty
      in `d` with elements that fit that type's default instance, and the
      same type for every opaque value. Fields named "super" are not
      constrained below their name. */
  predicate Compatible(d: Value, x: Value, env: Env)
    decreases x
  {
    match x
    case IntValue(_) => d.IntValue?
    case IntArray(_) => d.IntArray?
    case DoubleValue(_) => d.DoubleValue?
    case DoubleArray(_) => d.DoubleArray?
    case StringValue(_) => d.StringValue?
    case StringArray(_) => d.StringArray?
    case DateValue(_) => d.DateValue?
    case ElementArray(e, items) =>
      if !Containable(env, e) then d.ElementArray? && d.element == e
      else
        && d == ElementArray(e, [])
        && forall k :: 0 <= k < |items| ==> Compatible(env.defaults[e], items[k], env)
    case Composite(n, fs) =>
      && d.Composite? && d.typeName == n && |d.fields| == |fs|
      && DistinctNames(fs)
      && forall i :: 0 <= i < |fs| ==>
           && d.fields[i].name == fs[i].name
           && (fs[i].name != SuperKey ==> Compatible(d.fields[i].value, fs[i].value, env))
    case Opaque(n, _) => d.Opaque? && d.typeName == n
  }

  /** `w` is what a round trip of `x` through a fresh instance `d` can give
      back: `x` itself, except that an opaque value, an array of a type that
      is not containable and a child named "super" keep what `d` holds
      there, and that an element of an array is restored into the default
      instance of its type. */
  predicate Restored(w: Value, d: Value, x: Value, env: Env)
    decreases x
  {
    match x
    case Opaque(_, _) => w == d
    case ElementArray(e, items) =>
      if !Containable(env, e) then w == d
      else
        && w.ElementArray? && w.element == e && |w.items| == |items|
        && forall k :: 0 <= k < |items| ==> Restored(w.items[k], env.defaults[e], items[k], env)
    case Composite(n, fs) =>
      && w.Composite? && w.typeName == n && |w.fields| == |fs|
      && d.Composite? && |d.fields| == |fs|
      && forall i :: 0 <= i < |fs| ==>
           && w.fields[i].name == fs[i].name
           && (fs[i].name == SuperKey ==> w.fields[i].value == d.fields[i].value)
           && (fs[i].name != SuperKey ==> Restored(w.fields[i].value, d.fields[i].value, fs[i].value, env))
    case _ => w == x
  }

  /** Nothing in `x` escapes the encoder: no field named "super", no
      array of a type that is not containable and no opaque value anywhere. */
  predicate Visible(x: Value, env: Env)
    decreases x
  {
    match x
    case ElementArray(e, items) => Containable(env, e) && forall k :: 0 <= k < |items| ==> Visible(items[k], env)
    case Composite(_, fs) => forall i :: 0 <= i < |fs| ==> fs[i].name != SuperKey && Visible(fs[i].value, env)
    case Opaque(_, _) => false
    case _ => true
  }

  /** What is restored of a value the encoder sees in full is the value. */
  lemma {:induction false} RestoredVisible(w: Value, d: Value, x: Value, env: Env)
    requires Restored(w, d, x, env) && Visible(x, env)
    ensures w == x
    decreases x
  {
    match x
    case ElementArray(e, items) =>
      forall k | 0 <= k < |items| ensures w.items[k] == items[k] {
        RestoredVisible(w.items[k], env.defaults[e], items[k], env);
      }
      assert w.items == items;
    case Composite(n, fs) =>
      forall i | 0 <= i < |fs| ensures w.fields[i] == fs[i] {
        RestoredVisible(w.fields[i].value, d.fields[i].value, fs[i].value, env);
      }
      assert w.fields == fs;
    case _ =>
  }

  /** Decoding `encode(x)` into a fresh instance `d` succeeds and restores
      `x`, up to the opaque values and "super" children that keep `d`'s. */
  lemma {:induction false} RoundTrip(d: Value, x: Value, env: Env)
    requires DateCodecInverse(env) && Compatible(d, x, env)
    ensures Decode(d, Encode(x, env), env).Ok?
    ensures Restored(Decode(d, Encode(x, env), env).value, d, x, env)
    decreases x, 2
  {
    match x
    case ElementArray(_, _) => RoundTripElements(d, x, env);
    case Composite(_, _) => RoundTripComposite(d, x, env);
    case _ => RoundTripLeaf(d, x, env);
  }

  lemma RoundTripLeaf(d: Value, x: Value, env: Env)
    requires DateCodecInverse(env) && Compatible(d, x, env)
    requires !x.ElementArray? && !x.Composite?
    ensures Decode(d, Encode(x, env), env) == Ok(if x.Opaque? then d else x)
  {
    var any := Encode(x, env);
    match x
    case IntValue(i) =>
      IntValueOfInt(i);
    case IntArray(xs) =>
      DecodeScalarArray(d, any.elements, env);
      var w := Decode(d, any, env).value;
      forall k | 0 <= k < |xs| ensures w.ints[k] == xs[k] {
        IntValueOfInt(xs[k]);
      }
      assert w.ints == xs;
    case DoubleValue(_) =>
    case DoubleArray(xs) =>
      DecodeScalarArray(d, any.elements, env);
      assert Decode(d, any, env).value.doubles == xs;
    case StringValue(_) =>
    case StringArray(xs) =>
      DecodeScalarArray(d, any.elements, env);
      assert Decode(d, any, env).value.strs == xs;
    case DateValue(t) =>
      assert env.parseDate(env.formatDate(t)) == Some(t);
    case Opaque(_, _) =>
  }

  lemma {:induction false} RoundTripElements(d: Value, x: Value, env: Env)
    requires DateCodecInverse(env) && Compatible(d, x, env) && x.ElementArray?
    ensures Decode(d, Encode(x, env), env).Ok?
    ensures Restored(Decode(d, Encode(x, env), env).value, d, x, env)
    decreases x, 1
  {
    var e, items := x.element, x.items;
    var any := Encode(x, env);
    DecodeElementArray(e, d.items, any, env);
    if !Containable(env, e) {
      assert d == ElementArray(e, d.items);
      return;
    }
    var ds := any.elements;
    var def := env.defaults[e];
    forall k | 0 <= k < |items|
      ensures Decode(def, ds[k], env).Ok? && Restored(Decode(def, ds[k], env).value, def, items[k], env)
    {
      RoundTrip(def, items[k], env);
    }
    DecodeElementArray(e, [], any, env);
    var w := Decode(d, any, env).value;
    forall k | 0 <= k < |items| ensures Restored(w.items[k], def, items[k], env) {
      assert Decode(def, ds[k], env) == Ok(w.items[0 + k]);
    }
  }

  lemma {:induction false} RoundTripComposite(d: Value, x: Value, env: Env)
    requires DateCodecInverse(env) && Compatible(d, x, env) && x.Composite?
    ensures Decode(d, Encode(x, env), env).Ok?
    ensures Restored(Decode(d, Encode(x, env), env).value, d, x, env)
    decreases x, 1
  {
    var n, fs := x.typeName, x.fields;
    var ds := d.fields;
    assert x == Composite(n, fs) && d == Composite(n, ds);
    var any := Encode(x, env);
    EncodeComposite(n, fs, env);
    DecodeComposite(n, ds, any, env);
    if |fs| > 0 {
      RoundTripChildren(n, ds, fs, env);
      var m := any.members;
      var w := Decode(d, any, env).value;
      forall i | 0 <= i < |fs| && fs[i].name != SuperKey
        ensures Restored(w.fields[i].value, ds[i].value, fs[i].value, env)
      {
        assert Decode(ds[i].value, m[fs[i].name], env) == Ok(w.fields[i].value);
      }
      assert SuperKey !in m;
    }
  }

  /** Each child of a composite other than "super" has a member in the
      encoding, and decoding it into the fresh child succeeds and restores
      the child. */
  lemma {:induction false} RoundTripChildren(n: string, ds: seq<Field>, fs: seq<Field>, env: Env)
    requires DateCodecInverse(env) && Compatible(Composite(n, ds), Composite(n, fs), env)
    ensures var m := Encode(Composite(n, fs), env).members;
      forall i :: 0 <= i < |fs| && fs[i].name != SuperKey ==>
        && fs[i].name in m
        && Decode(ds[i].value, m[fs[i].name], env).Ok?
        && Restored(Decode(ds[i].value, m[fs[i].name], env).value, ds[i].value, fs[i].value, env)
    decreases Composite(n, fs), 0
  {
    var m := Encode(Composite(n, fs), env).members;
    EncodeComposite(n, fs, env);
    forall i | 0 <= i < |fs| && fs[i].name != SuperKey
      ensures fs[i].name in m && m[fs[i].name] == Encode(fs[i].value, env)
      ensures Decode(ds[i].value, m[fs[i].name], env).Ok?
      ensures Restored(Decode(ds[i].value, m[fs[i].name], env).value, ds[i].value, fs[i].value, env)
    {
      RoundTrip(ds[i].value, fs[i].value, env);
    }
  }

  /** When the encoder sees all of `x`, the round trip gives `x` back exactly. */
  lemma RoundTripExact(d: Value, x: Value, env: Env)
    requires DateCodecInverse(env) && Compatible(d, x, env) && Visible(x, env)
    ensures Decode(d, Encode(x, env), env) == Ok(x)
  {
    RoundTrip(d, x, env);
    RestoredVisible(Decode(d, Encode(x, env), env).value, d, x, env);
  }

  /** An enum field is not restored: its encoding is an empty object, and
      decoding that into a fresh instance keeps the fresh case. */
  lemma OpaqueFieldKeepsFresh(env: Env)
    ensures var blank := Composite("Shape", [Field("color", Opaque("Color", 0))]);
      var x := Composite("Shape", [Field("color", Opaque("Color", 1))]);
      && Encode(x, env) == Object(map["color" := Object(map[])])
      && Decode(blank, Encode(x, env), env) == Ok(blank)
      && blank != x
  {
    var blank := Composite("Shape", [Field("color", Opaque("Color", 0))]);
    var x := Composite("Shape", [Field("color", Opaque("Color", 1))]);
    var es := seq(1, i requires 0 <= i < 1 => (x.fields[i].name, Encode(x.fields[i].value, env)));
    assert es == [("color", Object(map[]))];
    assert Members(es[..0]) == map[];
    var m := Encode(x, env).members;
    assert m == map["color" := Object(map[])];
    var rs := FieldSteps(blank.fields, m, env);
    assert Decode(Opaque("Color", 0), m["color"], env) == Ok(Opaque("Color", 0));
    assert rs[0] == Ok(blank.fields[0]);
    CollectAllOk(rs, blank.fields);
  }
}
