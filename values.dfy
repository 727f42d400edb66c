/** The two sides that the mirror maps between: the typed storage of an
    instance, seen as a tree of named fields, and the dynamic (JSON-shaped)
    values produced and consumed by the JSON serializer. */
module Values {

  datatype Option<+T> = None | Some(value: T)

  /** The conversion a forced cast (`as!`) attempts. */
  datatype CastTarget = ToNumber | ToString | ToArray

  /** Every way the mirror stops: `fatalError` for a missing path component
      or a type mismatch, a failing forced cast, and the forced unwrap of a
      date that does not parse. */
  datatype Error =
    | PathNotFound(segment: string)
    | TypeMismatch(actual: Type, requested: Type)
    | CastFailed(target: CastTarget, value: DynamicValue)
    | DateUnparsable(text: string)

  datatype Result<+T> = Ok(value: T) | Err(error: Error)

  datatype Outcome = Pass | Fail(error: Error)

  /** Type identities, as compared by `data.metadata == T.self`. */
  datatype Type =
    | IntType
    | DoubleType
    | StringType
    | DateType
    | ArrayType(element: Type)
    | NamedType(name: string)

  predicate IsScalar(t: Type) {
    t == IntType || t == DoubleType || t == StringType
  }

  /** Element types of the generic array case: `[Int]`, `[Double]` and
      `[String]` are caught by earlier branches and have their own
      representation. */
  type ElementType = t: Type | !IsScalar(t) witness DateType

  /** The storage of one field, tagged by the shape the decoder and encoder
      dispatch on. A struct, a class instance, an enum case with a payload
      and every other type whose mirror lists children is a Composite whose
      fields are those children, in declaration order; a class instance
      lists its superclass storage as a child named "super", an enum case
      with a payload one child named after the case. A type that is none of
      the recognised leaves and whose mirror lists no children (an enum
      without payloads, Bool, Float) is Opaque: the mirror cannot see its
      stored value, here `payload`, which tells apart the values of the
      type (the cases of an enum, say). */
  datatype Value =
    | IntValue(integer: int)
    | IntArray(ints: seq<int>)
    | DoubleValue(double: real)
    | DoubleArray(doubles: seq<real>)
    | StringValue(str: string)
    | StringArray(strs: seq<string>)
    | ElementArray(element: ElementType, items: seq<Value>)
    | DateValue(stamp: int)
    | Composite(typeName: string, fields: seq<Field>)
    | Opaque(typeName: string, payload: int)

  datatype Field = Field(name: string, value: Value)

  function TypeOf(v: Value): Type {
    match v
    case IntValue(_) => IntType
    case IntArray(_) => ArrayType(IntType)
    case DoubleValue(_) => DoubleType
    case DoubleArray(_) => ArrayType(DoubleType)
    case StringValue(_) => StringType
    case StringArray(_) => ArrayType(StringType)
    case ElementArray(e, _) => ArrayType(e)
    case DateValue(_) => DateType
    case Composite(n, _) => NamedType(n)
    case Opaque(n, _) => NamedType(n)
  }

  /** The generic JSON-shaped value: NSNull, NSNumber, NSString, NSArray and
      a string-keyed NSDictionary, whose key order carries no meaning. */
  datatype DynamicValue =
    | Null
    | Number(number: real)
    | Str(text: string)
    | Array(elements: seq<DynamicValue>)
    | Object(members: map<string, DynamicValue>)

  /** What the mirror consults besides the instance: the types that conform
      to `TwoWayContainable`, each with the instance its `init()` builds, and
      the fixed-format date formatter as a pair of functions. */
  datatype Env = Env(
    defaults: map<Type, Value>,
    formatDate: int -> string,
    parseDate: string -> Option<int>)

  predicate Containable(env: Env, t: Type) {
    t in env.defaults
  }

  /** `T()` builds an instance of `T`: the default recorded for a type is
      of that type. */
  predicate WellFormed(env: Env) {
    forall t :: t in env.defaults ==> TypeOf(env.defaults[t]) == t
  }

  /** `NSNumber.intValue` of a number: the integer part, truncated toward zero. */
  function IntValueOf(n: real): (i: int)
    ensures 0.0 <= n ==> i as real <= n < i as real + 1.0
    ensures n < 0.0 ==> i as real - 1.0 < n <= i as real
  {
    if 0.0 <= n then n.Floor else -((-n).Floor)
  }

  lemma IntValueOfInt(i: int)
    ensures IntValueOf(i as real) == i
  {
  }

  /** `any as! NSNumber` */
  function AsNumber(d: DynamicValue): (r: Result<real>)
    ensures r.Ok? <==> d.Number?
    ensures r.Ok? ==> d == Number(r.value)
    ensures r.Err? ==> r.error == CastFailed(ToNumber, d)
  {
    if d.Number? then Ok(d.number) else Err(CastFailed(ToNumber, d))
  }

  /** `any as! String` */
  function AsString(d: DynamicValue): (r: Result<string>)
    ensures r.Ok? <==> d.Str?
    ensures r.Ok? ==> d == Str(r.value)
    ensures r.Err? ==> r.error == CastFailed(ToString, d)
  {
    if d.Str? then Ok(d.text) else Err(CastFailed(ToString, d))
  }

  /** `any as! NSArray` */
  function AsArray(d: DynamicValue): (r: Result<seq<DynamicValue>>)
    ensures r.Ok? <==> d.Array?
    ensures r.Ok? ==> d == Array(r.value)
    ensures r.Err? ==> r.error == CastFailed(ToArray, d)
  {
    if d.Array? then Ok(d.elements) else Err(CastFailed(ToArray, d))
  }

  /** The outcome of running the steps `rs` in order and stopping at the
      first that fails: all their values, or the first error. */
  function Collect<T>(rs: seq<Result<T>>): (r: Result<seq<T>>)
    ensures r.Ok? <==> forall i :: 0 <= i < |rs| ==> rs[i].Ok?
    ensures r.Ok? ==> |r.value| == |rs| && forall i :: 0 <= i < |rs| ==> r.value[i] == rs[i].value
    ensures r.Err? ==> exists k :: 0 <= k < |rs| && rs[k] == Err(r.error) && forall j :: 0 <= j < k ==> rs[j].Ok?
  {
    if rs == [] then Ok([])
    else if rs[0].Err? then Err(rs[0].error)
    else
      match Collect(rs[1..])
      case Err(e) =>
        ghost var k :| 0 <= k < |rs[1..]| && rs[1..][k] == Err(e) && forall j :: 0 <= j < k ==> rs[1..][j].Ok?;
        assert rs[k + 1] == Err(e);
        Err(e)
      case Ok(xs) => Ok([rs[0].value] + xs)
  }

  /** When every step succeeds, the steps' values are collected in order. */
  lemma CollectAllOk<T>(rs: seq<Result<T>>, xs: seq<T>)
    requires |xs| == |rs| && forall i :: 0 <= i < |rs| ==> rs[i] == Ok(xs[i])
    ensures Collect(rs) == Ok(xs)
  {
    assert Collect(rs).value == xs;
  }

  /** One more successful step extends the values collected so far. */
  lemma CollectedOneMore<T>(rs: seq<Result<T>>, xs: seq<T>)
    requires |xs| < |rs| && rs[|xs|].Ok?
    requires forall k :: 0 <= k < |xs| ==> rs[k] == Ok(xs[k])
    ensures forall k :: 0 <= k < |xs| + 1 ==> rs[k] == Ok((xs + [rs[|xs|].value])[k])
  {
  }

  /** A successful step after a successful prefix extends what the prefix
      collected. */
  lemma CollectSnoc<T>(rs: seq<Result<T>>, i: nat, xs: seq<T>)
    requires i < |rs| && Collect(rs[..i]) == Ok(xs) && rs[i].Ok?
    ensures Collect(rs[..i + 1]) == Ok(xs + [rs[i].value])
  {
    var ys := xs + [rs[i].value];
    forall k | 0 <= k < i + 1 ensures rs[..i + 1][k] == Ok(ys[k]) {
      if k < i {
        assert rs[..i][k] == rs[k];
      }
    }
    CollectAllOk(rs[..i + 1], ys);
  }

  /** A failing step after a successful prefix decides the error. */
  lemma CollectStops<T>(rs: seq<Result<T>>, i: nat)
    requires i < |rs| && Collect(rs[..i]).Ok? && rs[i].Err?
    ensures Collect(rs) == Err(rs[i].error)
  {
    forall j | 0 <= j < i ensures rs[j].Ok? {
      assert rs[..i][j] == rs[j];
    }
    CollectFirstErr(rs, i);
  }

  /** The error collected is that of the first failing step. */
  lemma CollectFirstErr<T>(rs: seq<Result<T>>, i: nat)
    requires i < |rs| && rs[i].Err?
    requires forall j :: 0 <= j < i ==> rs[j].Ok?
    ensures Collect(rs) == Err(rs[i].error)
  {
  }
}
