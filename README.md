# TwoWayMirror in Dafny

TwoWayMirror reads and writes the stored properties of a Swift object
through its reflection mirror. It offers three services:

- a typed subscript `object["a.b", T.self]` that follows a dotted path of
  property names and reads or writes the field found there;
- `decode`, which writes a JSON-shaped value (numbers, strings, arrays,
  dictionaries) into the object, property by property;
- `encode`, which builds such a value from the object.

This project models that logic with the raw-pointer mechanics abstracted.
An instance is a tree (`Values.Value`). A composite holds its children in
declaration order. A leaf is one of the kinds the mirror dispatches on:

- Int, Double, String and Date;
- `[Int]`, `[Double]` and `[String]`;
- an array of any other element type.

A type whose mirror lists children is a composite: a struct, a class
instance (its superclass storage is a child named "super"), and an enum
case with a payload (one child named after the case). A type that is none
of these and whose mirror lists no children, such as an enum without
payloads, Bool or Float, is `Opaque`. Its stored value is a payload the
mirror cannot see: decoding leaves it as it is, and encoding gives an
empty object. A field's storage is reached through a `Paths.Location`, the
list of child indices from the root. A write through the field's pointer is
`Paths.ReplaceAt`. The JSON side is `Values.DynamicValue`.

The model has five modules:

- `Values`: the data model. `Collect` is the "run steps in order, stop at
  the first trap" pattern behind every loop of forced casts.
- `Paths`: path resolution, typed lookup and the subscript setter as
  functions, with their lemmas.
- `Codec`: decode and encode as functions of the values involved, with
  their lemmas.
- `RoundTrip`: decode-after-encode.
- `Mirror`: the imperative side. `Mirror.Instance` is an object whose
  `root` the decoder and the subscript setter update in place. Each method
  is proved equal to its function in `Paths` or `Codec`.

Traps become error values:

- `fatalError` on a missing path component is `PathNotFound`;
- `fatalError` on a type mismatch is `TypeMismatch`;
- a failing `as!` is `CastFailed`;
- the forced unwrap of an unparsable date is `DateUnparsable`.

Conformance to `TwoWayContainable` is a key of `Env.defaults`, whose value
is the instance that `T()` builds. The date formatter is a pair of
functions in `Env`.

Some behaviours of the code that a reader might not expect, and that the
model keeps:

- Decoding into an array of a `TwoWayContainable` type appends to it
  without clearing it first. Only `[Int]`, `[Double]` and `[String]` are
  cleared.
- Encoding drops a child named "super" together with everything under it.
  Its fields are not flattened into the parent.
- Decoding does not support dictionaries. A dictionary-typed field is a
  composite and decodes by its mirror's children.
- `"".components(separatedBy: ".")` is `[""]`, so the string form of a path
  never resolves to the root itself. Only the list form with an empty list
  does.

## Model

| member | source | states |
|---|---|---|
| Values.IntValueOf | TwoWayMirror.playground/Sources/TwoWayMirror.swift:84 | `intValue` truncates toward zero: the result is the integer part of the number, for both signs |
| Values.IntValueOfInt | TwoWayMirror.playground/Sources/TwoWayMirror.swift:84 | `intValue` of a number that came from an Int gives that Int back |
| Values.AsNumber | TwoWayMirror.playground/Sources/TwoWayMirror.swift:84 | `as! NSNumber` succeeds exactly on a number and gives that number; on anything else it fails with `CastFailed(ToNumber, value)` |
| Values.AsString | TwoWayMirror.playground/Sources/TwoWayMirror.swift:100 | `as! String` succeeds exactly on a string and gives that string; on anything else it fails with `CastFailed(ToString, value)` |
| Values.AsArray | TwoWayMirror.playground/Sources/TwoWayMirror.swift:88 | `as! NSArray` succeeds exactly on an array and gives its elements; on anything else it fails with `CastFailed(ToArray, value)` |
| Values.Collect | TwoWayMirror.playground/Sources/TwoWayMirror.swift:88-90 | a loop of steps that trap ends in success exactly when every step succeeds. The values are then those of the steps, in order. Otherwise the error is that of the first failing step |
| Values.CollectFirstErr | TwoWayMirror.playground/Sources/TwoWayMirror.swift:88-90 | the first failing step's error is the loop's error, whatever comes after it |
| Values.CollectAllOk | TwoWayMirror.playground/Sources/TwoWayMirror.swift:88-90 | when every step succeeds, the loop collects exactly their values |
| Paths.ReplaceAt | TwoWayMirror.playground/Sources/TwoWayMirror.swift:65 | after writing `w` through a location, the location is still valid and holds `w` |
| Paths.ReplaceAtShape | TwoWayMirror.playground/Sources/TwoWayMirror.swift:65 | writing below the root keeps the root's type and every child's name, and leaves every child off the written path as it was |
| Paths.AtChild | TwoWayMirror.playground/Sources/TwoWayMirror.swift:34 | the location of child `i` is the parent's location extended by `i` |
| Paths.ReplaceAtChild | TwoWayMirror.playground/Sources/TwoWayMirror.swift:119-121 | writing through a child's location is writing the parent with that one child replaced |
| Paths.ReplaceAtSelf | TwoWayMirror.playground/Sources/TwoWayMirror.swift:107-113 | writing back what a location holds changes nothing |
| Paths.ReplaceAtTwice | TwoWayMirror.playground/Sources/TwoWayMirror.swift:87-89 | of two writes through the same location, the second wins |
| Paths.ReplaceAtElsewhere | TwoWayMirror.playground/Sources/TwoWayMirror.swift:65 | a write changes no field that is neither above nor below it |
| Paths.Split | TwoWayMirror.playground/Sources/TwoWayMirror.swift:49 | splitting on "." gives at least one segment, and no segment contains a dot |
| Paths.JoinSplit | TwoWayMirror.playground/Sources/TwoWayMirror.swift:49 | joining the segments with "." gives back the path string |
| Paths.SplitJoin | TwoWayMirror.playground/Sources/TwoWayMirror.swift:49 | splitting a join of dot-free segments gives back those segments, including empty ones |
| Paths.FirstMatch | TwoWayMirror.playground/Sources/TwoWayMirror.swift:33-38 | the scan returns the lowest index whose name matches, or none when no child has the name |
| Paths.Resolve | TwoWayMirror.playground/Sources/TwoWayMirror.swift:30-45 | a resolved location is valid and spells the path, taking the first child of each name at every level. A failure names one of the path's segments |
| Paths.ResolveComplete | TwoWayMirror.playground/Sources/TwoWayMirror.swift:30-45 | whenever such a first-match walk exists, resolution finds it, so resolution fails exactly when there is none |
| Paths.FirstMatchShadows | TwoWayMirror.playground/Sources/TwoWayMirror.swift:33-39 | there is no backtracking: of two children named "a", only the first is searched, so a.y fails although the second has a y |
| Paths.ResolveAfterReplace | TwoWayMirror.playground/Sources/TwoWayMirror.swift:30-45 | a write through a location does not change where a path resolves, unless the path goes strictly below the written field |
| Paths.Locate | TwoWayMirror.playground/Sources/TwoWayMirror.swift:47-54 | `reflect(object:path:type:)` succeeds exactly when the path resolves and the field there has exactly the requested type |
| Paths.Lookup | TwoWayMirror.playground/Sources/TwoWayMirror.swift:61-63 | the getter returns a value of the requested type, or fails with PathNotFound or with a TypeMismatch that names the requested type and a different actual one |
| Paths.Update | TwoWayMirror.playground/Sources/TwoWayMirror.swift:64-66 | the setter succeeds exactly when the typed reflect does; the field found then holds the value written; otherwise it fails with the reflect's error |
| Paths.LookupNoCoercion | TwoWayMirror.playground/Sources/TwoWayMirror.swift:50-52 | on a resolvable path, asking for any type other than the field's own fails with TypeMismatch(actual, requested), and asking for its own type succeeds |
| Paths.UpdateThenLookup | TwoWayMirror.playground/Sources/TwoWayMirror.swift:60-67 | the setter succeeds exactly when the getter at the same path and type does, and a get after a set returns the value written |
| Paths.UpdateElsewhere | TwoWayMirror.playground/Sources/TwoWayMirror.swift:60-67 | a set leaves the value read at any other path unchanged, unless one field lies above the other |
| Codec.ElementSteps | TwoWayMirror.playground/Sources/TwoWayMirror.swift:110-112 | the loop of `encodeElement` calls takes one step per source element |
| Codec.ElementStepsTyped | TwoWayMirror.playground/Sources/TwoWayMirror.swift:202-207 | every element that `encodeElement` decodes has the type of `T()`, which is `T` itself when every recorded default has its own type |
| Codec.FieldSteps | TwoWayMirror.playground/Sources/TwoWayMirror.swift:118-123 | each child step keeps the child's name, and a child whose name is not a key is left as it is |
| Codec.Decode | TwoWayMirror.playground/Sources/TwoWayMirror.swift:81-125 | decoding never changes a field's type, leaves an opaque value as it is, and a composite keeps its number of children and their names |
| Codec.DecodeComposite | TwoWayMirror.playground/Sources/TwoWayMirror.swift:117-124 | decoding a composite is a partial update. A child whose name is a key is decoded from that member; every other child is left as it was. The update succeeds iff every keyed child's decode succeeds, otherwise the error is that of the first keyed child, in declaration order, whose decode fails. A composite without children, or a value that is not an object, changes nothing |
| Codec.DecodeElementArray | TwoWayMirror.playground/Sources/TwoWayMirror.swift:107-113 | an array of a type that is not containable is unchanged whatever the value. One of a containable type fails on a non-array. Otherwise it keeps its old elements and appends one element per source element, each decoded into a fresh `T()`; it succeeds iff each of those decodes does. When every recorded default has its own type, each appended element has the element type |
| Codec.DecodeLeafCases | TwoWayMirror.playground/Sources/TwoWayMirror.swift:83-116 | an Int or Double takes the number it is given and fails with `CastFailed(ToNumber, any)` on anything else; a String takes the string and fails with `CastFailed(ToString, any)`; a Date fails the same way on a non-string and with `DateUnparsable` on a string the formatter cannot parse; an `[Int]`, `[Double]` or `[String]` fails with `CastFailed(ToArray, any)` on a non-array; an opaque value is left as it is |
| Codec.DecodeScalarArray | TwoWayMirror.playground/Sources/TwoWayMirror.swift:85-106 | decoding an `[Int]`, `[Double]` or `[String]` replaces its contents with the source array converted element by element, whatever it held before. It succeeds iff every element has the right kind |
| Codec.DecodeIdempotent | TwoWayMirror.playground/Sources/TwoWayMirror.swift:81-125 | on an instance without containable arrays, decoding the same value a second time changes nothing more |
| Codec.DecodeAppendsAgain | TwoWayMirror.playground/Sources/TwoWayMirror.swift:107-113 | decoding the same array twice into a containable array appends the decoded elements twice |
| Codec.Encode | TwoWayMirror.playground/Sources/TwoWayMirror.swift:142-187 | Int and Double encode to numbers, String and Date to strings, every array kind to an array, and every composite and opaque value to an object; an opaque value to the empty object. Scalar arrays keep their length. An array of a type that is not containable encodes as an empty array. The values themselves are stated by `Codec.EncodeValues` and `Codec.EncodeComposite` |
| Codec.EncodeValues | TwoWayMirror.playground/Sources/TwoWayMirror.swift:144-177 | an Int, Double or String encodes to its own value, a Date to the formatter's string, an `[Int]`, `[Double]` or `[String]` to its elements' values in the same order, and an array of a containable type to its elements' encodings in the same order; an array of any other type to the empty array |
| Codec.Members | TwoWayMirror.playground/Sources/TwoWayMirror.swift:179-185 | the dictionary has no key "super", and every key maps to the value of some entry of that name |
| Codec.MembersKeys | TwoWayMirror.playground/Sources/TwoWayMirror.swift:179-185 | the dictionary's keys are exactly the entry names other than "super" |
| Codec.MembersLast | TwoWayMirror.playground/Sources/TwoWayMirror.swift:183 | the value under a key is that of the last entry of that name |
| Codec.EncodeComposite | TwoWayMirror.playground/Sources/TwoWayMirror.swift:178-186 | a composite encodes to an object whose keys are exactly its children's names other than "super", so a composite without children encodes to an empty object. With distinct names, each member is its child's encoding |
| RoundTrip.RoundTrip | TwoWayMirrorTests/TwoWayMirrorTests.swift:75-83 | decoding `encode(x)` into a fresh default instance of the same type succeeds and restores `x`, except that every opaque value, every array of a type that is not containable and every child named "super" keep the fresh instance's value. It assumes distinct child names in each type and the same enum case in `x` and the fresh instance |
| RoundTrip.RoundTripLeaf | TwoWayMirror.playground/Sources/TwoWayMirror.swift:83-116 | a leaf or scalar array decodes from its own encoding to exactly itself; an opaque value stays the fresh one |
| RoundTrip.RoundTripElements | TwoWayMirror.playground/Sources/TwoWayMirror.swift:107-113 | a containable array decodes from its encoding into an empty array with every element restored into a fresh `T()`; an array of a type that is not containable stays the fresh one |
| RoundTrip.RoundTripComposite | TwoWayMirror.playground/Sources/TwoWayMirror.swift:117-124 | a composite decodes from its encoding with every non-"super" child restored and its "super" child left as the fresh one |
| RoundTrip.RoundTripChildren | TwoWayMirror.playground/Sources/TwoWayMirror.swift:178-186 | every child other than "super" has a member in the encoding, and that member decodes into the fresh child and restores it |
| RoundTrip.RestoredVisible | TwoWayMirror.playground/Sources/TwoWayMirror.swift:182 | when nothing in `x` is opaque, an array of a type that is not containable, or named "super", what is restored is `x` itself |
| RoundTrip.RoundTripExact | TwoWayMirrorTests/TwoWayMirrorTests.swift:75-83 | without opaque values, arrays of a type that is not containable and children named "super", and with distinct child names and the fresh instance's enum cases, the round trip reproduces the instance exactly |
| RoundTrip.OpaqueFieldKeepsFresh | TwoWayMirror.playground/Sources/TwoWayMirror.swift:117 | an enum field encodes as an empty object, so decoding the encoding into a fresh instance keeps the fresh case, not the one encoded |
| Mirror.Reflect | TwoWayMirror.playground/Sources/TwoWayMirror.swift:30-45 | the search loop over children with recursion into the first match computes `Paths.Resolve` |
| Mirror.EncodeValue | TwoWayMirror.playground/Sources/TwoWayMirror.swift:142-187 | the loops that fill the array and the dictionary compute `Codec.Encode`, `decodeElements(from:into:)` included |
| Mirror.Instance.constructor | TwoWayMirror.playground/Sources/TwoWayMirror.swift:216-218 | a new holder object stores the instance it is given |
| Mirror.Instance.ReflectTyped | TwoWayMirror.playground/Sources/TwoWayMirror.swift:47-54 | the typed reflect returns `Paths.Locate` of the object's storage |
| Mirror.Instance.Get | TwoWayMirror.playground/Sources/TwoWayMirror.swift:61-63 | the getter returns `Paths.Lookup`, a value of the requested type |
| Mirror.Instance.Set | TwoWayMirror.playground/Sources/TwoWayMirror.swift:64-66 | the setter updates the storage to `Paths.Update` and passes. When the path or type is wrong it fails with that error and leaves the object unchanged |
| Mirror.Instance.Decode | TwoWayMirror.playground/Sources/TwoWayMirror.swift:76-79 | decoding into the object leaves it as `Codec.Decode` of its old storage, or reports that function's error |
| Mirror.Instance.DecodeAt | TwoWayMirror.playground/Sources/TwoWayMirror.swift:81-125 | decoding in place at a location writes `Codec.Decode` of the old field there and touches nothing else, or reports its error |
| Mirror.Instance.DecodeLeaf | TwoWayMirror.playground/Sources/TwoWayMirror.swift:83-116 | Int, Double, String and Date fields are overwritten with the cast or parsed value, as `Codec.Decode` says |
| Mirror.Instance.DecodeIntArray | TwoWayMirror.playground/Sources/TwoWayMirror.swift:85-90 | `removeAll()` and then one `append` per element leave the field as `Codec.Decode` says |
| Mirror.Instance.DecodeDoubleArray | TwoWayMirror.playground/Sources/TwoWayMirror.swift:93-98 | `removeAll()` and then one `append` per element leave the field as `Codec.Decode` says |
| Mirror.Instance.DecodeStringArray | TwoWayMirror.playground/Sources/TwoWayMirror.swift:101-106 | `removeAll()` and then one `append` per element leave the field as `Codec.Decode` says |
| Mirror.Instance.DecodeElements | TwoWayMirror.playground/Sources/TwoWayMirror.swift:109-113 | one `encodeElement` per source element leaves the array as `Codec.Decode` says: old elements followed by the decoded ones |
| Mirror.Instance.AppendElement | TwoWayMirror.playground/Sources/TwoWayMirror.swift:202-207 | `encodeElement` appends the source element decoded into a fresh `T()`. On failure the array is untouched |
| Mirror.Instance.DecodeFields | TwoWayMirror.playground/Sources/TwoWayMirror.swift:117-124 | the loop over children, decoding each keyed child in place, leaves the composite with the children the steps of `Codec.Decode` compute, or stops at the first failing child's error |
| Mirror.Instance.DecodeChild | TwoWayMirror.playground/Sources/TwoWayMirror.swift:119-122 | one turn of that loop replaces exactly child `index` with its decoded value, or leaves it when its name is not a key |

## Left out

- The Swift runtime: `swift_reflectAny`, the layout of existential containers and the pointer casts. The instance is a tree of named fields, and a pointer is a location in it.
- Aliasing: two pointers obtained for the same field are not modelled, because a location is a value and writes go through `ReplaceAt`.
- Shared class references: a class instance reachable from two fields is two separate copies here, so a decode or a set through one reference is not seen through the other, as it is in Swift.
- Cyclic object graphs: a value is a finite tree, so an object that reaches itself is not modelled; on one, `encode` recurses without end.
- JSON text: `JSONSerialization` parsing and writing (`decode(object:json:)`, `encode(object:options:)`) are not modelled. The model starts from a `DynamicValue`.
- Bool and other NSNumber kinds are not modelled, because a JSON number is a `real`.
- The order of keys in the dictionary `encode` builds is not modelled, because `NSMutableDictionary` guarantees none; an object is a `map`.
- The date formatter's format "yyyy-MM-dd HH:mm:ssZZZZZ": dates are an integer timestamp, and the formatter and parser are parameters in `Env`. The round trip assumes the parser reads back every date the formatter writes. With the real formatter this holds only for whole seconds: the format keeps no fraction, so a `Date()` with a fractional part does not round-trip, and the integer timestamp hides this.
- Values.IntValueOf: does not model the 64-bit range of `Int`, nor the rounding of `Double`, because numbers are unbounded integers and exact reals.
- Mirror.Instance.DecodeAt: on failure, the partly decoded state of the object is left unstated, because in Swift the failure is a trap that ends the program.
- Mirror.Instance.Decode: the same as DecodeAt; on failure the object's state is left unstated.
- The demo playground `Contents.swift` and the other tests are not modelled. They only print and dump values.
- Opaque fields: an enum without payloads, a Bool or a Float is not restored by a round trip and cannot be set by decoding; it keeps the fresh instance's value, as `RoundTrip.Restored` and `RoundTrip.OpaqueFieldKeepsFresh` state.
- An enum case with a payload is a composite whose one child is named after the current case; decoding cannot switch the case, and a member named after another case is ignored.
- RoundTrip.RoundTrip: does not cover a type with two children of the same name, nor an enum field whose case with a payload differs from the fresh instance's, because the encoding keeps only the last child of a name and the case name is not decoded; `Compatible` excludes both.
- Writes into an enum payload: a decode or a subscript set through the child of an enum case with a payload (an `Optional`'s `some`, say) is modelled as reaching the field's own storage. This is an assumption about the Swift runtime's mirror; if it reflects a boxed copy of the payload, such writes are lost.
- Names are compared as sequences of code points, not by Unicode canonical equivalence as Swift's `String` does, in the path search (`FirstMatch`), the member lookup (`FieldSteps`) and the "super" test (`Members`). A precomposed and a decomposed spelling of the same name match in Swift but not here.
- Thread safety of the shared date formatter is not modelled.
