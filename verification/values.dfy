/** The values the serializer's per-node hook sees, the environment predicates
    it consults, and its configuration. */
module Values {
  import opened Wrappers

  /** One own enumerable string-keyed property of an object. */
  datatype Prop = Prop(key: string, val: Value)

  /** A JavaScript value, abstracted to what the per-node decision can observe. */
  datatype Value =
    | Undefined
      /** any other primitive (null, a boolean, a number, a string, a bigint),
          identified by its literal text; its contents are opaque here */
    | Primitive(literal: string)
      /** a callable; `name` is its `name` property, "" when anonymous */
    | Callable(name: string)
      /** any other object: its constructor's name and its own properties in key order */
    | Object(className: string, props: seq<Prop>)

  /** The opaque classification predicates the serializer is given. */
  datatype Env = Env(isReactElement: Value -> bool, isObject: Value -> bool)

  /** The options of `stringify` that the per-node decision reads; `None` is an
      option left out by the caller. */
  datatype Options = Options(
    forbidReactElements: Option<bool>,
    valueName: Option<string>,
    sortObjectKeys: Option<bool>)

  /** JavaScript truthiness of an optional boolean flag. */
  predicate Enabled(flag: Option<bool>) {
    flag == Some(true)
  }

  /** The keys of a property list, in order. */
  function KeysOf(props: seq<Prop>): seq<string> {
    seq(|props|, i requires 0 <= i < |props| => props[i].key)
  }

  /** Well-formedness of a property list: no key occurs twice, as holds for
      the own properties of every JavaScript object. */
  predicate DistinctKeys(props: seq<Prop>) {
    forall i, j :: 0 <= i < j < |props| ==> props[i].key != props[j].key
  }

  /** Property read `obj[key]`: the value stored under `key`, or `undefined`. */
  function Lookup(props: seq<Prop>, key: string): (v: Value)
    ensures key !in KeysOf(props) ==> v == Undefined
    ensures key in KeysOf(props) ==> Prop(key, v) in props
  {
    if |props| == 0 then Undefined
    else
      assert KeysOf(props) == [props[0].key] + KeysOf(props[1..]);
      if props[0].key == key then props[0].val
      else Lookup(props[1..], key)
  }

  /** `Object.keys(v)` together with the values: an object's own properties,
      nothing for a non-object. */
  function OwnProps(v: Value): seq<Prop> {
    if v.Object? then v.props else []
  }
}
