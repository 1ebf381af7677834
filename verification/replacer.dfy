/** The per-node hook `stringify` hands to the base JSON engine: it rejects
    React elements (when asked to) and callables, replaces values a registered
    special type recognises by their tagged text, optionally re-emits plain
    objects with their keys sorted, and otherwise leaves the node alone. */
module Replacer {
  import opened Wrappers
  import opened Values
  import opened KeyOrder
  import opened SortedCopy
  import opened Registry
  import opened ErrorMessage

  /** What the hook does with one node. */
  datatype Replacement =
      /** throw an `Error` with this message */
    | Thrown(message: string)
      /** hand this tagged text to the engine in place of the node */
    | Tagged(text: string)
      /** hand this value to the engine, which keeps descending into it */
    | Emit(value: Value)

  /** The React-element rejection applies: the option is on and the node is one. */
  predicate ForbiddenElement(opts: Options, env: Env, value: Value) {
    Enabled(opts.forbidReactElements) && env.isReactElement(value)
  }

  /** One of the two rejections applies. */
  predicate Rejected(opts: Options, env: Env, value: Value) {
    ForbiddenElement(opts, env, value) || value.Callable?
  }

  /** The name the function message gets: the callable's own name at the
      root, none below it. */
  function CallableName(value: Value, path: string): Option<string>
    requires value.Callable?
  {
    if |path| == 0 then Some(value.name) else None
  }

  /** What a descriptor's serialization turns into. */
  function FromSerialized(s: Result<string, string>): Replacement {
    match s
    case Success(text) => Tagged(text)
    case Failure(message) => Thrown(message)
  }

  /** The replacer for one node. `value` is the node after the engine's own
      coercions, `original` is `this[key]` as it stands in the input, and
      `path` locates the node (empty at the root). */
  function Replace(opts: Options, env: Env, types: seq<Descriptor>, value: Value, original: Value, path: string): (r: Replacement)
    ensures Rejected(opts, env, value) ==> r.Thrown?
    ensures r.Tagged? ==> exists i :: 0 <= i < |types| && types[i].accepts(original)
    ensures r.Emit? ==> !Rejected(opts, env, value)
    ensures r.Emit? ==> forall j :: 0 <= j < |types| ==> !types[j].accepts(original)
    ensures r.Emit? && r.value != value ==> r.value.Object? && Sorted(KeysOf(r.value.props))
  {
    if ForbiddenElement(opts, env, value) then
      Thrown(GenErrMsg(ReactElement, path, opts.valueName, None))
    else if value.Callable? then
      Thrown(GenErrMsg(Function, path, opts.valueName, CallableName(value, path)))
    else
      match LastMatch(types, original)
      case Some(i) => FromSerialized(types[i].serialize(original))
      case None =>
        if Enabled(opts.sortObjectKeys) && env.isObject(value) then
          Emit(Object("Object", SortedProps(OwnProps(value))))
        else
          Emit(value)
  }

  /** With the option on, a React element is refused before anything else is
      looked at, with a message ending "because it's a React element." */
  lemma ReactElementRefusedFirst(opts: Options, env: Env, types: seq<Descriptor>, value: Value, original: Value, path: string)
    requires ForbiddenElement(opts, env, value)
    ensures var r := Replace(opts, env, types, value, original, path);
      && r == Thrown(GenErrMsg(ReactElement, path, opts.valueName, None))
      && r.message[|r.message| - |Because(ReactElement)|..] == " because it's a React element."
  {
    var m := GenErrMsg(ReactElement, path, opts.valueName, None);
    assert Replace(opts, env, types, value, original, path) == Thrown(m);
    assert m[|m| - |Because(ReactElement)|..] == Because(ReactElement);
    assert Because(ReactElement) == " because it's a React element.";
  }

  /** With the option off or left out, whether a node is a React element
      makes no difference at all. */
  lemma ReactStatusIrrelevantUnlessForbidden(opts: Options, env: Env, types: seq<Descriptor>, value: Value, original: Value, path: string)
    requires !Enabled(opts.forbidReactElements)
    ensures Replace(opts, env, types, value, original, path)
      == Replace(opts, env.(isReactElement := (_: Value) => false), types, value, original, path)
  {
  }

  /** A callable is always refused, whatever the options, unless the
      React-element rejection got there first; its own name is handed to the
      message builder only at the root. */
  lemma CallableRefused(opts: Options, env: Env, types: seq<Descriptor>, value: Value, original: Value, path: string)
    requires value.Callable? && !ForbiddenElement(opts, env, value)
    ensures var r := Replace(opts, env, types, value, original, path);
      && r == Thrown(GenErrMsg(Function, path, opts.valueName, if |path| == 0 then Some(value.name) else None))
      && r.message[|r.message| - |Because(Function)|..] == " because it's a function."
  {
    var m := GenErrMsg(Function, path, opts.valueName, CallableName(value, path));
    assert Replace(opts, env, types, value, original, path) == Thrown(m);
    assert Because(Function) == " because it's a function.";
  }

  /** The three messages a callable can get: its own name at the root when it
      has one, the root name at the root when it is anonymous, and the root
      name followed by the path below the root (a name is never shown there). */
  lemma CallableMessages(opts: Options, env: Env, types: seq<Descriptor>, value: Value, original: Value, path: string)
    requires value.Callable? && !ForbiddenElement(opts, env, value)
    ensures var m := Replace(opts, env, types, value, original, path).message;
      && (|path| == 0 && value.name != "" ==>
            m == Prefix + " cannot serialize " + value.name + Because(Function))
      && (|path| == 0 && value.name == "" ==>
            m == Prefix + " cannot serialize " + RootName(opts.valueName) + Because(Function))
      && (|path| > 0 ==>
            m == Prefix + " cannot serialize " + RootName(opts.valueName) + path + Because(Function))
  {
    CallableRefused(opts, env, types, value, original, path);
    if |path| == 0 {
      if value.name != "" {
        RootNamedMessage(Function, opts.valueName, Some(value.name));
      } else {
        RootUnnamedMessage(Function, opts.valueName, Some(value.name));
      }
    } else {
      NestedMessage(Function, path, opts.valueName, None);
    }
  }

  /** A node that is not refused and that some descriptor recognises (as
      `this[key]`) is replaced by what the highest-index recognising
      descriptor makes of it; lower-index descriptors are ignored. */
  lemma DispatchToLastRegistered(opts: Options, env: Env, types: seq<Descriptor>, value: Value, original: Value, path: string, i: nat)
    requires !Rejected(opts, env, value)
    requires i < |types| && types[i].accepts(original)
    requires forall j :: i < j < |types| ==> !types[j].accepts(original)
    ensures Replace(opts, env, types, value, original, path) == FromSerialized(types[i].serialize(original))
  {
    LastMatchCharacterised(types, original, i);
  }

  /** Registry dispatch reads the original `this[key]`, not the coerced
      `value`: once the original is recognised, two coerced values that are
      both let through give the same result. */
  lemma DispatchReadsOriginal(opts: Options, env: Env, types: seq<Descriptor>, v1: Value, v2: Value, original: Value, path: string)
    requires !Rejected(opts, env, v1) && !Rejected(opts, env, v2)
    requires LastMatch(types, original).Some?
    ensures Replace(opts, env, types, v1, original, path) == Replace(opts, env, types, v2, original, path)
  {
  }

  /** A recognised node is never key-sorted nor passed through, even with
      `sortObjectKeys` on and a plain-object value. */
  lemma RegistryBeforeSorting(opts: Options, env: Env, types: seq<Descriptor>, value: Value, original: Value, path: string)
    requires !Rejected(opts, env, value)
    requires exists i :: 0 <= i < |types| && types[i].accepts(original)
    ensures !Replace(opts, env, types, value, original, path).Emit?
  {
  }

  /** With `sortObjectKeys` on, an unrecognised plain object is replaced by a
      fresh plain object holding exactly its keys other than `__proto__`, in
      strictly ascending order, each such key reading the same value as in
      the original. */
  lemma PlainObjectSorted(opts: Options, env: Env, types: seq<Descriptor>, value: Value, original: Value, path: string)
    requires !Rejected(opts, env, value)
    requires forall j :: 0 <= j < |types| ==> !types[j].accepts(original)
    requires Enabled(opts.sortObjectKeys) && env.isObject(value)
    requires DistinctKeys(OwnProps(value))
    ensures var r := Replace(opts, env, types, value, original, path);
      && r.Emit? && r.value.Object? && r.value.className == "Object"
      && (forall i, j :: 0 <= i < j < |r.value.props| ==> Lt(r.value.props[i].key, r.value.props[j].key))
      && (forall k :: k in KeysOf(r.value.props) <==> k in KeysOf(OwnProps(value)) && k != ProtoKey)
      && (forall k :: k != ProtoKey ==> Lookup(r.value.props, k) == Lookup(OwnProps(value), k))
  {
    var props := OwnProps(value);
    var r := Replace(opts, env, types, value, original, path);
    assert LastMatch(types, original).None?;
    var c := SortedProps(props);
    assert r == Emit(Object("Object", c));
    SortedPropsKeys(props);
    forall i, j | 0 <= i < j < |c|
      ensures Lt(c[i].key, c[j].key)
    {
      assert KeysOf(c)[i] == c[i].key;
      assert KeysOf(c)[j] == c[j].key;
    }
    forall k | k != ProtoKey
      ensures Lookup(c, k) == Lookup(props, k)
    {
      SortedPropsLookup(props, k);
    }
  }

  /** An unrecognised node that is not refused comes back unchanged unless it
      is a plain object and `sortObjectKeys` is on. */
  lemma UnchangedOtherwise(opts: Options, env: Env, types: seq<Descriptor>, value: Value, original: Value, path: string)
    requires !Rejected(opts, env, value)
    requires forall j :: 0 <= j < |types| ==> !types[j].accepts(original)
    requires !(Enabled(opts.sortObjectKeys) && env.isObject(value))
    ensures Replace(opts, env, types, value, original, path) == Emit(value)
  {
  }
}
