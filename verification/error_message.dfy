/** The diagnostic text thrown when a node cannot be serialized. */
module ErrorMessage {
  import opened Wrappers

  /** The two kinds of value the serializer refuses. */
  datatype ValueType = ReactElement | Function

  function TypeName(t: ValueType): string {
    match t
    case ReactElement => "React element"
    case Function => "function"
  }

  /** The library's name and home page, leading every message. */
  const Prefix: string := "[@brillout/json-serializer](https://github.com/brillout/json-serializer)"

  /** The name the root value goes by when the caller gives none. */
  const DefaultRootName: string := "value"

  /** A default parameter: only a missing argument falls back to `'value'`;
      an explicit empty string is kept. */
  function RootName(rootValueName: Option<string>): string {
    match rootValueName
    case None => DefaultRootName
    case Some(name) => name
  }

  /** JavaScript truthiness of an optional string: present and non-empty. */
  predicate Truthy(s: Option<string>) {
    s.Some? && s.value != ""
  }

  /** The three pieces between "cannot serialize" and "because". */
  datatype Fragments = Fragments(valName: string, location: string, fallback: string)

  function MessageFragments(path: string, rootValueName: Option<string>, problematicValueName: Option<string>): (f: Fragments)
    ensures f.valName != "" <==> Truthy(problematicValueName)
    ensures f.location != "" <==> |path| > 0
    ensures f.fallback != "" <==> f.valName == "" && f.location == ""
    ensures f.fallback != "" ==> f.fallback == " " + RootName(rootValueName)
  {
    var valName := if Truthy(problematicValueName) then " " + problematicValueName.value else "";
    var location := if |path| == 0 then "" else " " + (if valName != "" then "at " else "") + RootName(rootValueName) + path;
    var fallback := if valName == "" && location == "" then " " + RootName(rootValueName) else "";
    Fragments(valName, location, fallback)
  }

  /** The text that ends every message for a value of type `t`. */
  function Because(t: ValueType): string {
    " because it's a " + TypeName(t) + "."
  }

  /** `genErrMsg(valueType, path, rootValueName, problematicValueName)`. */
  function GenErrMsg(valueType: ValueType, path: string, rootValueName: Option<string>, problematicValueName: Option<string>): (msg: string)
    ensures |msg| >= |Prefix + " cannot serialize"| + |Because(valueType)|
    ensures msg[..|Prefix + " cannot serialize"|] == Prefix + " cannot serialize"
    ensures msg[|msg| - |Because(valueType)|..] == Because(valueType)
  {
    var f := MessageFragments(path, rootValueName, problematicValueName);
    Framed(Prefix + " cannot serialize", f.valName, f.location, f.fallback, Because(valueType));
    Prefix + " cannot serialize" + f.valName + f.location + f.fallback + Because(valueType)
  }

  /** A text built from a head, three pieces and a tail starts with the head
      and ends with the tail. */
  lemma Framed(head: string, a: string, b: string, c: string, tail: string)
    ensures var m := head + a + b + c + tail;
      && |m| >= |head| + |tail|
      && m[..|head|] == head
      && m[|m| - |tail|..] == tail
  {
  }

  /** How many of the three fragments are non-empty. */
  function NonEmptyCount(f: Fragments): nat {
    (if f.valName != "" then 1 else 0)
    + (if f.location != "" then 1 else 0)
    + (if f.fallback != "" then 1 else 0)
  }

  /** In the three ways the replacer calls it (a named callable at the root,
      anything else at the root, anything below the root without a name),
      exactly one fragment is non-empty. */
  lemma ExactlyOneFragment(path: string, rootValueName: Option<string>, problematicValueName: Option<string>)
    requires |path| == 0 || problematicValueName.None?
    ensures NonEmptyCount(MessageFragments(path, rootValueName, problematicValueName)) == 1
  {
  }

  /** Below the root and without a name, the location is the root name
      followed directly by the path, with no "at ". */
  lemma NonRootLocation(path: string, rootValueName: Option<string>, problematicValueName: Option<string>)
    requires |path| > 0 && !Truthy(problematicValueName)
    ensures MessageFragments(path, rootValueName, problematicValueName).location == " " + RootName(rootValueName) + path
  {
  }

  /** A name and a path together give both a name and an "at" location; the
      replacer never asks for this shape. */
  lemma NamedNonRootLocation(path: string, rootValueName: Option<string>, problematicValueName: Option<string>)
    requires |path| > 0 && Truthy(problematicValueName)
    ensures var f := MessageFragments(path, rootValueName, problematicValueName);
      f.valName == " " + problematicValueName.value
      && f.location == " at " + RootName(rootValueName) + path
      && f.fallback == ""
  {
  }

  /** The message for an unnamed value at the root names the root. */
  lemma RootUnnamedMessage(t: ValueType, rootValueName: Option<string>, problematicValueName: Option<string>)
    requires !Truthy(problematicValueName)
    ensures GenErrMsg(t, "", rootValueName, problematicValueName)
      == Prefix + " cannot serialize " + RootName(rootValueName) + Because(t)
  {
    var f := MessageFragments("", rootValueName, problematicValueName);
    assert f.valName == "" && f.location == "";
    assert f.fallback == " " + RootName(rootValueName);
    assert Prefix + " cannot serialize" + " " == Prefix + " cannot serialize ";
    RegroupFallback(Prefix + " cannot serialize", RootName(rootValueName), Because(t));
  }

  /** The message for a named value at the root names the value itself. */
  lemma RootNamedMessage(t: ValueType, rootValueName: Option<string>, problematicValueName: Option<string>)
    requires Truthy(problematicValueName)
    ensures GenErrMsg(t, "", rootValueName, problematicValueName)
      == Prefix + " cannot serialize " + problematicValueName.value + Because(t)
  {
    var f := MessageFragments("", rootValueName, problematicValueName);
    assert f.location == "" && f.fallback == "";
    assert f.valName == " " + problematicValueName.value;
    assert Prefix + " cannot serialize" + " " == Prefix + " cannot serialize ";
    RegroupName(Prefix + " cannot serialize", problematicValueName.value, Because(t));
  }

  /** The message for an unnamed value below the root shows the root name
      immediately followed by the path. */
  lemma NestedMessage(t: ValueType, path: string, rootValueName: Option<string>, problematicValueName: Option<string>)
    requires |path| > 0 && !Truthy(problematicValueName)
    ensures GenErrMsg(t, path, rootValueName, problematicValueName)
      == Prefix + " cannot serialize " + RootName(rootValueName) + path + Because(t)
  {
    var f := MessageFragments(path, rootValueName, problematicValueName);
    var head := Prefix + " cannot serialize";
    assert f.valName == "" && f.fallback == "";
    assert f.location == " " + RootName(rootValueName) + path;
    assert head + " " == Prefix + " cannot serialize ";
    Regroup(head, " ", RootName(rootValueName), path, Because(t));
  }

  /** Moving the separating space from the fallback fragment to the head. */
  lemma RegroupFallback(head: string, name: string, tail: string)
    ensures head + "" + "" + (" " + name) + tail == (head + " ") + name + tail
  {
  }

  /** Moving the separating space from the name fragment to the head. */
  lemma RegroupName(head: string, name: string, tail: string)
    ensures head + (" " + name) + "" + "" + tail == (head + " ") + name + tail
  {
  }

  /** Moving the separating space from the location fragment to the head. */
  lemma Regroup(head: string, sep: string, name: string, path: string, tail: string)
    ensures head + "" + (sep + name + path) + "" + tail == (head + sep) + name + path + tail
  {
  }

  /** An anonymous callable passed as the root value. */
  lemma AnonymousRootFunctionMessage()
    ensures GenErrMsg(Function, "", None, Some(""))
      == Prefix + " cannot serialize " + "value" + " because it's a function."
  {
    RootUnnamedMessage(Function, None, Some(""));
  }

  /** One `['key']` accessor per level: the form of the path that
      `replacerWithPath` hands to the replacer (replacerWithPath.ts is not
      part of this model). */
  function PathOf(keys: seq<string>): (path: string)
    ensures |path| == 0 <==> |keys| == 0
  {
    if |keys| == 0 then "" else PathOf(keys[..|keys| - 1]) + "['" + keys[|keys| - 1] + "']"
  }

  /** Going one level deeper appends one accessor. */
  lemma PathOfAppend(keys: seq<string>, k: string)
    ensures PathOf(keys + [k]) == PathOf(keys) + "['" + k + "']"
  {
    assert (keys + [k])[..|keys|] == keys;
  }

  /** The path of a node three levels deep. */
  lemma ThreeLevelPath()
    ensures PathOf(["some", "nested", "prop"]) == "['some']['nested']['prop']"
  {
    var one, two, three := ["some"], ["some", "nested"], ["some", "nested", "prop"];
    assert one == [] + ["some"];
    assert two == one + ["nested"];
    assert three == two + ["prop"];
    PathOfAppend([], "some");
    PathOfAppend(one, "nested");
    PathOfAppend(two, "prop");
    assert PathOf(one) == "['some']";
    assert PathOf(two) == "['some']['nested']";
  }

  /** A React element three levels deep. */
  lemma NestedReactElementMessage()
    ensures GenErrMsg(ReactElement, PathOf(["some", "nested", "prop"]), None, None)
      == Prefix + " cannot serialize " + "value" + "['some']['nested']['prop']" + " because it's a React element."
  {
    ThreeLevelPath();
    NestedMessage(ReactElement, "['some']['nested']['prop']", None, None);
    assert RootName(None) == "value";
    assert Because(ReactElement) == " because it's a React element.";
  }

  /** `m` ends with `e`. */
  predicate EndsWith(m: string, e: string) {
    |e| <= |m| && m[|m| - |e|..] == e
  }

  /** The ending of a message names one kind only: no text ends with both
      endings, so the kind can be read back from the message. */
  lemma EndingDeterminesKind(m: string, t1: ValueType, t2: ValueType)
    requires EndsWith(m, Because(t1)) && EndsWith(m, Because(t2))
    ensures t1 == t2
  {
    assert m[|m| - 2] == Because(t1)[|Because(t1)| - 2];
    assert m[|m| - 2] == Because(t2)[|Because(t2)| - 2];
  }

  /** A message about an unnamed value below the root identifies both the
      kind of value and its path: different paths or kinds never produce the
      same text. */
  lemma {:induction false} NestedMessageInjective(
    t1: ValueType, p1: string, t2: ValueType, p2: string,
    rootValueName: Option<string>, n1: Option<string>, n2: Option<string>)
    requires |p1| > 0 && !Truthy(n1)
    requires |p2| > 0 && !Truthy(n2)
    requires GenErrMsg(t1, p1, rootValueName, n1) == GenErrMsg(t2, p2, rootValueName, n2)
    ensures t1 == t2 && p1 == p2
  {
    var head := Prefix + " cannot serialize " + RootName(rootValueName);
    NestedMessage(t1, p1, rootValueName, n1);
    NestedMessage(t2, p2, rootValueName, n2);
    var m1, m2 := head + p1 + Because(t1), head + p2 + Because(t2);
    assert m1 == m2;
    assert EndsWith(m1, Because(t1)) && EndsWith(m1, Because(t2));
    EndingDeterminesKind(m1, t1, t2);
    assert p1 == m1[|head|..|m1| - |Because(t1)|];
    assert p2 == m2[|head|..|m2| - |Because(t2)|];
  }
}
