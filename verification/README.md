# json-serializer: the per-node replacer, in Dafny

This project models the decision `stringify` makes at every node of the value
it serializes (`src/stringify.ts`). `stringify` hands a replacer hook to
`JSON.stringify`. For each node the hook does one of four things, in a fixed order:

1. It throws when `forbidReactElements` is on and the node is a React element.
2. It throws when the node is callable.
3. It replaces the node by the tagged text of a registered special type.
   The registry is scanned from the last-registered descriptor to the first.
4. With `sortObjectKeys` on, it re-emits a plain object as a fresh object
   whose keys are sorted. Otherwise it returns the node unchanged.

The sorted copy is filled by plain assignment, `copy[key] = value[key]`
(src/stringify.ts:51). For the key `__proto__` that assignment runs the setter
every plain object inherits, so it creates no own property. The copy therefore
holds every own key of the original except `__proto__`. The model states this.

The model also covers `genErrMsg`, which builds the thrown message from the
value's kind, its path, the root's display name and, for a callable at the
root, the callable's own name.

Modules, one per concern:

- `Wrappers`: the `Option` and `Result` datatypes.
- `Values`: the abstract JavaScript value.
  - `Callable` carries the function's `name`.
  - `Object` carries its own properties in key order.
  - `DistinctKeys` is the well-formedness of a property list: no key occurs
    twice, as for the own keys of any JavaScript object. Lemmas about objects
    assume it.
  - `Env` holds the opaque `isReactElement` and `isObject` predicates.
  - `Options` holds the options the hook reads. A `None` option is one the caller left out.
- `KeyOrder`: the string order that `Array.prototype.sort()` uses without a
  comparator, and an insertion sort with its correctness and uniqueness lemmas.
- `SortedCopy`: the `sortObjectKeys` copy.
- `Registry`: type descriptors, the last-match-wins dispatch rule, and the
  dispatch loop as written over a reversed copy.
- `ErrorMessage`: `genErrMsg`.
- `Replacer`: the hook itself, and the lemmas on precedence, dispatch and sorting.

Which value each check reads:

- The React-element check, the callable check and the plain-object test all
  read the node after the engine's own coercions, `value`
  (src/stringify.ts:29, :33, :46).
- Only registry dispatch reads the untouched input `this[key]`
  (src/stringify.ts:38). The model calls this `original`.

The test files expect a message prefix `@brillout/json-serializer (https://…)`
and backticks around names and paths. `genErrMsg` emits
`[@brillout/json-serializer](https://…)` with no backticks. The lemmas state
what the code builds.

## Model

| member | source | states |
|---|---|---|
| Values.Lookup | src/stringify.ts:51 | reading `value[key]` gives `undefined` for a missing key, and for a present key a value stored under that key |
| KeyOrder.LeTotal | src/stringify.ts:49 | any two keys are comparable under the sort order |
| KeyOrder.LeAntisymmetric | src/stringify.ts:49 | two keys that each sort no later than the other are equal |
| KeyOrder.LeTransitive | src/stringify.ts:49 | the sort order is transitive |
| KeyOrder.Sort | src/stringify.ts:48-49 | `sort()` returns the keys in ascending order and as a rearrangement of the input (same multiset) |
| KeyOrder.SortedUnique | src/stringify.ts:49 | two ascending arrangements of the same strings are identical, so the sorted order is unique |
| KeyOrder.SortOfSorted | src/stringify.ts:49 | sorting keys that are already ascending changes nothing |
| KeyOrder.SortPermutationInvariant | src/stringify.ts:48-49 | the sorted keys do not depend on the order the keys came in |
| KeyOrder.TwoKeysSorted | src/stringify.ts:48-49 | the keys of `{b: 2, a: 1}` sort to `["a", "b"]` |
| SortedCopy.Assignable | src/stringify.ts:50-52 | the own keys that the assignments create are the given keys with every `__proto__` removed, and ascending keys stay ascending |
| SortedCopy.CopyInOrder | src/stringify.ts:50-52 | the copy built by the `forEach` has exactly the assignable given keys, in the given order, and each holds the original's value for that key |
| SortedCopy.SortedProps | src/stringify.ts:46-53 | the sorted copy's keys are ascending and are a rearrangement of the original's keys with `__proto__` taken out, and every entry holds the original's value for its key |
| SortedCopy.ProtoKeyNotCopied | src/stringify.ts:51 | the copy never has a `__proto__` own key |
| SortedCopy.SortedPropsKeys | src/stringify.ts:47-53 | on an object with distinct keys, the copy has exactly the original's keys other than `__proto__`, with no repeats, in strictly ascending order |
| SortedCopy.SortedPropsLookup | src/stringify.ts:51 | reading any key other than `__proto__` from the copy, absent keys included, gives what the original gives |
| SortedCopy.SortedPropsShallow | src/stringify.ts:50-52 | every entry of the copy is an entry of the original with its value untouched, so sorting is shallow |
| SortedCopy.SortedPropsOrderIndependent | src/stringify.ts:47-53 | two objects holding the same properties in different insertion orders give the same copy |
| SortedCopy.SortedPropsOfSorted | src/stringify.ts:47-53 | an object whose keys are already ascending, and which has no `__proto__` own key, is copied unchanged |
| Registry.LastMatch | src/stringify.ts:39-44 | the chosen descriptor recognises the value and no higher-index descriptor does; when nothing is chosen, no descriptor recognises it |
| Registry.ScanReversed | src/stringify.ts:39-44 | the loop over `types.slice().reverse()` stops at the descriptor the last-match rule chooses, reported by its position in the unreversed registry |
| Registry.LaterShadowsEarlier | src/stringify.ts:39-43 | when two descriptors recognise a value, the lower-index one is never chosen |
| Registry.LastMatchCharacterised | src/stringify.ts:39-43 | the highest-index recognising descriptor is exactly the one chosen |
| Registry.AppendedWins | src/stringify.ts:39-43 | a descriptor registered last that recognises a value wins for it |
| Registry.AppendedIgnored | src/stringify.ts:39-43 | registering a descriptor that does not recognise a value leaves that value's dispatch unchanged |
| ErrorMessage.MessageFragments | src/stringify.ts:66-68 | `valName` is non-empty iff a truthy name is given; `location` is non-empty iff the path is non-empty; `fallback` is non-empty iff both are empty, and is then the root name |
| ErrorMessage.GenErrMsg | src/stringify.ts:60-70 | every message starts with the library prefix and "cannot serialize", and ends with " because it's a " plus the value kind plus "." |
| ErrorMessage.ExactlyOneFragment | src/stringify.ts:66-68 | for the replacer's three call shapes (named root, unnamed root, non-root without a name), exactly one fragment is non-empty |
| ErrorMessage.NonRootLocation | src/stringify.ts:67 | without a name, a non-root location is a space, the root name and the path, with no "at " |
| ErrorMessage.NamedNonRootLocation | src/stringify.ts:66-68 | a name together with a path gives both a name fragment and an " at " location, and no fallback |
| ErrorMessage.RootUnnamedMessage | src/stringify.ts:63-69 | at the root without a truthy name, the message names the root, using `'value'` when no root name is given |
| ErrorMessage.RootNamedMessage | src/stringify.ts:66-69 | at the root with a truthy name, the message names the value itself |
| ErrorMessage.NestedMessage | src/stringify.ts:67-69 | below the root, the message shows the root name immediately followed by the path |
| ErrorMessage.AnonymousRootFunctionMessage | src/stringify.ts:63-69 | an anonymous root callable gives "… cannot serialize value because it's a function." |
| ErrorMessage.PathOf | test/index.spec.ts:224-232 | a path of `['key']` accessors is empty exactly at the root |
| ErrorMessage.ThreeLevelPath | test/index.spec.ts:224-232 | the node at `some.nested.prop` has the path `['some']['nested']['prop']` |
| ErrorMessage.NestedReactElementMessage | src/stringify.ts:67-69 | a React element at `['some']['nested']['prop']` is reported as `value['some']['nested']['prop']` |
| ErrorMessage.EndingDeterminesKind | src/stringify.ts:69 | no text ends with both the React-element ending and the function ending, so a message's ending determines the value kind |
| ErrorMessage.NestedMessageInjective | src/stringify.ts:67-69 | messages about unnamed non-root values with different kinds or paths always differ |
| Replacer.Replace | src/stringify.ts:28-57 | a refused node always throws; a tagged result comes from a descriptor recognising `this[key]`; an emitted node passed both rejections and no descriptor recognises it; an emitted node that differs from `value` is an object with ascending keys |
| Replacer.ReactElementRefusedFirst | src/stringify.ts:29-31 | with the option on, a React element throws the React-element message before any callable or registry check |
| Replacer.ReactStatusIrrelevantUnlessForbidden | src/stringify.ts:29 | with the option off or absent, the result is the same as if nothing were a React element |
| Replacer.CallableRefused | src/stringify.ts:33-36 | a callable that is not refused as a React element always throws the function message, whatever the other options; its name is passed only when the path is empty |
| Replacer.CallableMessages | src/stringify.ts:33-35 | a named root callable is reported by its name, an anonymous one by the root name, and a non-root one by the root name and path |
| Replacer.DispatchToLastRegistered | src/stringify.ts:38-43 | a node that is not refused becomes what the highest-index descriptor recognising `this[key]` makes of it |
| Replacer.DispatchReadsOriginal | src/stringify.ts:38-43 | once `this[key]` is recognised, the coerced `value` does not affect the result |
| Replacer.RegistryBeforeSorting | src/stringify.ts:39-46 | a recognised node is never key-sorted or passed through |
| Replacer.PlainObjectSorted | src/stringify.ts:46-54 | with `sortObjectKeys` on, an unrecognised plain object becomes a fresh plain object with the same keys other than `__proto__`, in strictly ascending order, each reading the same value |
| Replacer.UnchangedOtherwise | src/stringify.ts:46-56 | with no match, and either sorting off or a non-plain-object value, the node is returned unchanged |

## Left out

- `JSON.stringify` itself is not modelled: traversal order, native coercions such as `toJSON`, the `space` indentation and the cyclic-reference `TypeError` belong to the base engine. The `space` option is therefore absent from `Options`.
- The concrete type descriptors (`./types`) and `parse` are not part of this model. The registry is a sequence of opaque recognise/serialize pairs, and the `!` escaping and tag formats are not modelled.
- A descriptor's `serialize` may re-enter the serializer on a payload, which can throw. It is modelled as returning either tagged text or the thrown message.
- `replacerWithPath` is not part of this model. The path is an input string, and `PathOf` only renders the `['key']` shape the tests show.
- `isReactElement`, `isCallable` and `isObject` are opaque. The first and third are fields of `Env`; the second is the `Callable` constructor, so that the callable's `name` is available.
- JavaScript's reordering of integer-like keys in objects is not modelled. The copy is an ordered list of properties.
- Key comparison uses Dafny `char` order, that is Unicode code points. JavaScript's `sort()` compares UTF-16 code units, which differs only for characters outside the Basic Multilingual Plane.
- Property reads do not model prototype-chain lookups, getters, or a `name` property that is not a string.
- The sorted copy is modelled as an object whose constructor name is `"Object"`. Nothing else about its prototype is modelled, including the prototype change that assigning an object to `__proto__` causes.
- SortedCopy.SortedProps: the copy's own keys and values are modelled, but not the prototype that `copy['__proto__'] = v` gives it when `v` is an object.
- SortedCopy.SortedPropsLookup: makes no claim about reading `__proto__` from the copy, because that read reaches the copy's prototype, which the model does not have.
- Replacer.PlainObjectSorted: makes no claim about reading `__proto__` from the emitted copy, for the same reason.
- `Registry.ScanReversed` does not state that the registry is unchanged: sequences are immutable values, so nothing can modify it. The source gets the same guarantee by calling `slice()` before `reverse()`.
