/** The ordered registry of special-type descriptors and its dispatch rule:
    the registry is scanned from the last-registered descriptor to the first,
    and the first whose predicate holds wins. */
module Registry {
  import opened Wrappers
  import opened Values

  /** One special type: `accepts` is its `is` predicate, recognising its values, `serialize` turns one into
      tagged text, or fails when re-entering the serializer on its payload throws. */
  datatype Descriptor = Descriptor(accepts: Value -> bool, serialize: Value -> Result<string, string>)

  /** The index of the highest-index descriptor recognising `v`, if any. */
  function LastMatch(types: seq<Descriptor>, v: Value): (r: Option<nat>)
    ensures r.Some? ==> r.value < |types| && types[r.value].accepts(v)
    ensures r.Some? ==> forall j :: r.value < j < |types| ==> !types[j].accepts(v)
    ensures r.None? ==> forall j :: 0 <= j < |types| ==> !types[j].accepts(v)
    decreases |types|
  {
    if |types| == 0 then None
    else if types[|types| - 1].accepts(v) then Some(|types| - 1)
    else LastMatch(types[..|types| - 1], v)
  }

  /** A fresh reversed copy, `types.slice().reverse()`. */
  function Reversed<T>(s: seq<T>): (r: seq<T>)
    ensures |r| == |s|
    ensures forall i :: 0 <= i < |s| ==> r[i] == s[|s| - 1 - i]
  {
    seq(|s|, i requires 0 <= i < |s| => s[|s| - 1 - i])
  }

  /** The dispatch loop as written: walk the reversed copy front to back and
      stop at the first descriptor recognising `v`; the answer is that
      descriptor's position in the registry itself. */
  method ScanReversed(types: seq<Descriptor>, v: Value) returns (found: Option<nat>)
    ensures found == LastMatch(types, v)
  {
    var reversed := Reversed(types);
    var k := 0;
    while k < |reversed|
      invariant 0 <= k <= |reversed|
      invariant forall j :: |types| - k <= j < |types| ==> !types[j].accepts(v)
    {
      if reversed[k].accepts(v) {
        found := Some(|types| - 1 - k);
        return;
      }
      k := k + 1;
    }
    found := None;
  }

  /** A descriptor registered later shadows every earlier one that also
      recognises the value. */
  lemma LaterShadowsEarlier(types: seq<Descriptor>, v: Value, i: nat, j: nat)
    requires i < j < |types|
    requires types[i].accepts(v) && types[j].accepts(v)
    ensures LastMatch(types, v) != Some(i)
  {
  }

  /** The dispatch result is determined by the descriptor's own position:
      the highest-index recognising descriptor is the one chosen. */
  lemma LastMatchCharacterised(types: seq<Descriptor>, v: Value, i: nat)
    requires i < |types| && types[i].accepts(v)
    requires forall j :: i < j < |types| ==> !types[j].accepts(v)
    ensures LastMatch(types, v) == Some(i)
  {
  }

  /** Registering a descriptor that recognises `v` makes it the winner for `v`. */
  lemma {:induction false} AppendedWins(types: seq<Descriptor>, d: Descriptor, v: Value)
    requires d.accepts(v)
    ensures LastMatch(types + [d], v) == Some(|types|)
  {
  }

  /** Registering a descriptor that does not recognise `v` leaves the dispatch
      of `v` as it was. */
  lemma {:induction false} AppendedIgnored(types: seq<Descriptor>, d: Descriptor, v: Value)
    requires !d.accepts(v)
    ensures LastMatch(types + [d], v) == LastMatch(types, v)
  {
    assert (types + [d])[..|types|] == types;
  }
}
