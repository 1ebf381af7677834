/** The `sortObjectKeys` copy: a fresh object whose keys are the original
    object's keys in ascending order, each holding the original's value. */
module SortedCopy {
  import opened Values
  import opened KeyOrder

  /** The one key for which `copy[key] = …` creates no own property: on a
      fresh plain object the assignment reaches the `__proto__` setter
      inherited from `Object.prototype`, which changes the copy's prototype. */
  const ProtoKey: string := "__proto__"

  /** The keys of `keys` that such an assignment creates, in order. */
  function Assignable(keys: seq<string>): (r: seq<string>)
    ensures multiset(r) == multiset(keys)[ProtoKey := 0]
    ensures Sorted(keys) ==> Sorted(r)
  {
    if |keys| == 0 then []
    else
      assert keys == [keys[0]] + keys[1..];
      var rest := Assignable(keys[1..]);
      if keys[0] == ProtoKey then rest
      else
        assert Sorted(keys) ==> Sorted([keys[0]] + rest) by {
          if Sorted(keys) {
            SortedHeadBeforeSelection(keys, rest);
          }
        }
        [keys[0]] + rest
  }

  /** The own keys of the copy that `copy[key] = props[key]` builds for each
      key of `keys` in turn, with the values they hold. */
  function CopyInOrder(props: seq<Prop>, keys: seq<string>): (c: seq<Prop>)
    ensures KeysOf(c) == Assignable(keys)
    ensures forall i :: 0 <= i < |c| ==> c[i].val == Lookup(props, c[i].key)
  {
    if |keys| == 0 then []
    else if keys[0] == ProtoKey then CopyInOrder(props, keys[1..])
    else
      var head, rest := Prop(keys[0], Lookup(props, keys[0])), CopyInOrder(props, keys[1..]);
      KeysOfConcat([head], rest);
      [head] + rest
  }

  /** `Object.keys(value).sort().forEach(key => copy[key] = value[key])`. */
  function SortedProps(props: seq<Prop>): (c: seq<Prop>)
    ensures Sorted(KeysOf(c))
    ensures multiset(KeysOf(c)) == multiset(KeysOf(props))[ProtoKey := 0]
    ensures forall i :: 0 <= i < |c| ==> c[i].val == Lookup(props, c[i].key)
  {
    CopyInOrder(props, Sort(KeysOf(props)))
  }

  /** The well-formedness predicate, read on the keys. */
  lemma DistinctKeysOf(props: seq<Prop>)
    requires DistinctKeys(props)
    ensures Distinct(KeysOf(props))
  {
  }

  /** On a property list with distinct keys, reading a key gives the value
      stored beside it. */
  lemma {:induction false} LookupAt(props: seq<Prop>, i: int)
    requires Distinct(KeysOf(props)) && 0 <= i < |props|
    ensures Lookup(props, props[i].key) == props[i].val
    decreases i
  {
    if i > 0 {
      var tail := props[1..];
      assert KeysOf(props)[0] != KeysOf(props)[i];
      assert Distinct(KeysOf(tail)) by {
        forall a, b | 0 <= a < b < |tail|
          ensures KeysOf(tail)[a] != KeysOf(tail)[b]
        {
          assert KeysOf(props)[a + 1] != KeysOf(props)[b + 1];
        }
      }
      LookupAt(tail, i - 1);
      assert tail[i - 1] == props[i];
    }
  }

  /** The copy never holds a `__proto__` own key. */
  lemma ProtoKeyNotCopied(props: seq<Prop>)
    ensures ProtoKey !in KeysOf(SortedProps(props))
  {
    assert multiset(KeysOf(SortedProps(props)))[ProtoKey] == 0;
  }

  /** On a well-formed object, the copy has exactly the original's keys other
      than `__proto__`, none repeated, in strictly ascending order. */
  lemma SortedPropsKeys(props: seq<Prop>)
    requires DistinctKeys(props)
    ensures var ks := KeysOf(SortedProps(props));
      && Distinct(ks)
      && (forall i, j :: 0 <= i < j < |ks| ==> Lt(ks[i], ks[j]))
      && (forall k :: k in ks <==> k in KeysOf(props) && k != ProtoKey)
  {
    var ks := KeysOf(SortedProps(props));
    DistinctKeysOf(props);
    assert multiset(ks) <= multiset(KeysOf(props));
    DistinctSubmultiset(KeysOf(props), ks);
    SortedDistinctStrict(ks);
    forall k
      ensures k in ks <==> k in KeysOf(props) && k != ProtoKey
    {
      assert k in ks <==> k in multiset(ks);
      assert k in KeysOf(props) <==> k in multiset(KeysOf(props));
    }
  }

  /** On a well-formed object, reading any key other than `__proto__` from the
      copy gives what reading it from the original gives, absent keys included. */
  lemma SortedPropsLookup(props: seq<Prop>, k: string)
    requires DistinctKeys(props) && k != ProtoKey
    ensures Lookup(SortedProps(props), k) == Lookup(props, k)
  {
    var c := SortedProps(props);
    SortedPropsKeys(props);
    if k in KeysOf(c) {
      var i :| 0 <= i < |c| && c[i].key == k && c[i].val == Lookup(c, k);
    }
  }

  /** The `i`-th property of the copy is a property of the original. */
  lemma ShallowAt(props: seq<Prop>, c: seq<Prop>, i: int)
    requires DistinctKeys(props) && c == SortedProps(props) && 0 <= i < |c|
    ensures c[i] in props
  {
    assert KeysOf(c)[i] == c[i].key;
    assert c[i].key in multiset(KeysOf(c));
    assert c[i].key in multiset(KeysOf(props));
    var j :| 0 <= j < |props| && KeysOf(props)[j] == c[i].key;
    DistinctKeysOf(props);
    LookupAt(props, j);
  }

  /** Sorting is per object only: every property of the copy is a property of
      the original, with its value untouched (nested objects are sorted when
      the engine reaches them). */
  lemma SortedPropsShallow(props: seq<Prop>)
    requires DistinctKeys(props)
    ensures forall p :: p in SortedProps(props) ==> p in props
  {
    var c := SortedProps(props);
    forall p | p in c
      ensures p in props
    {
      var i :| 0 <= i < |c| && c[i] == p;
      ShallowAt(props, c, i);
    }
  }

  /** The keys of a concatenation are the concatenated keys. */
  lemma KeysOfConcat(a: seq<Prop>, b: seq<Prop>)
    ensures KeysOf(a + b) == KeysOf(a) + KeysOf(b)
  {
    assert forall i :: 0 <= i < |a + b| ==> KeysOf(a + b)[i] == (KeysOf(a) + KeysOf(b))[i];
  }

  /** Removing the property at `j` removes its key from the keys. */
  lemma KeysOfRemove(p: seq<Prop>, j: int)
    requires 0 <= j < |p|
    ensures multiset(KeysOf(p)) == multiset(KeysOf(p[..j] + p[j + 1..])) + multiset{p[j].key}
  {
    var left, right := p[..j], p[j + 1..];
    assert p == left + [p[j]] + right;
    KeysOfConcat(left + [p[j]], right);
    KeysOfConcat(left, [p[j]]);
    KeysOfConcat(left, right);
  }

  /** Removing the element at `j` removes one occurrence of it. */
  lemma RemoveAtMultiset<T>(s: seq<T>, j: int)
    requires 0 <= j < |s|
    ensures multiset(s[..j] + s[j + 1..]) == multiset(s) - multiset{s[j]}
  {
    assert s == s[..j] + [s[j]] + s[j + 1..];
  }

  /** Taking the head of `a` out of `a`, and the same element out of a
      reordering `b`, leaves reorderings of each other. */
  lemma MatchedRemoval<T>(a: seq<T>, b: seq<T>, j: int)
    requires multiset(a) == multiset(b) && |a| > 0
    requires 0 <= j < |b| && b[j] == a[0]
    ensures multiset(a[1..]) == multiset(b[..j] + b[j + 1..])
  {
    RemoveAtMultiset(b, j);
    assert a == [a[0]] + a[1..];
    assert multiset(a) == multiset{a[0]} + multiset(a[1..]);
  }

  /** Reordering a property list reorders its keys the same way. */
  lemma {:induction false} ReorderedKeys(p1: seq<Prop>, p2: seq<Prop>)
    requires multiset(p1) == multiset(p2)
    ensures multiset(KeysOf(p1)) == multiset(KeysOf(p2))
    decreases |p1|
  {
    if |p1| == 0 {
      assert |multiset(p2)| == 0;
    } else {
      var head, tail := p1[0], p1[1..];
      assert head in multiset(p2);
      var j :| 0 <= j < |p2| && p2[j] == head;
      var rest := p2[..j] + p2[j + 1..];
      MatchedRemoval(p1, p2, j);
      ReorderedKeys(tail, rest);
      KeysOfRemove(p2, j);
      KeysOfRemove(p1, 0);
      assert p1[..0] + p1[1..] == tail;
    }
  }

  /** Two orderings of the same properties, with distinct keys, read the same
      at every key. */
  lemma ReorderedLookup(p1: seq<Prop>, p2: seq<Prop>, k: string)
    requires DistinctKeys(p1)
    requires multiset(p1) == multiset(p2)
    ensures Lookup(p1, k) == Lookup(p2, k)
  {
    ReorderedKeys(p1, p2);
    DistinctKeysOf(p1);
    DistinctSubmultiset(KeysOf(p1), KeysOf(p2));
    if k in KeysOf(p1) {
      var i :| 0 <= i < |p1| && KeysOf(p1)[i] == k;
      assert p1[i] in multiset(p2);
      var j :| 0 <= j < |p2| && p2[j] == p1[i];
      LookupAt(p1, i);
      LookupAt(p2, j);
    } else {
      assert k !in multiset(KeysOf(p2));
    }
  }

  /** The copy does not depend on the order the original's properties were
      inserted in: `{b: 2, a: 1}` and `{a: 1, b: 2}` give the same copy. */
  lemma SortedPropsOrderIndependent(p1: seq<Prop>, p2: seq<Prop>)
    requires DistinctKeys(p1)
    requires multiset(p1) == multiset(p2)
    ensures SortedProps(p1) == SortedProps(p2)
  {
    ReorderedKeys(p1, p2);
    SortPermutationInvariant(KeysOf(p1), KeysOf(p2));
    var c1, c2 := SortedProps(p1), SortedProps(p2);
    assert KeysOf(c1) == KeysOf(c2);
    forall i | 0 <= i < |c1|
      ensures c1[i] == c2[i]
    {
      assert KeysOf(c1)[i] == KeysOf(c2)[i];
      ReorderedLookup(p1, p2, c1[i].key);
    }
  }

  /** Without a `__proto__` key, nothing is skipped. */
  lemma {:induction false} AssignableWithoutProto(keys: seq<string>)
    requires ProtoKey !in keys
    ensures Assignable(keys) == keys
  {
    if |keys| > 0 {
      var tail := keys[1..];
      assert keys == [keys[0]] + tail;
      assert ProtoKey !in tail;
      AssignableWithoutProto(tail);
      assert Assignable(keys) == [keys[0]] + Assignable(tail);
    }
  }

  /** Copying a well-formed object whose keys are already ascending, and which
      has no `__proto__` own key, gives it back unchanged. */
  lemma SortedPropsOfSorted(props: seq<Prop>)
    requires Sorted(KeysOf(props)) && DistinctKeys(props)
    requires ProtoKey !in KeysOf(props)
    ensures SortedProps(props) == props
  {
    SortOfSorted(KeysOf(props));
    AssignableWithoutProto(KeysOf(props));
    DistinctKeysOf(props);
    var c := SortedProps(props);
    forall i | 0 <= i < |c|
      ensures c[i] == props[i]
    {
      assert KeysOf(c)[i] == KeysOf(props)[i];
      LookupAt(props, i);
    }
  }
}
