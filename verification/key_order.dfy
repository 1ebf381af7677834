/** The order `Array.prototype.sort()` uses when called without a comparator on
    strings: character-by-character comparison, a proper prefix first. */
module KeyOrder {

  /** `a` sorts no later than `b`. */
  predicate Le(a: string, b: string)
    decreases |a|
  {
    |a| == 0 || (|b| > 0 && (a[0] < b[0] || (a[0] == b[0] && Le(a[1..], b[1..]))))
  }

  /** `a` sorts strictly before `b`. */
  predicate Lt(a: string, b: string) {
    Le(a, b) && a != b
  }

  lemma {:induction false} LeReflexive(a: string)
    ensures Le(a, a)
    decreases |a|
  {
    if |a| > 0 {
      LeReflexive(a[1..]);
    }
  }

  lemma {:induction false} LeTotal(a: string, b: string)
    ensures Le(a, b) || Le(b, a)
    decreases |a|
  {
    if |a| > 0 && |b| > 0 && a[0] == b[0] {
      LeTotal(a[1..], b[1..]);
    }
  }

  lemma {:induction false} LeAntisymmetric(a: string, b: string)
    requires Le(a, b) && Le(b, a)
    ensures a == b
    decreases |a|
  {
    if |a| > 0 {
      LeAntisymmetric(a[1..], b[1..]);
      assert a == [a[0]] + a[1..];
      assert b == [b[0]] + b[1..];
    }
  }

  lemma {:induction false} LeTransitive(a: string, b: string, c: string)
    requires Le(a, b) && Le(b, c)
    ensures Le(a, c)
    decreases |a|
  {
    if |a| > 0 && a[0] == b[0] && b[0] == c[0] {
      LeTransitive(a[1..], b[1..], c[1..]);
    }
  }

  /** Every earlier element sorts no later than every later one. */
  predicate Sorted(s: seq<string>) {
    forall i, j :: 0 <= i < j < |s| ==> Le(s[i], s[j])
  }

  /** No string occurs twice. */
  predicate Distinct(s: seq<string>) {
    forall i, j :: 0 <= i < j < |s| ==> s[i] != s[j]
  }

  /** Prepending an element no later than the head keeps a sorted sequence sorted. */
  lemma SortedCons(x: string, s: seq<string>)
    requires Sorted(s)
    requires |s| == 0 || Le(x, s[0])
    ensures Sorted([x] + s)
  {
    forall j | 0 < j < |[x] + s|
      ensures Le(x, ([x] + s)[j])
    {
      if j > 1 {
        LeTransitive(x, s[0], s[j - 1]);
      }
    }
  }

  /** Prepending an element no later than every element keeps a sorted sequence sorted. */
  lemma SortedConsAll(x: string, s: seq<string>)
    requires Sorted(s)
    requires forall y :: y in multiset(s) ==> Le(x, y)
    ensures Sorted([x] + s)
  {
    if |s| > 0 {
      assert s[0] in multiset(s);
    }
    SortedCons(x, s);
  }

  /** The head of a sorted sequence may stand in front of any sorted selection
      from its tail. */
  lemma SortedHeadBeforeSelection(s: seq<string>, rest: seq<string>)
    requires Sorted(s) && |s| > 0
    requires Sorted(rest) && multiset(rest) <= multiset(s[1..])
    ensures Sorted([s[0]] + rest)
  {
    forall y | y in multiset(rest)
      ensures Le(s[0], y)
    {
      assert y in multiset(s[1..]);
      var j :| 0 <= j < |s[1..]| && s[1..][j] == y;
      assert s[j + 1] == y;
    }
    SortedConsAll(s[0], rest);
  }

  /** Inserts `x` in front of the first element it sorts no later than. */
  function Insert(x: string, s: seq<string>): (r: seq<string>)
    requires Sorted(s)
    ensures Sorted(r)
    ensures multiset(r) == multiset(s) + multiset{x}
  {
    if |s| == 0 then [x]
    else if Le(x, s[0]) then SortedCons(x, s); [x] + s
    else
      var rest := Insert(x, s[1..]);
      InsertedTail(x, s, rest);
      [s[0]] + rest
  }

  /** The head of `s` sorts no later than anything in `s[1..]` with `x` inserted. */
  lemma InsertedTail(x: string, s: seq<string>, rest: seq<string>)
    requires Sorted(s) && |s| > 0 && !Le(x, s[0])
    requires Sorted(rest) && multiset(rest) == multiset(s[1..]) + multiset{x}
    ensures Sorted([s[0]] + rest)
    ensures multiset([s[0]] + rest) == multiset(s) + multiset{x}
  {
    assert s == [s[0]] + s[1..];
    LeTotal(x, s[0]);
    forall y | y in multiset(rest)
      ensures Le(s[0], y)
    {
      if y != x {
        assert y in multiset(s[1..]);
        var j :| 0 <= j < |s[1..]| && s[1..][j] == y;
        assert s[j + 1] == y;
      }
    }
    SortedConsAll(s[0], rest);
  }

  /** Insertion sort: the ascending arrangement of `s`. */
  function Sort(s: seq<string>): (r: seq<string>)
    ensures Sorted(r)
    ensures multiset(r) == multiset(s)
  {
    if |s| == 0 then []
    else
      assert s == [s[0]] + s[1..];
      Insert(s[0], Sort(s[1..]))
  }

  /** The least element of a sorted sequence is its head. */
  lemma SortedHeadLeast(s: seq<string>, y: string)
    requires Sorted(s) && y in multiset(s)
    ensures Le(s[0], y)
  {
    var j :| 0 <= j < |s| && s[j] == y;
    if j == 0 {
      LeReflexive(y);
    }
  }

  /** Two sorted arrangements of the same strings are the same sequence: the
      sorted order does not depend on the order the strings came in. */
  lemma {:induction false} SortedUnique(a: seq<string>, b: seq<string>)
    requires Sorted(a) && Sorted(b)
    requires multiset(a) == multiset(b)
    ensures a == b
    decreases |a|
  {
    if |a| == 0 {
      assert |multiset(b)| == 0;
    } else {
      assert |b| > 0 by {
        assert |multiset(b)| == |multiset(a)| == |a|;
      }
      assert a == [a[0]] + a[1..];
      assert b == [b[0]] + b[1..];
      assert a[0] in multiset(b);
      assert b[0] in multiset(a);
      SortedHeadLeast(a, b[0]);
      SortedHeadLeast(b, a[0]);
      LeAntisymmetric(a[0], b[0]);
      assert multiset(a[1..]) == multiset(a) - multiset{a[0]};
      assert multiset(b[1..]) == multiset(b) - multiset{b[0]};
      SortedUnique(a[1..], b[1..]);
    }
  }

  /** Sorting an already-sorted sequence leaves it as it is. */
  lemma SortOfSorted(s: seq<string>)
    requires Sorted(s)
    ensures Sort(s) == s
  {
    SortedUnique(Sort(s), s);
  }

  /** Sorting is insensitive to the order of its input. */
  lemma SortPermutationInvariant(a: seq<string>, b: seq<string>)
    requires multiset(a) == multiset(b)
    ensures Sort(a) == Sort(b)
  {
    SortedUnique(Sort(a), Sort(b));
  }

  /** A string occurs at most once in a duplicate-free sequence. */
  lemma {:induction false} DistinctCount(s: seq<string>, x: string)
    requires Distinct(s)
    ensures multiset(s)[x] <= 1
    decreases |s|
  {
    if |s| > 0 {
      assert s == [s[0]] + s[1..];
      DistinctCount(s[1..], x);
      if s[0] == x {
        assert x !in s[1..];
      }
    }
  }

  /** A string found at two positions occurs at least twice. */
  lemma RepeatCount(s: seq<string>, i: int, j: int)
    requires 0 <= i < j < |s| && s[i] == s[j]
    ensures multiset(s)[s[i]] >= 2
  {
    assert s == s[..j] + s[j..];
    assert s[..j] == s[..i] + s[i..j];
    assert s[i..j][0] == s[i];
    assert s[j..][0] == s[j];
  }

  /** A sequence drawing its elements, in any order, from the occurrences in a
      duplicate-free sequence is duplicate-free. */
  lemma DistinctSubmultiset(a: seq<string>, b: seq<string>)
    requires Distinct(a) && multiset(b) <= multiset(a)
    ensures Distinct(b)
  {
    forall i, j | 0 <= i < j < |b|
      ensures b[i] != b[j]
    {
      if b[i] == b[j] {
        RepeatCount(b, i, j);
        DistinctCount(a, b[i]);
      }
    }
  }

  /** A sorted duplicate-free sequence is strictly ascending. */
  lemma SortedDistinctStrict(s: seq<string>)
    requires Sorted(s) && Distinct(s)
    ensures forall i, j :: 0 <= i < j < |s| ==> Lt(s[i], s[j])
  {
  }

  /** The keys of `{b: 2, a: 1}` sort to `["a", "b"]`. */
  lemma TwoKeysSorted()
    ensures Sort(["b", "a"]) == ["a", "b"]
  {
    assert Sorted(["a", "b"]) by {
      assert Le("a", "b");
    }
    assert multiset(["a", "b"]) == multiset(["b", "a"]);
    SortedUnique(Sort(["b", "a"]), ["a", "b"]);
  }
}
