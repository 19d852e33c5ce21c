/**
 * Sequence operations that Python provides as builtins and the modelled code
 * leans on: `OrderedDict.fromkeys` (order-keeping de-duplication), `sorted`
 * over integers, and `sorted(set)`.
 */
module SeqUtil {

  predicate NoDup<T(==)>(s: seq<T>)
  {
    forall i, j :: 0 <= i < j < |s| ==> s[i] != s[j]
  }

  /** Index of the first occurrence of `x` in `s`. */
  function FirstIndex<T(==)>(s: seq<T>, x: T): (k: nat)
    requires x in s
    ensures k < |s| && s[k] == x && x !in s[..k]
  {
    if s[0] == x then 0 else 1 + FirstIndex(s[1..], x)
  }

  /** `list(OrderedDict.fromkeys(s))`: every element once, at the place of its first occurrence. */
  function Dedup<T(==)>(s: seq<T>): (r: seq<T>)
    ensures NoDup(r)
    ensures forall i :: 0 <= i < |s| ==> s[i] in r
    ensures forall i :: 0 <= i < |r| ==> r[i] in s
    ensures |r| <= |s|
    decreases |s|
  {
    if s == [] then []
    else
      var p := Dedup(s[..|s| - 1]);
      var last := s[|s| - 1];
      assert forall i :: 0 <= i < |s| - 1 ==> s[i] == s[..|s| - 1][i];
      if last in p then p else p + [last]
  }

  /** Adding one more element: it is kept only when it is new. */
  lemma DedupSnoc<T>(init: seq<T>, x: T, after: seq<T>)
    requires after == if x in Dedup(init) then Dedup(init) else Dedup(init) + [x]
    ensures after == Dedup(init + [x])
  {
    assert (init + [x])[..|init|] == init;
  }

  /** De-duplication keeps elements in the order of their first occurrences. */
  lemma {:induction false} DedupOrder<T>(s: seq<T>, i: nat, j: nat)
    requires i < j < |Dedup(s)|
    ensures FirstIndex(s, Dedup(s)[i]) < FirstIndex(s, Dedup(s)[j])
    decreases |s|
  {
    var init := s[..|s| - 1];
    var p := Dedup(init);
    var last := s[|s| - 1];
    FirstIndexPrefix(init, s, p[i]);
    if j < |p| {
      FirstIndexPrefix(init, s, p[j]);
      DedupOrder(init, i, j);
    } else {
      assert Dedup(s)[j] == last && last !in init;
      assert FirstIndex(s, last) == |s| - 1 by {
        assert s[..|s| - 1] == init;
      }
    }
  }

  lemma FirstIndexPrefix<T>(p: seq<T>, s: seq<T>, x: T)
    requires x in p && p <= s
    ensures x in s && FirstIndex(s, x) == FirstIndex(p, x)
  {
    if p[0] != x {
      assert p[1..] <= s[1..];
      FirstIndexPrefix(p[1..], s[1..], x);
    }
  }

  /** De-duplication leaves one element exactly when all elements are the same. */
  lemma DedupSingle<T>(s: seq<T>)
    ensures Dedup(s) == [] <==> s == []
    ensures |Dedup(s)| == 1 <==> s != [] && forall i :: 0 <= i < |s| ==> s[i] == s[0]
    ensures |Dedup(s)| == 1 ==> Dedup(s)[0] == s[0]
  {
    var r := Dedup(s);
    if s != [] {
      assert s[0] in r;
    }
    if |r| == 1 {
      forall i | 0 <= i < |s| ensures s[i] == s[0] {
        assert s[i] in r && s[0] in r;
      }
    }
    if s != [] && forall i :: 0 <= i < |s| ==> s[i] == s[0] {
      assert forall k :: 0 <= k < |r| ==> r[k] == s[0];
      assert ElementSet(r) == {s[0]};
      NoDupElementSet(r);
    }
  }

  /** A sequence without duplicates is its own de-duplication. */
  lemma {:induction false} DedupOfNoDup<T>(s: seq<T>)
    requires NoDup(s)
    ensures Dedup(s) == s
    decreases |s|
  {
    if s != [] {
      var init := s[..|s| - 1];
      assert NoDup(init);
      DedupOfNoDup(init);
      assert s[|s| - 1] !in init;
      assert init + [s[|s| - 1]] == s;
    }
  }

  /** The elements of a sequence, as a set. */
  function ElementSet<T>(s: seq<T>): set<T>
  {
    set x | x in s
  }

  /** A sequence without duplicates has as many distinct elements as positions. */
  lemma {:induction false} NoDupElementSet<T>(s: seq<T>)
    requires NoDup(s)
    ensures |ElementSet(s)| == |s|
    decreases |s|
  {
    if s != [] {
      var t := s[1..];
      assert NoDup(t);
      NoDupElementSet(t);
      assert s[0] !in t by {
        forall i | 0 <= i < |t| ensures t[i] != s[0] {
          assert t[i] == s[i + 1];
        }
      }
      assert ElementSet(s) == ElementSet(t) + {s[0]} by {
        assert s == [s[0]] + t;
      }
    }
  }

  predicate Sorted(s: seq<int>)
  {
    forall i, j :: 0 <= i < j < |s| ==> s[i] <= s[j]
  }

  predicate StrictlySorted(s: seq<int>)
  {
    forall i, j :: 0 <= i < j < |s| ==> s[i] < s[j]
  }

  /** Insert `x` into sorted `s` after every element not larger than it. */
  function Insert(x: int, s: seq<int>): (r: seq<int>)
    requires Sorted(s)
    ensures |r| == |s| + 1
    ensures r[0] == if s == [] || x <= s[0] then x else s[0]
    ensures Sorted(r) && multiset(r) == multiset(s) + multiset{x}
  {
    if s == [] then [x]
    else if x <= s[0] then
      ConsSorted(x, s);
      assert multiset([x] + s) == multiset{x} + multiset(s);
      [x] + s
    else
      var t := Insert(x, s[1..]);
      ConsSorted(s[0], t);
      assert s == [s[0]] + s[1..];
      assert multiset([s[0]] + t) == multiset{s[0]} + multiset(t);
      assert multiset(s) == multiset{s[0]} + multiset(s[1..]);
      [s[0]] + t
  }

  lemma ConsSorted(h: int, t: seq<int>)
    requires Sorted(t) && (t == [] || h <= t[0])
    ensures Sorted([h] + t)
  {
  }

  /** `sorted(s)` on integers. */
  function SortInts(s: seq<int>): (r: seq<int>)
    ensures Sorted(r) && multiset(r) == multiset(s)
  {
    if s == [] then []
    else
      assert s == [s[0]] + s[1..];
      assert multiset(s) == multiset(s[1..]) + multiset{s[0]};
      Insert(s[0], SortInts(s[1..]))
  }

  /** In a sorted sequence every element is at least the first. */
  lemma SortedHeadLeast(a: seq<int>, y: int)
    requires Sorted(a) && y in multiset(a)
    ensures a[0] <= y
  {
    assert y in a;
    var i :| 0 <= i < |a| && a[i] == y;
  }

  /** Two sorted sequences with the same elements (counted) are equal. */
  lemma {:induction false} SortedUnique(a: seq<int>, b: seq<int>)
    requires Sorted(a) && Sorted(b) && multiset(a) == multiset(b)
    ensures a == b
    decreases |a|
  {
    assert |b| == |a| by { assert |multiset(a)| == |multiset(b)|; }
    if a != [] {
      SameHeadAndTail(a, b);
      SortedUnique(a[1..], b[1..]);
      assert a == [a[0]] + a[1..] && b == [b[0]] + b[1..];
    }
  }

  lemma SameHeadAndTail(a: seq<int>, b: seq<int>)
    requires Sorted(a) && Sorted(b) && multiset(a) == multiset(b) && a != [] && b != []
    ensures a[0] == b[0] && multiset(a[1..]) == multiset(b[1..])
    ensures Sorted(a[1..]) && Sorted(b[1..])
  {
    assert a[0] in multiset(a) && b[0] in multiset(b);
    SortedHeadLeast(a, b[0]);
    SortedHeadLeast(b, a[0]);
    MultisetTail(a);
    MultisetTail(b);
    SortedTail(a);
    SortedTail(b);
  }

  lemma MultisetTail(a: seq<int>)
    requires a != []
    ensures multiset(a[1..]) == multiset(a) - multiset{a[0]}
  {
    assert a == [a[0]] + a[1..];
  }

  lemma SortedTail(a: seq<int>)
    requires Sorted(a) && a != []
    ensures Sorted(a[1..])
  {
    forall i, j | 0 <= i < j < |a[1..]|
      ensures a[1..][i] <= a[1..][j]
    {
      assert a[1..][i] == a[i + 1] && a[1..][j] == a[j + 1];
    }
  }

  /** Sorting depends only on the multiset of elements. */
  lemma SortIntsPermutation(s: seq<int>, t: seq<int>)
    requires multiset(s) == multiset(t)
    ensures SortInts(s) == SortInts(t)
  {
    SortedUnique(SortInts(s), SortInts(t));
  }
}

/** Every non-empty set of integers has an element and a least element. */
module SetFacts {

  predicate IsMinOf(m: int, s: set<int>)
  {
    m in s && forall y :: y in s ==> m <= y
  }

  lemma NonEmptyHasElement(s: set<int>)
    requires s != {}
    ensures exists x :: x in s
  {
    if forall x :: x !in s {
      assert false;
    }
  }

  /** Some element of a non-empty set. */
  lemma PickInt(s: set<int>) returns (x: int)
    requires s != {}
    ensures x in s
  {
    if forall y :: y !in s {
      assert false;
    }
    x :| x in s;
  }

  /** Some key of a non-empty map. */
  lemma PickKey<V>(m: map<int, V>) returns (k: int)
    requires m != map[]
    ensures k in m
  {
    if forall y :: y !in m {
      assert false;
    }
    k :| k in m;
  }

  lemma {:induction false} HasMin(s: set<int>)
    requires s != {}
    ensures exists m :: IsMinOf(m, s)
    decreases |s|
  {
    NonEmptyHasElement(s);
    var x :| x in s;
    if s != {x} {
      var s' := s - {x};
      HasMin(s');
      var m :| IsMinOf(m, s');
      if x < m {
        assert IsMinOf(x, s) by {
          forall y | y in s ensures x <= y { if y != x { assert y in s'; } }
        }
      } else {
        assert IsMinOf(m, s) by {
          forall y | y in s ensures m <= y { if y != x { assert y in s'; } }
        }
      }
    } else {
      assert IsMinOf(x, s);
    }
  }
}

/** `sorted(...)` applied to a set of integers. */
module IntSets {
  import opened SeqUtil
  import opened SetFacts

  /** The least element of a non-empty set of integers. */
  function SetMin(s: set<int>): (m: int)
    requires s != {}
    ensures IsMinOf(m, s)
  {
    HasMin(s);
    var m :| IsMinOf(m, s);
    m
  }

  /** `sorted(s)` for a set of integers: strictly increasing, same elements. */
  function SortedSet(s: set<int>): (r: seq<int>)
    ensures StrictlySorted(r) && |r| == |s|
    ensures forall i :: 0 <= i < |r| ==> r[i] in s
    ensures forall x {:trigger x in r} :: x in s ==> x in r
    decreases |s|
  {
    if s == {} then []
    else
      var m := SetMin(s);
      var rest := SortedSet(s - {m});
      assert forall x :: x in rest ==> m < x;
      [m] + rest
  }
}
