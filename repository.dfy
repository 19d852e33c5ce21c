/**
 * A repository: packages grouped by name, names kept in sorted order so that
 * iteration is reproducible, and each name's packages kept sorted by version.
 */
module Repositories {
  import opened Wrappers
  import opened Kinds
  import opened PyText
  import opened Packages

  predicate VersionSorted(s: seq<Package>)
  {
    forall i, j :: 0 <= i < j < |s| ==> VersionLeq(s[i].version, s[j].version)
  }

  predicate NamesSorted(s: seq<string>)
  {
    forall i, j :: 0 <= i < j < |s| ==> StringLess(s[i], s[j])
  }

  /** The list a name maps to, with the empty list for a missing name (a `defaultdict(list)` read). */
  function Lookup(m: map<string, seq<Package>>, name: string): seq<Package>
  {
    if name in m then m[name] else []
  }

  /** Iteration: the packages of each name, names in the given order. */
  function Listed(names: seq<string>, m: map<string, seq<Package>>): seq<Package>
  {
    if names == [] then [] else Lookup(m, names[0]) + Listed(names[1..], m)
  }

  function SumLengths(names: seq<string>, m: map<string, seq<Package>>): (n: nat)
    ensures n == |Listed(names, m)|
  {
    if names == [] then 0 else |Lookup(m, names[0])| + SumLengths(names[1..], m)
  }

  /** The total length of every list in the map, whatever its keys' order. */
  ghost function TotalLength(m: map<string, seq<Package>>): nat
    decreases |m|
  {
    if m == map[] then 0
    else
      var k :| k in m;
      |m[k]| + TotalLength(m - {k})
  }

  /** Any key may be taken first: the total does not depend on the order. */
  lemma {:induction false} TotalLengthRemove(m: map<string, seq<Package>>, k: string)
    requires k in m
    ensures TotalLength(m) == |m[k]| + TotalLength(m - {k})
    decreases |m|
  {
    var j :| j in m && TotalLength(m) == |m[j]| + TotalLength(m - {j});
    if j != k {
      TotalLengthRemove(m - {j}, k);
      TotalLengthRemove(m - {k}, j);
      assert m - {j} - {k} == m - {k} - {j};
    }
  }

  /** The lists of listed names sum to their part of the total; the other keys make up the rest. */
  lemma {:induction false} TotalLengthSplit(names: seq<string>, m: map<string, seq<Package>>)
    requires forall i, j :: 0 <= i < j < |names| ==> names[i] != names[j]
    requires forall n :: n in names ==> n in m
    ensures TotalLength(m) == SumLengths(names, m) + TotalLength(m - set n | n in names)
  {
    if names != [] {
      var n0 := names[0];
      var rest := names[1..];
      TotalLengthRemove(m, n0);
      assert n0 !in rest by {
        forall i | 0 <= i < |rest| ensures rest[i] != n0 { assert rest[i] == names[i + 1]; }
      }
      SumLengthsOther(rest, m, n0);
      TotalLengthSplit(rest, m - {n0});
      assert (m - {n0}) - (set n | n in rest) == m - set n | n in names;
    } else {
      assert m - (set n | n in names) == m;
    }
  }

  /** Sorted names are distinct, as the order is strict. */
  lemma NamesDistinct(names: seq<string>)
    requires NamesSorted(names)
    ensures forall i, j :: 0 <= i < j < |names| ==> names[i] != names[j]
  {
    forall i, j | 0 <= i < j < |names|
      ensures names[i] != names[j]
    {
      StringLessIrreflexive(names[i]);
    }
  }

  /** Dropping a key no listed name uses leaves the sum of the listed lists alone. */
  lemma {:induction false} SumLengthsOther(names: seq<string>, m: map<string, seq<Package>>, k: string)
    requires k !in names
    ensures SumLengths(names, m - {k}) == SumLengths(names, m)
  {
    if names != [] {
      SumLengthsOther(names[1..], m, k);
    }
  }

  // ---------------------------------------------------------------------
  // bisect.insort on the names list
  // ---------------------------------------------------------------------

  /** `bisect.insort`: `x` goes before the first element greater than it. */
  function Insort(s: seq<string>, x: string): (r: seq<string>)
    ensures multiset(r) == multiset(s) + multiset{x}
  {
    if s == [] then [x]
    else if StringLess(x, s[0]) then [x] + s
    else
      assert s == [s[0]] + s[1..];
      [s[0]] + Insort(s[1..], x)
  }

  lemma ConsNamesSorted(h: string, t: seq<string>)
    requires NamesSorted(t)
    requires forall k :: 0 <= k < |t| ==> StringLess(h, t[k])
    ensures NamesSorted([h] + t)
  {
  }

  /** Inserting a new name keeps the names strictly sorted. */
  lemma {:induction false} InsortSorted(s: seq<string>, x: string)
    requires NamesSorted(s) && x !in s
    ensures NamesSorted(Insort(s, x))
    decreases |s|
  {
    if s != [] {
      if StringLess(x, s[0]) {
        forall k | 0 <= k < |s|
          ensures StringLess(x, s[k])
        {
          if k > 0 {
            StringLessTransitive(x, s[0], s[k]);
          }
        }
        ConsNamesSorted(x, s);
      } else {
        var r := Insort(s[1..], x);
        InsortSorted(s[1..], x);
        StringLessTotal(x, s[0]);
        forall k | 0 <= k < |r|
          ensures StringLess(s[0], r[k])
        {
          assert r[k] in multiset(r);
          assert r[k] == x || r[k] in s[1..];
        }
        ConsNamesSorted(s[0], r);
      }
    }
  }

  // ---------------------------------------------------------------------
  // The per-name list: append, then a stable sort by version
  // ---------------------------------------------------------------------

  /** Inserting after every package whose version is not greater. */
  function InsertByVersion(s: seq<Package>, p: Package): (r: seq<Package>)
    ensures multiset(r) == multiset(s) + multiset{p}
  {
    if s == [] then [p]
    else if VersionLess(p.version, s[0].version) then [p] + s
    else
      assert s == [s[0]] + s[1..];
      [s[0]] + InsertByVersion(s[1..], p)
  }

  lemma ConsVersionSorted(h: Package, t: seq<Package>)
    requires VersionSorted(t)
    requires forall q :: q in t ==> VersionLeq(h.version, q.version)
    ensures VersionSorted([h] + t)
  {
    assert forall k :: 0 < k < |[h] + t| ==> ([h] + t)[k] in t;
  }

  /** Inserting into a version-sorted list keeps it sorted. */
  lemma {:induction false} InsertSorted(s: seq<Package>, p: Package)
    requires VersionSorted(s)
    ensures VersionSorted(InsertByVersion(s, p))
    decreases |s|
  {
    if s != [] {
      if VersionLess(p.version, s[0].version) {
        forall q | q in s
          ensures VersionLeq(p.version, q.version)
        {
          VersionOrderTotal(p.version, s[0].version, q.version);
        }
        ConsVersionSorted(p, s);
      } else {
        var t := InsertByVersion(s[1..], p);
        InsertSorted(s[1..], p);
        VersionOrderTotal(s[0].version, p.version, p.version);
        forall q | q in t
          ensures VersionLeq(s[0].version, q.version)
        {
          assert q in multiset(t);
        }
        ConsVersionSorted(s[0], t);
      }
    }
  }

  /** `list.sort(key=version)`, a stable sort: each element goes after the sorted earlier ones it does not precede. */
  function SortByVersion(s: seq<Package>): (r: seq<Package>)
    ensures multiset(r) == multiset(s)
    ensures VersionSorted(r)
  {
    if s == [] then []
    else
      assert s == s[..|s| - 1] + [s[|s| - 1]];
      InsertSorted(SortByVersion(s[..|s| - 1]), s[|s| - 1]);
      InsertByVersion(SortByVersion(s[..|s| - 1]), s[|s| - 1])
  }

  /** A sorted list is left as it is. */
  lemma {:induction false} SortSorted(s: seq<Package>)
    requires VersionSorted(s)
    ensures SortByVersion(s) == s
    decreases |s|
  {
    if s != [] {
      var init, last := s[..|s| - 1], s[|s| - 1];
      assert init + [last] == s;
      assert VersionSorted(init) by {
        forall i, j | 0 <= i < j < |init|
          ensures VersionLeq(init[i].version, init[j].version)
        {
          assert init[i] == s[i] && init[j] == s[j];
        }
      }
      SortSorted(init);
      InsertLast(init, last);
      assert SortByVersion(s) == InsertByVersion(SortByVersion(init), last);
    }
  }

  /** A package not lower than any of a sorted list goes at its end. */
  lemma {:induction false} InsertLast(s: seq<Package>, p: Package)
    requires VersionSorted(s + [p])
    ensures InsertByVersion(s, p) == s + [p]
    decreases |s|
  {
    if s != [] {
      assert (s + [p])[0] == s[0] && (s + [p])[|s|] == p;
      assert s[1..] + [p] == (s + [p])[1..];
      InsertLast(s[1..], p);
    }
  }

  /** Appending to a version-sorted list and sorting inserts the new package after its equals. */
  lemma SortSortedSnoc(s: seq<Package>, p: Package)
    requires VersionSorted(s)
    ensures SortByVersion(s + [p]) == InsertByVersion(s, p)
  {
    assert (s + [p])[..|s|] == s;
    SortSorted(s);
  }

  // ---------------------------------------------------------------------
  // Facts about iteration
  // ---------------------------------------------------------------------

  /** Every package of a name's list has that name. */
  predicate Named(m: map<string, seq<Package>>)
  {
    forall n, q :: n in m && q in m[n] ==> q.name == n
  }

  lemma {:induction false} ListedNames(names: seq<string>, m: map<string, seq<Package>>, q: Package)
    requires Named(m) && q in Listed(names, m)
    ensures q.name in names
    decreases |names|
  {
    if q !in Lookup(m, names[0]) {
      ListedNames(names[1..], m, q);
    }
  }

  lemma {:induction false} ListedOther(names: seq<string>, m: map<string, seq<Package>>, x: string, l: seq<Package>)
    requires x !in names
    ensures Listed(names, m[x := l]) == Listed(names, m)
    decreases |names|
  {
    if names != [] {
      ListedOther(names[1..], m, x, l);
    }
  }

  /** Listing a name inserted into the names contributes its list once. */
  lemma {:induction false} ListedInsort(names: seq<string>, m: map<string, seq<Package>>, x: string)
    ensures multiset(Listed(Insort(names, x), m)) == multiset(Listed(names, m)) + multiset(Lookup(m, x))
    decreases |names|
  {
    var r := Insort(names, x);
    if names != [] && !StringLess(x, names[0]) {
      ListedInsort(names[1..], m, x);
      assert r[0] == names[0] && r[1..] == Insort(names[1..], x);
      assert Listed(r, m) == Lookup(m, names[0]) + Listed(Insort(names[1..], x), m);
      assert Listed(names, m) == Lookup(m, names[0]) + Listed(names[1..], m);
    } else {
      assert r[0] == x && r[1..] == names;
      assert Listed(r, m) == Lookup(m, x) + Listed(names, m);
    }
  }

  lemma {:induction false} ListedAppend(a: seq<string>, b: seq<string>, m: map<string, seq<Package>>)
    ensures Listed(a + b, m) == Listed(a, m) + Listed(b, m)
    decreases |a|
  {
    if a != [] {
      assert (a + b)[0] == a[0] && (a + b)[1..] == a[1..] + b;
      ListedAppend(a[1..], b, m);
      assert Listed(a + b, m) == Lookup(m, a[0]) + Listed(a[1..] + b, m);
      assert Listed(a, m) == Lookup(m, a[0]) + Listed(a[1..], m);
    } else {
      assert a + b == b;
    }
  }

  /** A name of strictly sorted names occurs once: the names before it and after it. */
  lemma SplitAt(names: seq<string>, x: string) returns (pre: seq<string>, post: seq<string>)
    requires NamesSorted(names) && x in names
    ensures names == pre + [x] + post
    ensures x !in pre && x !in post
  {
    var i :| 0 <= i < |names| && names[i] == x;
    pre, post := names[..i], names[i + 1..];
    assert names == pre + [x] + post;
    StringLessIrreflexive(x);
    assert forall k :: 0 <= k < i ==> StringLess(names[k], x);
    assert forall k :: i < k < |names| ==> StringLess(x, names[k]);
  }

  lemma ListedSplit(pre: seq<string>, x: string, post: seq<string>, m: map<string, seq<Package>>)
    ensures Listed(pre + [x] + post, m) == Listed(pre, m) + Lookup(m, x) + Listed(post, m)
  {
    ListedAppend(pre + [x], post, m);
    ListedAppend(pre, [x], m);
    assert Listed([x], m) == Lookup(m, x) + Listed([], m);
  }

  /** Listing around a name that occurs once: what comes before, its list, what comes after. */
  lemma ListedAround(names: seq<string>, m: map<string, seq<Package>>, x: string, l: seq<Package>)
    returns (before: seq<Package>, after: seq<Package>)
    requires NamesSorted(names) && x in names
    ensures Listed(names, m) == before + Lookup(m, x) + after
    ensures Listed(names, m[x := l]) == before + l + after
  {
    var pre, post := SplitAt(names, x);
    before, after := Listed(pre, m), Listed(post, m);
    ListedSplit(pre, x, post, m);
    ListedSplit(pre, x, post, m[x := l]);
    ListedOther(pre, m, x, l);
    ListedOther(post, m, x, l);
  }

  /** Iteration order: by name, then by version within a name. */
  predicate IterationOrdered(s: seq<Package>)
  {
    forall i, j :: 0 <= i < j < |s| ==>
      StringLess(s[i].name, s[j].name) || (s[i].name == s[j].name && VersionLeq(s[i].version, s[j].version))
  }

  lemma BlockBeforeRest(h: seq<Package>, t: seq<Package>, n: string, names: seq<string>)
    requires IterationOrdered(t) && VersionSorted(h)
    requires forall q :: q in h ==> q.name == n
    requires forall q :: q in t ==> q.name in names
    requires forall k :: 0 <= k < |names| ==> StringLess(n, names[k])
    ensures IterationOrdered(h + t)
  {
    var s := h + t;
    forall i, j | 0 <= i < j < |s|
      ensures StringLess(s[i].name, s[j].name) || (s[i].name == s[j].name && VersionLeq(s[i].version, s[j].version))
    {
      if j >= |h| {
        assert s[j] == t[j - |h|];
        if i < |h| {
          assert s[i] in h && s[j] in t;
        }
      }
    }
  }

  lemma {:induction false} ListedOrdered(names: seq<string>, m: map<string, seq<Package>>)
    requires NamesSorted(names) && Named(m)
    requires forall n :: n in m ==> VersionSorted(m[n])
    ensures IterationOrdered(Listed(names, m))
    decreases |names|
  {
    if names != [] {
      ListedOrdered(names[1..], m);
      forall q | q in Listed(names[1..], m)
        ensures q.name in names[1..]
      {
        ListedNames(names[1..], m, q);
      }
      BlockBeforeRest(Lookup(m, names[0]), Listed(names[1..], m), names[0], names[1..]);
    }
  }

  // ---------------------------------------------------------------------
  // The repository
  // ---------------------------------------------------------------------

  /** What `add_package` keeps: listed names sorted and present, lists sorted by version, and named. */
  predicate SaneState(names: seq<string>, m: map<string, seq<Package>>)
  {
    NamesSorted(names)
    && (forall n :: n in names ==> n in m)
    && (forall n :: n in m ==> VersionSorted(m[n]))
    && Named(m)
  }

  /** The repository invariant: in addition, every name with a list is listed. */
  predicate ValidState(names: seq<string>, m: map<string, seq<Package>>)
  {
    SaneState(names, m) && forall n :: n in m ==> n in names
  }

  /** The names after `add_package(p)`. */
  function AddedNames(names: seq<string>, m: map<string, seq<Package>>, p: Package): seq<string>
  {
    if p.name in m then names else Insort(names, p.name)
  }

  /** The lists after `add_package(p)`. */
  function AddedMap(m: map<string, seq<Package>>, p: Package): map<string, seq<Package>>
  {
    m[p.name := InsertByVersion(Lookup(m, p.name), p)]
  }

  lemma AddedNamed(m: map<string, seq<Package>>, p: Package)
    requires Named(m)
    ensures Named(AddedMap(m, p))
  {
    forall n, q | n in AddedMap(m, p) && q in AddedMap(m, p)[n]
      ensures q.name == n
    {
      if n == p.name {
        assert q in multiset(InsertByVersion(Lookup(m, p.name), p));
      }
    }
  }

  lemma AddedSorted(m: map<string, seq<Package>>, p: Package)
    requires forall n :: n in m ==> VersionSorted(m[n])
    ensures forall n :: n in AddedMap(m, p) ==> VersionSorted(AddedMap(m, p)[n])
  {
    InsertSorted(Lookup(m, p.name), p);
  }

  lemma AddedNamesPresent(names: seq<string>, m: map<string, seq<Package>>, p: Package)
    requires SaneState(names, m)
    ensures NamesSorted(AddedNames(names, m, p))
    ensures forall n :: n in AddedNames(names, m, p) <==> n in names || (n == p.name && p.name !in m)
  {
    if p.name !in m {
      InsortSorted(names, p.name);
      forall n
        ensures n in Insort(names, p.name) <==> n in names || n == p.name
      {
        assert n in Insort(names, p.name) <==> n in multiset(Insort(names, p.name));
      }
    }
  }

  /** `add_package` keeps the weaker invariant. */
  lemma AddKeepsSane(names: seq<string>, m: map<string, seq<Package>>, p: Package)
    requires SaneState(names, m)
    ensures SaneState(AddedNames(names, m, p), AddedMap(m, p))
  {
    AddedNamed(m, p);
    AddedSorted(m, p);
    AddedNamesPresent(names, m, p);
  }

  lemma AddListedNew(names: seq<string>, m: map<string, seq<Package>>, p: Package)
    requires p.name !in m && p.name !in names
    ensures multiset(Listed(Insort(names, p.name), AddedMap(m, p))) == multiset(Listed(names, m)) + multiset{p}
  {
    ListedInsort(names, AddedMap(m, p), p.name);
    ListedOther(names, m, p.name, [p]);
  }

  lemma AddListedExisting(names: seq<string>, m: map<string, seq<Package>>, p: Package)
    requires NamesSorted(names) && p.name in names && p.name in m
    ensures multiset(Listed(names, AddedMap(m, p))) == multiset(Listed(names, m)) + multiset{p}
  {
    var l := InsertByVersion(m[p.name], p);
    var before, after := ListedAround(names, m, p.name, l);
    assert multiset(l) == multiset(m[p.name]) + multiset{p};
  }

  /** `add_package` keeps the invariant and adds one copy of the package to iteration. */
  lemma AddKeepsValid(names: seq<string>, m: map<string, seq<Package>>, p: Package)
    requires ValidState(names, m)
    ensures ValidState(AddedNames(names, m, p), AddedMap(m, p))
    ensures multiset(Listed(AddedNames(names, m, p), AddedMap(m, p))) == multiset(Listed(names, m)) + multiset{p}
  {
    AddKeepsSane(names, m, p);
    AddedNamesPresent(names, m, p);
    if p.name in m {
      AddListedExisting(names, m, p);
    } else {
      AddListedNew(names, m, p);
    }
  }

  /** What `add_package` does, on the names and lists it starts from. */
  lemma AddStep(names: seq<string>, m: map<string, seq<Package>>, p: Package)
    requires SaneState(names, m)
    ensures SaneState(AddedNames(names, m, p), AddedMap(m, p))
    ensures SortByVersion(Lookup(m, p.name) + [p]) == InsertByVersion(Lookup(m, p.name), p)
    ensures ValidState(names, m) ==>
              ValidState(AddedNames(names, m, p), AddedMap(m, p))
              && multiset(Listed(AddedNames(names, m, p), AddedMap(m, p))) == multiset(Listed(names, m)) + multiset{p}
  {
    AddKeepsSane(names, m, p);
    SortSortedSnoc(Lookup(m, p.name), p);
    if ValidState(names, m) {
      AddKeepsValid(names, m, p);
    }
  }

  /** The names and lists after adding the packages in order. */
  function AddAll(names: seq<string>, m: map<string, seq<Package>>, ps: seq<Package>): (seq<string>, map<string, seq<Package>>)
    decreases |ps|
  {
    if ps == [] then (names, m)
    else
      var prev := AddAll(names, m, ps[..|ps| - 1]);
      (AddedNames(prev.0, prev.1, ps[|ps| - 1]), AddedMap(prev.1, ps[|ps| - 1]))
  }

  /** Adding packages one by one keeps the invariant, and iteration gains exactly those packages. */
  lemma {:induction false} AddAllValid(names: seq<string>, m: map<string, seq<Package>>, ps: seq<Package>)
    requires ValidState(names, m)
    ensures ValidState(AddAll(names, m, ps).0, AddAll(names, m, ps).1)
    ensures multiset(Listed(AddAll(names, m, ps).0, AddAll(names, m, ps).1)) == multiset(Listed(names, m)) + multiset(ps)
    decreases |ps|
  {
    if ps != [] {
      var init := ps[..|ps| - 1];
      AddAllValid(names, m, init);
      var prev := AddAll(names, m, init);
      AddStep(prev.0, prev.1, ps[|ps| - 1]);
      MultisetSnoc(ps);
    }
  }

  lemma AddAllSnoc(names: seq<string>, m: map<string, seq<Package>>, ps: seq<Package>, i: nat)
    requires i < |ps|
    ensures AddAll(names, m, ps[..i + 1]) ==
              (AddedNames(AddAll(names, m, ps[..i]).0, AddAll(names, m, ps[..i]).1, ps[i]), AddedMap(AddAll(names, m, ps[..i]).1, ps[i]))
  {
    assert ps[..i + 1][..i] == ps[..i];
  }

  lemma MultisetSnoc<T>(s: seq<T>)
    requires s != []
    ensures multiset(s) == multiset(s[..|s| - 1]) + multiset{s[|s| - 1]}
  {
    assert s == s[..|s| - 1] + [s[|s| - 1]];
  }

  lemma TakeAll<T>(s: seq<T>)
    ensures s[..|s|] == s
  {
  }

  class Repository {
    var nameToPackages: map<string, seq<Package>>
    var names: seq<string>

    predicate Sane()
      reads this
    {
      SaneState(names, nameToPackages)
    }

    predicate Valid()
      reads this
    {
      ValidState(names, nameToPackages)
    }

    /** `__iter__`. */
    function Packages(): seq<Package>
      reads this
    {
      Listed(names, nameToPackages)
    }

    /** The lists whose names are not listed, which iteration does not show. */
    function Unlisted(): map<string, seq<Package>>
      reads this
    {
      nameToPackages - set n | n in names
    }

    /**
     * `__len__`: the total length of every list in the table. That is the
     * number of packages iteration shows plus those under unlisted names,
     * and exactly the former in a valid repository.
     */
    ghost function Len(): (n: nat)
      reads this
      ensures Sane() ==> n == |Packages()| + TotalLength(Unlisted())
      ensures Valid() ==> n == |Packages()|
    {
      var n := TotalLength(nameToPackages);
      if Sane() then
        NamesDistinct(names);
        TotalLengthSplit(names, nameToPackages);
        if Valid() then
          assert Unlisted() == map[];
          n
        else n
      else n
    }

    /** Iteration lists packages by name, then by version. */
    lemma IterationIsOrdered()
      requires Sane()
      ensures IterationOrdered(Packages())
    {
      ListedOrdered(names, nameToPackages);
    }

    /**
     * The packages of that name, lowest version first, none for an unknown
     * name: what `find_packages` returns, read without changing the table.
     */
    function Candidates(name: string): (r: seq<Package>)
      requires Sane()
      reads this
      ensures VersionSorted(r)
      ensures forall q :: q in r ==> q.name == name
      ensures name !in nameToPackages ==> r == []
    {
      Lookup(nameToPackages, name)
    }

    constructor (packages: seq<Package>)
      ensures Valid()
      ensures multiset(Packages()) == multiset(packages)
      ensures (names, nameToPackages) == AddAll([], map[], packages)
    {
      nameToPackages := map[];
      names := [];
      new;
      Update(packages);
    }

    /** `add_package`: every copy is kept; a new name is inserted into the sorted names. */
    method AddPackage(p: Package)
      requires Sane()
      modifies this
      ensures Sane()
      ensures names == AddedNames(old(names), old(nameToPackages), p)
      ensures nameToPackages == AddedMap(old(nameToPackages), p)
      ensures old(Valid()) ==> Valid() && multiset(Packages()) == multiset(old(Packages())) + multiset{p}
    {
      ghost var n0, m0 := names, nameToPackages;
      AddStep(n0, m0, p);
      if p.name !in nameToPackages {
        names := Insort(names, p.name);
        nameToPackages := nameToPackages[p.name := []];
      }
      var list := nameToPackages[p.name];
      assert list == Lookup(m0, p.name);
      nameToPackages := nameToPackages[p.name := SortByVersion(list + [p])];
      assert names == AddedNames(n0, m0, p);
      assert nameToPackages == AddedMap(m0, p);
    }

    /** `update`: adds the packages in order. */
    method Update(packages: seq<Package>)
      requires Valid()
      modifies this
      ensures (names, nameToPackages) == AddAll(old(names), old(nameToPackages), packages)
      ensures Valid()
      ensures multiset(Packages()) == multiset(old(Packages())) + multiset(packages)
    {
      ghost var n0, m0 := names, nameToPackages;
      var i := 0;
      while i < |packages|
        invariant 0 <= i <= |packages|
        invariant (names, nameToPackages) == AddAll(n0, m0, packages[..i])
      {
        AddAllValid(n0, m0, packages[..i]);
        AddPackage(packages[i]);
        AddAllSnoc(n0, m0, packages, i);
        i := i + 1;
      }
      TakeAll(packages);
      AddAllValid(n0, m0, packages);
    }

    /**
     * `find_packages`: the packages of that name, lowest version first.
     * The lookup inserts an empty list for an unknown name.
     */
    method FindPackages(name: string) returns (r: seq<Package>)
      requires Sane()
      modifies this
      ensures Sane() && names == old(names)
      ensures r == old(Candidates(name))
      ensures nameToPackages == if name in old(nameToPackages) then old(nameToPackages) else old(nameToPackages)[name := []]
    {
      r := LookUpAsWritten(name);
    }

    /**
     * `find_package`: the first package of that name with an equal version,
     * NoPackageFound when there is none. The lookup inserts an empty list
     * for an unknown name.
     */
    method FindPackage(name: string, version: Version) returns (r: Result<Package>)
      requires Sane()
      modifies this
      ensures Sane() && names == old(names)
      ensures nameToPackages == if name in old(nameToPackages) then old(nameToPackages) else old(nameToPackages)[name := []]
      ensures r.Ok? ==> exists k :: 0 <= k < |old(Candidates(name))| && old(Candidates(name))[k] == r.value
                                    && r.value.version == version
                                    && forall k' :: 0 <= k' < k ==> old(Candidates(name))[k'].version != version
      ensures r.Err? <==> forall q :: q in old(Candidates(name)) ==> q.version != version
      ensures r.Err? ==> r.error == NoPackageFound
    {
      ghost var before := Candidates(name);
      var candidates := LookUpAsWritten(name);
      var i := 0;
      while i < |candidates|
        invariant 0 <= i <= |candidates|
        invariant forall k :: 0 <= k < i ==> candidates[k].version != version
      {
        if candidates[i].version == version {
          assert before[i] == candidates[i];
          return Ok(candidates[i]);
        }
        i := i + 1;
      }
      return Err(NoPackageFound);
    }

    /**
     * The lookup `self._name_to_packages[name]` that both `find_package` and
     * `find_packages` perform: on a `defaultdict` it inserts an empty list
     * for an unknown name, without listing the name.
     */
    method LookUpAsWritten(name: string) returns (r: seq<Package>)
      requires Sane()
      modifies this
      ensures Sane()
      ensures r == old(Lookup(nameToPackages, name))
      ensures names == old(names)
      ensures nameToPackages == if name in old(nameToPackages) then old(nameToPackages) else old(nameToPackages)[name := []]
    {
      if name !in nameToPackages {
        nameToPackages := nameToPackages[name := []];
      }
      r := nameToPackages[name];
    }
  }

  /**
   * `find_packages` on an unknown name, then `add_package` of that name:
   * the name is never inserted into the sorted names, so the package can be
   * found by name and is counted by `__len__`, while iteration does not show it.
   */
  method FindThenAddHidesPackage(p: Package) returns (repo: Repository)
    ensures repo.Sane() && !repo.Valid()
    ensures repo.Candidates(p.name) == [p]
    ensures repo.Packages() == []
    ensures repo.Len() == 1
  {
    repo := new Repository([]);
    var _ := repo.FindPackages(p.name);
    repo.AddPackage(p);
    assert p.name in repo.nameToPackages && p.name !in repo.names;
    assert repo.Unlisted() == map[p.name := [p]];
    TotalLengthRemove(repo.Unlisted(), p.name);
    assert repo.Unlisted() - {p.name} == map[];
  }

  /** Without that lookup, an added package is listed by iteration. */
  method AddListsPackage(p: Package) returns (repo: Repository)
    ensures repo.Valid()
    ensures repo.Candidates(p.name) == [p]
    ensures repo.Packages() == [p]
  {
    repo := new Repository([p]);
    assert [p][..0] == [];
  }
}
