/**
 * The pool: every package of the added repositories gets an integer id,
 * consecutively from 1 in iteration order, and the pool answers which
 * packages satisfy a requirement.
 */
module Pools {
  import opened Wrappers
  import opened Kinds
  import opened Requirements
  import opened Packages
  import opened Repositories
  import opened SatUtils
  import SeqUtil

  /** The packages of one name, in the order given. */
  function OfName(ps: seq<Package>, n: string): (r: seq<Package>)
    ensures forall q :: q in r <==> q in ps && q.name == n
    decreases |ps|
  {
    if ps == [] then []
    else
      var init := OfName(ps[..|ps| - 1], n);
      assert forall q :: q in ps <==> q in ps[..|ps| - 1] || q == ps[|ps| - 1];
      if ps[|ps| - 1].name == n then init + [ps[|ps| - 1]] else init
  }

  /** The packages whose version a requirement accepts, in the order given. */
  function Matching(ps: seq<Package>, req: Requirement): (r: seq<Package>)
    ensures forall q :: q in r <==> q in ps && Matches(req, q.version)
    decreases |ps|
  {
    if ps == [] then []
    else
      var init := Matching(ps[..|ps| - 1], req);
      assert forall q :: q in ps <==> q in ps[..|ps| - 1] || q == ps[|ps| - 1];
      if Matches(req, ps[|ps| - 1].version) then init + [ps[|ps| - 1]] else init
  }

  /** `p` occurs at index `k` of `ps` and nowhere after it. */
  predicate LastAt(ps: seq<Package>, p: Package, k: int)
  {
    0 <= k < |ps| && ps[k] == p && forall j :: k < j < |ps| ==> ps[j] != p
  }

  /**
   * The pool invariant, over the packages in id order: ids run from 1 to
   * their number, a package maps to its last id, and each name lists its
   * packages in id order.
   */
  ghost predicate PoolState(added: seq<Package>, nextId: int, packageToId: map<Package, int>,
                      idToPackage: map<int, Package>, byName: map<string, seq<Package>>)
  {
    nextId == |added| + 1
    && (forall i :: i in idToPackage <==> 1 <= i <= |added|)
    && (forall i :: 1 <= i <= |added| ==> idToPackage[i] == added[i - 1])
    && (forall p :: p in packageToId <==> p in added)
    && (forall p :: p in packageToId ==> LastAt(added, p, packageToId[p] - 1))
    && (forall n :: n in byName ==> byName[n] == OfName(added, n))
    && (forall q :: q in added ==> q.name in byName)
  }

  lemma OfNameSnoc(ps: seq<Package>, p: Package, n: string)
    ensures OfName(ps + [p], n) == OfName(ps, n) + (if p.name == n then [p] else [])
  {
    assert (ps + [p])[..|ps|] == ps;
  }

  lemma OfNameEmpty(ps: seq<Package>, n: string)
    requires forall q :: q in ps ==> q.name != n
    ensures OfName(ps, n) == []
  {
    if OfName(ps, n) != [] {
      assert OfName(ps, n)[0] in OfName(ps, n);
    }
  }

  lemma AddedByName(added: seq<Package>, byName: map<string, seq<Package>>, p: Package)
    requires forall n :: n in byName ==> byName[n] == OfName(added, n)
    requires forall q :: q in added ==> q.name in byName
    ensures forall n :: n in byName[p.name := Lookup(byName, p.name) + [p]] ==>
              byName[p.name := Lookup(byName, p.name) + [p]][n] == OfName(added + [p], n)
  {
    forall n | n in byName[p.name := Lookup(byName, p.name) + [p]]
      ensures byName[p.name := Lookup(byName, p.name) + [p]][n] == OfName(added + [p], n)
    {
      OfNameSnoc(added, p, n);
      if n == p.name && n !in byName {
        OfNameEmpty(added, n);
      }
    }
  }

  lemma AddedIds(added: seq<Package>, packageToId: map<Package, int>, p: Package, after: map<Package, int>)
    requires forall q :: q in packageToId <==> q in added
    requires forall q :: q in packageToId ==> LastAt(added, q, packageToId[q] - 1)
    requires after == packageToId[p := |added| + 1]
    ensures forall q :: q in after ==> LastAt(added + [p], q, after[q] - 1)
  {
    var s := added + [p];
    forall q | q in after
      ensures LastAt(s, q, after[q] - 1)
    {
      if q != p {
        var k := packageToId[q] - 1;
        assert LastAt(added, q, k);
        assert forall j :: k < j < |s| ==> s[j] != q by {
          assert forall j :: k < j < |added| ==> s[j] == added[j];
        }
      }
    }
  }

  /** Giving the next id to one more package keeps the invariant. */
  lemma AddOne(added: seq<Package>, nextId: int, packageToId: map<Package, int>,
               idToPackage: map<int, Package>, byName: map<string, seq<Package>>, p: Package)
    requires PoolState(added, nextId, packageToId, idToPackage, byName)
    ensures PoolState(added + [p], nextId + 1, packageToId[p := nextId], idToPackage[nextId := p],
                      byName[p.name := Lookup(byName, p.name) + [p]])
  {
    var s, toId, ids := added + [p], packageToId[p := nextId], idToPackage[nextId := p];
    var names := byName[p.name := Lookup(byName, p.name) + [p]];
    AddedByName(added, byName, p);
    AddedIds(added, packageToId, p, toId);
    IdsSnoc(added, idToPackage, p, s, ids);
    KeysSnoc(added, packageToId, p, nextId);
    NamesSnoc(added, byName, p);
    assert PoolState(s, nextId + 1, toId, ids, names);
  }

  /** The id table after giving id `|added| + 1` to `p`. */
  lemma IdsSnoc(added: seq<Package>, idToPackage: map<int, Package>, p: Package,
                s: seq<Package>, ids: map<int, Package>)
    requires forall i :: i in idToPackage <==> 1 <= i <= |added|
    requires forall i :: 1 <= i <= |added| ==> idToPackage[i] == added[i - 1]
    requires s == added + [p] && ids == idToPackage[|added| + 1 := p]
    ensures forall i :: i in ids <==> 1 <= i <= |s|
    ensures forall i :: 1 <= i <= |s| ==> ids[i] == s[i - 1]
  {
    assert forall j :: 0 <= j < |added| ==> s[j] == added[j];
  }

  /** The packages with an id after giving one to `p`. */
  lemma KeysSnoc(added: seq<Package>, packageToId: map<Package, int>, p: Package, nextId: int)
    requires forall q :: q in packageToId <==> q in added
    ensures forall q :: q in packageToId[p := nextId] <==> q in added + [p]
  {
  }

  /** Every added package's name is filed after filing `p` under its name. */
  lemma NamesSnoc(added: seq<Package>, byName: map<string, seq<Package>>, p: Package)
    requires forall q :: q in added ==> q.name in byName
    ensures forall q :: q in added + [p] ==> q.name in byName[p.name := Lookup(byName, p.name) + [p]]
  {
  }

  lemma AppendTakeSnoc<T>(a: seq<T>, s: seq<T>, i: nat)
    requires i < |s|
    ensures a + s[..i + 1] == (a + s[..i]) + [s[i]]
  {
    assert s[..i + 1] == s[..i] + [s[i]];
  }

  lemma TakeSnoc<T>(s: seq<T>, i: nat)
    requires i < |s|
    ensures s[..i + 1][..i] == s[..i] && s[..i + 1][i] == s[i]
  {
  }

  /** The packages of the repositories, one repository after the other. */
  function AllPackages(repositories: seq<Repository>): seq<Package>
    reads repositories
  {
    if repositories == [] then []
    else AllPackages(repositories[..|repositories| - 1]) + repositories[|repositories| - 1].Packages()
  }

  /** The candidates the requirement accepts, in order. */
  method Accepted(candidates: seq<Package>, req: Requirement) returns (r: seq<Package>)
    ensures r == Matching(candidates, req)
  {
    r := [];
    var i := 0;
    while i < |candidates|
      invariant 0 <= i <= |candidates|
      invariant r == Matching(candidates[..i], req)
    {
      TakeSnoc(candidates, i);
      if Matches(req, candidates[i].version) {
        r := r + [candidates[i]];
      }
      i := i + 1;
    }
    assert candidates[..i] == candidates;
  }

  class Pool {
    var packageToId: map<Package, int>
    var idToPackage: map<int, Package>
    var packagesByName: map<string, seq<Package>>
    var nextId: int
    /** The packages in the order they were given ids. */
    ghost var added: seq<Package>

    ghost predicate Valid()
      reads this
    {
      PoolState(added, nextId, packageToId, idToPackage, packagesByName)
    }

    constructor (repositories: seq<Repository>)
      ensures Valid()
      ensures added == AllPackages(repositories)
    {
      packageToId := map[];
      idToPackage := map[];
      packagesByName := map[];
      nextId := 1;
      added := [];
      new;
      var i := 0;
      while i < |repositories|
        invariant 0 <= i <= |repositories|
        invariant Valid()
        invariant added == AllPackages(repositories[..i])
      {
        AddRepository(repositories[i]);
        TakeSnoc(repositories, i);
        i := i + 1;
      }
      assert repositories[..i] == repositories;
    }

    /** `add_repository`: the repository's packages get the next ids, in iteration order. */
    method AddRepository(repository: Repository)
      requires Valid()
      modifies this
      ensures Valid()
      ensures added == old(added) + repository.Packages()
    {
      var ps := repository.Packages();
      var i := 0;
      while i < |ps|
        invariant 0 <= i <= |ps|
        invariant Valid()
        invariant added == old(added) + ps[..i]
      {
        var p := ps[i];
        AddOne(added, nextId, packageToId, idToPackage, packagesByName, p);
        AppendTakeSnoc(old(added), ps, i);
        var currentId := nextId;
        nextId := nextId + 1;
        idToPackage := idToPackage[currentId := p];
        packageToId := packageToId[p := currentId];
        packagesByName := packagesByName[p.name := Lookup(packagesByName, p.name) + [p]];
        added := added + [p];
        i := i + 1;
      }
      assert ps[..i] == ps;
    }

    /** `what_provides`: the packages of the requirement's name that it accepts, in id order. */
    method WhatProvides(req: Requirement) returns (r: seq<Package>)
      requires Valid()
      ensures r == Matching(OfName(added, req.name), req)
    {
      if req.name in packagesByName {
        r := Accepted(packagesByName[req.name], req);
      } else {
        OfNameEmpty(added, req.name);
        r := [];
      }
    }

    /** `package_id`: the id a package was last given; ValueError for a package not in the pool. */
    function PackageId(p: Package): (r: Result<int>)
      requires Valid()
      reads this
      ensures r.Ok? <==> p in added
      ensures r.Ok? ==> 1 <= r.value <= |added| && LastAt(added, p, r.value - 1)
      ensures r.Err? ==> r.error == ValueError
    {
      if p in packageToId then Ok(packageToId[p]) else Err(ValueError)
    }

    /**
     * `id_to_string`: "+" for an install literal, "-" for a removal, then
     * the package's name and version; KeyError for an id not in the pool.
     * How a version prints is given.
     */
    function IdToString(id: int, versionText: Version -> string): (r: Result<string>)
      requires Valid()
      reads this
      ensures r.Ok? <==> 1 <= Abs(id) <= |added|
      ensures r.Ok? ==> r.value != [] && (r.value[0] == '+' <==> id > 0)
      ensures r.Ok? ==> r.value[1..] == added[Abs(id) - 1].name + "-" + versionText(added[Abs(id) - 1].version)
      ensures r.Err? ==> r.error == KeyError
    {
      if Abs(id) in idToPackage then
        var package := idToPackage[Abs(id)];
        var packageString := package.name + "-" + versionText(package.version);
        if id > 0 then Ok("+" + packageString) else Ok("-" + packageString)
      else Err(KeyError)
    }

    /** Every id given out maps back to its package, and a package's id to it; without duplicates the maps are inverse. */
    lemma IdsInverse()
      requires Valid()
      ensures forall p :: p in packageToId ==> packageToId[p] in idToPackage && idToPackage[packageToId[p]] == p
      ensures forall i :: i in idToPackage ==> idToPackage[i] in packageToId && i <= packageToId[idToPackage[i]]
      ensures SeqUtil.NoDup(added) ==> forall i :: i in idToPackage ==> packageToId[idToPackage[i]] == i
    {
      PackageIdsBack();
      forall i | i in idToPackage
        ensures idToPackage[i] in packageToId && i <= packageToId[idToPackage[i]]
      {
        IdBackToPackage(i);
      }
      if SeqUtil.NoDup(added) {
        IdsBackWithoutDuplicates();
      }
    }

    lemma PackageIdsBack()
      requires Valid()
      ensures forall p :: p in packageToId ==> packageToId[p] in idToPackage && idToPackage[packageToId[p]] == p
    {
      forall p | p in packageToId
        ensures packageToId[p] in idToPackage && idToPackage[packageToId[p]] == p
      {
        assert LastAt(added, p, packageToId[p] - 1);
      }
    }

    lemma IdsBackWithoutDuplicates()
      requires Valid() && SeqUtil.NoDup(added)
      ensures forall i :: i in idToPackage ==> packageToId[idToPackage[i]] == i
    {
      forall i | i in idToPackage
        ensures packageToId[idToPackage[i]] == i
      {
        IdBackToPackage(i);
        var k := packageToId[idToPackage[i]] - 1;
        assert added[k] == added[i - 1];
      }
    }

    /** The package of an id has been given that id or a later one. */
    lemma IdBackToPackage(i: int)
      requires Valid() && i in idToPackage
      ensures idToPackage[i] in packageToId && i <= packageToId[idToPackage[i]]
      ensures added[i - 1] == idToPackage[i] && LastAt(added, idToPackage[i], packageToId[idToPackage[i]] - 1)
    {
      var p := idToPackage[i];
      assert added[i - 1] == p;
      var k := packageToId[p] - 1;
      assert LastAt(added, p, k);
    }

    /** An id and its negation print the same package with opposite signs. */
    lemma IdToStringNegated(id: int, versionText: Version -> string)
      requires Valid() && id != 0 && IdToString(id, versionText).Ok?
      ensures IdToString(-id, versionText).Ok?
      ensures IdToString(-id, versionText).value[1..] == IdToString(id, versionText).value[1..]
      ensures IdToString(-id, versionText).value[0] != IdToString(id, versionText).value[0]
    {
      assert Abs(-id) == Abs(id);
    }
  }
}
