/**
 * Dependencies and reverse dependencies of a requirement
 * (simplesat/compute_dependencies.py), read off a table from each package
 * id to the ids it depends on. Reversing the table turns dependencies into
 * dependents.
 */
module ComputeDependencies {
  import opened Wrappers
  import opened SetFacts
  import opened Requirements
  import opened Packages
  import opened Pools

  /** `d[k]` of a `defaultdict(set)`: the empty set for a missing key. */
  function Get(m: map<int, set<int>>, k: int): set<int>
  {
    if k in m then m[k] else {}
  }

  /**
   * `r` is `mapping` reversed: its keys are the values `mapping` lists, and
   * under each of them are the keys whose sets hold it.
   */
  ghost predicate Reverses(mapping: map<int, set<int>>, r: map<int, set<int>>)
  {
    && (forall v :: v in r ==> exists k :: k in mapping && v in mapping[k])
    && (forall v, k :: k in Get(r, v) <==> k in mapping && v in mapping[k])
  }

  /** Reversing one more entry `key -> vals` into a reversal of the others. */
  lemma ReversesGrow(m0: map<int, set<int>>, key: int, vals: set<int>, r0: map<int, set<int>>, r: map<int, set<int>>)
    requires key !in m0 && Reverses(m0, r0)
    requires forall v, k :: k in Get(r, v) <==> k in Get(r0, v) || (k == key && v in vals)
    requires forall v :: v in r ==> v in r0 || v in vals
    ensures Reverses(m0[key := vals], r)
  {
    var m := m0[key := vals];
    forall v | v in r
      ensures exists k :: k in m && v in m[k]
    {
      if v !in vals {
        var k :| k in m0 && v in m0[k];
        assert k in m && v in m[k];
      } else {
        assert key in m && v in m[key];
      }
    }
  }

  /** `_reverse_mapping`: for each key and each of its values, the key is added under the value. */
  method ReverseMapping(mapping: map<int, set<int>>) returns (r: map<int, set<int>>)
    ensures Reverses(mapping, r)
  {
    r := map[];
    var keys := mapping.Keys;
    assert mapping - keys == map[];
    while keys != {}
      invariant keys <= mapping.Keys
      invariant Reverses(mapping - keys, r)
      decreases keys
    {
      NonEmptyHasElement(keys);
      var key :| key in keys;
      var vals := mapping[key];
      ghost var r0 := r;
      var todo := vals;
      while todo != {}
        invariant todo <= vals
        invariant forall v, k :: k in Get(r, v) <==> k in Get(r0, v) || (k == key && v in vals - todo)
        invariant forall v :: v in r ==> v in r0 || v in vals - todo
        decreases todo
      {
        NonEmptyHasElement(todo);
        var v :| v in todo;
        ghost var (r1, todo1) := (r, todo);
        todo := todo - {v};
        r := r[v := Get(r, v) + {key}];
        assert Get(r, v) == Get(r1, v) + {key};
        assert forall w :: w != v ==> Get(r, w) == Get(r1, w);
        assert vals - todo == (vals - todo1) + {v};
      }
      ReversesGrow(mapping - keys, key, vals, r0, r);
      assert (mapping - keys)[key := vals] == mapping - (keys - {key});
      keys := keys - {key};
    }
    assert mapping - keys == mapping;
  }

  /** A value listed under a key of the reversal holds that key in the table. */
  lemma ReversedEntry(m: map<int, set<int>>, r: map<int, set<int>>, v: int, k: int)
    requires Reverses(m, r)
    ensures k in Get(r, v) <==> k in m && v in m[k]
  {
  }

  /**
   * Reversing twice gives back the keys of the table whose sets are not
   * empty (an empty set names nothing, so nothing records its key).
   */
  lemma ReverseTwiceKeys(m: map<int, set<int>>, r: map<int, set<int>>, r2: map<int, set<int>>, k: int)
    requires Reverses(m, r) && Reverses(r, r2)
    ensures k in r2 <==> k in m && m[k] != {}
  {
    if k in r2 {
      var v :| v in r && k in r[v];
      ReversedEntry(m, r, v, k);
    }
    if k in m && m[k] != {} {
      NonEmptyHasElement(m[k]);
      var v :| v in m[k];
      ReversedEntry(m, r, v, k);
      ReversedEntry(r, r2, k, v);
    }
  }

  /** Reversing twice gives back each kept key's set. */
  lemma ReverseTwiceValues(m: map<int, set<int>>, r: map<int, set<int>>, r2: map<int, set<int>>, k: int)
    requires Reverses(m, r) && Reverses(r, r2) && k in r2
    ensures k in m && r2[k] == m[k]
  {
    ReverseTwiceKeys(m, r, r2, k);
    forall v
      ensures v in r2[k] <==> v in m[k]
    {
      ReversedEntry(r, r2, k, v);
      ReversedEntry(m, r, v, k);
    }
  }

  /** The ids the providers' entries list, a missing entry listing none. */
  function DependencyIds(neighbors: map<int, set<int>>, providerIds: seq<int>): set<int>
  {
    set i, d | 0 <= i < |providerIds| && d in Get(neighbors, providerIds[i]) :: d
  }

  /** Adding the packages of one more provider's listed ids keeps `result` the packages of all listed ids. */
  lemma ResultGrows(idToPackage: map<int, Package>, neighbors: map<int, set<int>>, before: seq<int>, x: int,
                    result0: set<Package>, result: set<Package>)
    requires forall d :: d in DependencyIds(neighbors, before) ==> d in idToPackage
    requires forall d :: d in Get(neighbors, x) ==> d in idToPackage
    requires forall q :: q in result0 <==> exists d :: d in DependencyIds(neighbors, before) && idToPackage[d] == q
    requires result == result0 + set d | d in Get(neighbors, x) :: idToPackage[d]
    ensures forall q :: q in result <==>
              exists d :: d in DependencyIds(neighbors, before + [x]) && idToPackage[d] == q
  {
    DependencyIdsSnoc(neighbors, before, x);
    forall q | q in result
      ensures exists d :: d in DependencyIds(neighbors, before + [x]) && idToPackage[d] == q
    {
      if q !in result0 {
        var d :| d in Get(neighbors, x) && idToPackage[d] == q;
        assert d in DependencyIds(neighbors, before + [x]);
      }
    }
  }

  /** `ids` are the ids of the first `|ids|` providers. */
  ghost predicate IdsOf(pool: Pool, providers: seq<Package>, ids: seq<int>)
    requires pool.Valid()
    reads pool
  {
    |ids| <= |providers| && forall j :: 0 <= j < |ids| ==> pool.PackageId(providers[j]) == Ok(ids[j])
  }

  lemma IdsOfSnoc(pool: Pool, providers: seq<Package>, ids: seq<int>, x: int)
    requires pool.Valid() && IdsOf(pool, providers, ids) && |ids| < |providers|
    requires pool.PackageId(providers[|ids|]) == Ok(x)
    ensures IdsOf(pool, providers, ids + [x])
  {
    var ids' := ids + [x];
    assert forall j :: 0 <= j < |ids| ==> ids'[j] == ids[j];
  }

  /** One more provider id adds the ids its entry lists. */
  lemma DependencyIdsSnoc(neighbors: map<int, set<int>>, before: seq<int>, x: int)
    ensures forall d :: d in DependencyIds(neighbors, before + [x]) <==>
                          d in DependencyIds(neighbors, before) || d in Get(neighbors, x)
  {
    var after := before + [x];
    forall d | d in DependencyIds(neighbors, after) && d !in Get(neighbors, x)
      ensures d in DependencyIds(neighbors, before)
    {
      var j :| 0 <= j < |after| && d in Get(neighbors, after[j]);
      assert before[j] == after[j];
    }
    forall d | d in DependencyIds(neighbors, before)
      ensures d in DependencyIds(neighbors, after)
    {
      var j :| 0 <= j < |before| && d in Get(neighbors, before[j]);
      assert after[j] == before[j];
    }
    forall d | d in Get(neighbors, x)
      ensures d in DependencyIds(neighbors, after)
    {
      assert after[|before|] == x;
    }
  }

  /** Every id the table lists for one of the packages has a package in the pool. */
  ghost predicate ListedInPool(pool: Pool, neighbors: map<int, set<int>>, packages: seq<Package>)
    requires pool.Valid()
    reads pool
  {
    forall p, d :: p in packages && pool.PackageId(p).Ok? && d in Get(neighbors, pool.PackageId(p).value) ==>
      d in pool.idToPackage
  }

  /** The requirement's providers are pool packages, so each has an id. */
  lemma ProvidersPooled(pool: Pool, req: Requirement)
    requires pool.Valid()
    ensures forall p :: p in Matching(OfName(pool.added, req.name), req) ==> pool.PackageId(p).Ok?
  {
  }

  /** One more package: its listed ids must have packages too. */
  lemma ListedInPoolSnoc(pool: Pool, neighbors: map<int, set<int>>, ps: seq<Package>, p: Package)
    requires pool.Valid() && pool.PackageId(p).Ok?
    ensures ListedInPool(pool, neighbors, ps + [p]) <==>
              ListedInPool(pool, neighbors, ps)
              && forall d :: d in Get(neighbors, pool.PackageId(p).value) ==> d in pool.idToPackage
  {
    assert forall q :: q in ps + [p] <==> q in ps || q == p;
  }

  /** A package of the list with an unpooled listed id breaks the property. */
  lemma NotListedInPool(pool: Pool, neighbors: map<int, set<int>>, ps: seq<Package>, p: Package, d: int)
    requires pool.Valid() && p in ps && pool.PackageId(p).Ok?
    requires d in Get(neighbors, pool.PackageId(p).value) && d !in pool.idToPackage
    ensures !ListedInPool(pool, neighbors, ps)
  {
  }

  /**
   * `_dependencies_for_requirement`: the packages whose ids the table lists
   * for any package providing the requirement. The providers come from the
   * pool, so `package_id` always finds them and its ValueError cannot
   * happen; a listed id without a package is the KeyError of
   * `id_to_package`. A provider the table does not list (the `defaultdict`
   * read) adds nothing.
   */
  method DependenciesForRequirement(pool: Pool, neighbors: map<int, set<int>>, req: Requirement)
      returns (r: Result<set<Package>>, ghost providerIds: seq<int>)
    requires pool.Valid()
    ensures var providers := Matching(OfName(pool.added, req.name), req);
              forall p :: p in providers ==> pool.PackageId(p).Ok?
    ensures r.Ok? <==> ListedInPool(pool, neighbors, Matching(OfName(pool.added, req.name), req))
    ensures r.Err? ==> r.error == KeyError
    ensures r.Ok? ==>
              var providers := Matching(OfName(pool.added, req.name), req);
              && |providerIds| == |providers|
              && (forall i :: 0 <= i < |providers| ==> pool.PackageId(providers[i]) == Ok(providerIds[i]))
              && (forall d :: d in DependencyIds(neighbors, providerIds) ==> d in pool.idToPackage)
              && (forall q :: q in r.value <==>
                    exists d :: d in DependencyIds(neighbors, providerIds) && pool.idToPackage[d] == q)
  {
    var providers := pool.WhatProvides(req);
    ProvidersPooled(pool, req);
    r, providerIds := DependenciesOfProviders(pool, neighbors, providers);
  }

  /** The loop of `_dependencies_for_requirement` over the providers. */
  method DependenciesOfProviders(pool: Pool, neighbors: map<int, set<int>>, providers: seq<Package>)
      returns (r: Result<set<Package>>, ghost providerIds: seq<int>)
    requires pool.Valid()
    requires forall p :: p in providers ==> pool.PackageId(p).Ok?
    ensures r.Ok? <==> ListedInPool(pool, neighbors, providers)
    ensures r.Err? ==> r.error == KeyError
    ensures r.Ok? ==>
              && |providerIds| == |providers|
              && (forall i :: 0 <= i < |providers| ==> pool.PackageId(providers[i]) == Ok(providerIds[i]))
              && (forall d :: d in DependencyIds(neighbors, providerIds) ==> d in pool.idToPackage)
              && (forall q :: q in r.value <==>
                    exists d :: d in DependencyIds(neighbors, providerIds) && pool.idToPackage[d] == q)
  {
    var result: set<Package> := {};
    providerIds := [];
    assert ListedInPool(pool, neighbors, providers[..0]);
    for i := 0 to |providers|
      invariant |providerIds| == i
      invariant IdsOf(pool, providers, providerIds)
      invariant ListedInPool(pool, neighbors, providers[..i])
      invariant forall d :: d in DependencyIds(neighbors, providerIds) ==> d in pool.idToPackage
      invariant forall q :: q in result <==>
                  exists d :: d in DependencyIds(neighbors, providerIds) && pool.idToPackage[d] == q
    {
      var id := pool.PackageId(providers[i]);
      assert providers[i] in providers;
      var ids := Get(neighbors, id.value);
      if exists d :: d in ids && d !in pool.idToPackage {
        var d :| d in ids && d !in pool.idToPackage;
        NotListedInPool(pool, neighbors, providers, providers[i], d);
        return Err(KeyError), providerIds;
      }
      assert providers[..i + 1] == providers[..i] + [providers[i]];
      ListedInPoolSnoc(pool, neighbors, providers[..i], providers[i]);
      ghost var before := providerIds;
      providerIds := providerIds + [id.value];
      IdsOfSnoc(pool, providers, before, id.value);
      DependencyIdsSnoc(neighbors, before, id.value);
      ghost var result0 := result;
      result := result + set d | d in ids :: pool.idToPackage[d];
      ResultGrows(pool.idToPackage, neighbors, before, id.value, result0, result);
    }
    assert providers[..|providers|] == providers;
    return Ok(result), providerIds;
  }

  /**
   * Through the reversed table, the ids listed for the providers are the
   * packages whose entries in the original table name one of the providers.
   */
  lemma ReverseDependencyIds(m: map<int, set<int>>, r: map<int, set<int>>, providerIds: seq<int>, k: int)
    requires Reverses(m, r)
    ensures k in DependencyIds(r, providerIds) <==>
              k in m && exists i :: 0 <= i < |providerIds| && providerIds[i] in m[k]
  {
    if k in m && exists i :: 0 <= i < |providerIds| && providerIds[i] in m[k] {
      var i :| 0 <= i < |providerIds| && providerIds[i] in m[k];
      assert k in Get(r, providerIds[i]);
    }
  }
}
