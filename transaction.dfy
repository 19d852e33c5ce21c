/**
 * `Transaction` (simplesat/transaction.py): the solver's decisions compared
 * with what is installed, turned into install, update and remove
 * operations. Installs and updates are ordered by walking the dependency
 * candidates from the root packages; removals come last.
 */
module Transactions {
  import opened Wrappers
  import opened Kinds
  import opened Requirements
  import opened Packages
  import opened Pools
  import opened SatUtils
  import opened SeqUtil
  import opened PyText

  /** `InstallOperation`, `UpdateOperation` (new package, then the package it replaces) and `RemoveOperation`. */
  datatype Operation =
    | Install(package: Package)
    | Update(package: Package, source: Package)
    | Remove(package: Package)

  // ---------------------------------------------------------------------
  // OrderedDict keyed by package id
  // ---------------------------------------------------------------------

  /** An `OrderedDict` from package ids: the keys in insertion order, and the entries. */
  datatype OrderedMap = OrderedMap(order: seq<int>, entries: map<int, Operation>)

  /** Each key listed once, and exactly the keys of the entries. */
  ghost predicate Wf(m: OrderedMap)
  {
    NoDup(m.order)
    && (forall i :: 0 <= i < |m.order| ==> m.order[i] in m.entries)
    && (forall k :: k in m.entries ==> k in m.order)
  }

  /** `s` without the occurrences of `k`. */
  function Drop(s: seq<int>, k: int): (r: seq<int>)
    ensures forall x :: x in r <==> x in s && x != k
    ensures NoDup(s) ==> NoDup(r)
    decreases |s|
  {
    if s == [] then []
    else
      var init := Drop(s[..|s| - 1], k);
      assert forall x :: x in s <==> x in s[..|s| - 1] || x == s[|s| - 1];
      assert NoDup(s) ==> NoDup(s[..|s| - 1]) && s[|s| - 1] !in s[..|s| - 1];
      if s[|s| - 1] == k then init else init + [s[|s| - 1]]
  }

  /** `m[k] = op`: a new key goes last, a key already there keeps its place. */
  function Put(m: OrderedMap, k: int, op: Operation): (r: OrderedMap)
    ensures Wf(m) ==> Wf(r)
    ensures r.entries == m.entries[k := op]
    ensures k in m.entries ==> r.order == m.order
  {
    OrderedMap(if k in m.entries then m.order else m.order + [k], m.entries[k := op])
  }

  /** `m.pop(k)`: the entry and its key gone, the other keys in their order. */
  function Pop(m: OrderedMap, k: int): (r: OrderedMap)
    ensures Wf(m) ==> Wf(r)
    ensures r.entries == m.entries - {k}
  {
    DropWf(m, k);
    OrderedMap(Drop(m.order, k), m.entries - {k})
  }

  lemma DropWf(m: OrderedMap, k: int)
    ensures Wf(m) ==> Wf(OrderedMap(Drop(m.order, k), m.entries - {k}))
  {
    if Wf(m) {
      var d := Drop(m.order, k);
      forall i | 0 <= i < |d|
        ensures d[i] in m.entries - {k}
      {
        assert d[i] in d;
      }
    }
  }

  /** `m.values()`, in key order. */
  function Values(m: OrderedMap): (r: seq<Operation>)
    requires Wf(m)
    ensures |r| == |m.order| && forall i :: 0 <= i < |r| ==> m.order[i] in m.entries && r[i] == m.entries[m.order[i]]
  {
    EntriesOf(m.order, m.entries)
  }

  function EntriesOf(ks: seq<int>, e: map<int, Operation>): (r: seq<Operation>)
    requires forall i :: 0 <= i < |ks| ==> ks[i] in e
    ensures |r| == |ks| && forall i :: 0 <= i < |r| ==> r[i] == e[ks[i]]
    decreases |ks|
  {
    if ks == [] then []
    else
      EntriesOf(ks[..|ks| - 1], e) + [e[ks[|ks| - 1]]]
  }

  // ---------------------------------------------------------------------
  // The pool, as values
  // ---------------------------------------------------------------------

  /** The pool's packages in id order and its two id maps. */
  datatype PoolView = PoolView(added: seq<Package>, packageToId: map<Package, int>, idToPackage: map<int, Package>)

  ghost function ViewOf(pool: Pool): PoolView
    reads pool
  {
    PoolView(pool.added, pool.packageToId, pool.idToPackage)
  }

  /** What `what_provides` answers for a requirement. */
  ghost function Provided(v: PoolView, req: Requirement): seq<Package>
  {
    Matching(OfName(v.added, req.name), req)
  }

  /** `[q for q in ps if q != p]`. */
  function Others(ps: seq<Package>, p: Package): (r: seq<Package>)
    ensures forall q :: q in r <==> q in ps && q != p
    decreases |ps|
  {
    if ps == [] then []
    else
      var init := Others(ps[..|ps| - 1], p);
      assert forall q :: q in ps <==> q in ps[..|ps| - 1] || q == ps[|ps| - 1];
      if ps[|ps| - 1] != p then init + [ps[|ps| - 1]] else init
  }

  /**
   * `_find_updates`: the pool's packages for the requirement made of the
   * package's name alone, the package itself excepted.
   */
  ghost function FindUpdates(v: PoolView, p: Package, versionOf: string -> Result<Version>): (r: Result<seq<Package>>)
  {
    var req :- FromString(p.name, versionOf);
    Ok(Others(Provided(v, req), p))
  }

  // ---------------------------------------------------------------------
  // _compute_means_update_map
  // ---------------------------------------------------------------------

  /** `means_update_map[package_id(q)] = p` for each q in turn; ValueError for a q outside the pool. */
  function PointAt(v: PoolView, m: map<int, Package>, ups: seq<Package>, p: Package): (r: Result<map<int, Package>>)
    decreases |ups|
  {
    if ups == [] then Ok(m)
    else
      var m' :- PointAt(v, m, ups[..|ups| - 1], p);
      var q := ups[|ups| - 1];
      if q in v.packageToId then Ok(m'[v.packageToId[q] := p]) else Err(ValueError)
  }

  /** One decision of `_compute_means_update_map`: a removed installed package points its updates at itself. */
  ghost function MeansStep(v: PoolView, installed: set<int>, m: map<int, Package>, d: int,
                           versionOf: string -> Result<Version>): Result<map<int, Package>>
  {
    var id := Abs(d);
    if id !in v.idToPackage then Err(KeyError)
    else if d < 0 && id in installed then
      var ups :- FindUpdates(v, v.idToPackage[id], versionOf);
      PointAt(v, m, ups, v.idToPackage[id])
    else Ok(m)
  }

  /** `_compute_means_update_map` over the decisions in the order given. */
  ghost function MeansUpdateMap(v: PoolView, installed: set<int>, ds: seq<int>,
                                versionOf: string -> Result<Version>): Result<map<int, Package>>
    decreases |ds|
  {
    if ds == [] then Ok(map[])
    else
      var m :- MeansUpdateMap(v, installed, ds[..|ds| - 1], versionOf);
      MeansStep(v, installed, m, ds[|ds| - 1], versionOf)
  }

  /** One more decision: the map so far, taken one step further. */
  lemma MeansSnoc(v: PoolView, installed: set<int>, ds: seq<int>, versionOf: string -> Result<Version>,
                  i: nat, m: map<int, Package>)
    requires i < |ds| && MeansUpdateMap(v, installed, ds[..i], versionOf) == Ok(m)
    ensures MeansUpdateMap(v, installed, ds[..i + 1], versionOf) == MeansStep(v, installed, m, ds[i], versionOf)
  {
    assert ds[..i + 1][..i] == ds[..i];
  }

  // ---------------------------------------------------------------------
  // _compute_transaction's two passes over the sorted decisions
  // ---------------------------------------------------------------------

  /** The maps of the first pass: updates still to match, and the update, install and ignored-removal tables. */
  datatype Pass = Pass(means: map<int, Package>, updates: OrderedMap, installs: OrderedMap, ignored: set<int>)

  /**
   * One decision of the first pass. A positive decision for an installed
   * package, or a negative one for a package not installed, changes
   * nothing; a positive one becomes an update when some removed installed
   * package pointed at it, and an install otherwise.
   */
  function FirstStep(v: PoolView, installed: set<int>, s: Pass, d: int): Result<Pass>
  {
    var id := Abs(d);
    if id !in v.idToPackage then Err(KeyError)
    else if d > 0 && id in installed then Ok(s)
    else if d < 0 && id !in installed then Ok(s)
    else if d > 0 then
      var p := v.idToPackage[id];
      if id in s.means then
        var source := s.means[id];
        if source in v.packageToId then
          Ok(Pass(s.means - {id}, Put(s.updates, id, Update(p, source)), s.installs,
                  s.ignored + {v.packageToId[source]}))
        else Err(KeyError)
      else Ok(s.(installs := Put(s.installs, id, Install(p))))
    else Ok(s)
  }

  function FirstPass(v: PoolView, installed: set<int>, s: Pass, ds: seq<int>): Result<Pass>
    decreases |ds|
  {
    if ds == [] then Ok(s)
    else
      var t :- FirstPass(v, installed, s, ds[..|ds| - 1]);
      FirstStep(v, installed, t, ds[|ds| - 1])
  }

  /** One decision of the second pass: a removed installed package not replaced by an update. */
  function SecondStep(v: PoolView, installed: set<int>, ignored: set<int>, removes: OrderedMap, d: int): Result<OrderedMap>
  {
    var id := Abs(d);
    if id !in v.idToPackage then Err(KeyError)
    else if d < 0 && id in installed && id !in ignored then Ok(Put(removes, id, Remove(v.idToPackage[id])))
    else Ok(removes)
  }

  function SecondPass(v: PoolView, installed: set<int>, ignored: set<int>, ds: seq<int>): Result<OrderedMap>
    decreases |ds|
  {
    if ds == [] then Ok(OrderedMap([], map[]))
    else
      var removes :- SecondPass(v, installed, ignored, ds[..|ds| - 1]);
      SecondStep(v, installed, ignored, removes, ds[|ds| - 1])
  }

  // ---------------------------------------------------------------------
  // What the passes compute
  // ---------------------------------------------------------------------

  /** No package is decided twice: neither the same literal twice nor both signs of one id. */
  ghost predicate OneDecisionPerId(ds: seq<int>)
  {
    forall x :: multiset(ds)[x] + (if x != 0 then multiset(ds)[-x] else 0) <= 1
  }

  /** Dropping the last decision keeps one decision per id, and that id is not decided before. */
  lemma OneDecisionInit(ds: seq<int>)
    requires ds != [] && OneDecisionPerId(ds)
    ensures OneDecisionPerId(ds[..|ds| - 1])
    ensures ds[|ds| - 1] !in ds[..|ds| - 1] && -ds[|ds| - 1] !in ds[..|ds| - 1]
  {
    var init := ds[..|ds| - 1];
    var d := ds[|ds| - 1];
    assert ds == init + [d];
    assert multiset(ds) == multiset(init) + multiset{d};
    assert forall x :: multiset(init)[x] <= multiset(ds)[x];
    assert multiset(ds)[d] + (if d != 0 then multiset(ds)[-d] else 0) <= 1;
  }

  /** Sorting keeps one decision per id. */
  lemma OneDecisionSorted(ds: seq<int>)
    requires OneDecisionPerId(ds)
    ensures OneDecisionPerId(SortInts(ds))
  {
  }

  /** The first pass's tables, key by key. */
  ghost predicate FirstPassState(v: PoolView, installed: set<int>, means0: map<int, Package>, ds: seq<int>, s: Pass)
  {
    Wf(s.installs) && Wf(s.updates)
    && (forall k :: k in s.installs.entries <==> k > 0 && k in ds && k !in installed && k !in means0)
    && (forall k :: k in s.updates.entries <==> k > 0 && k in ds && k !in installed && k in means0)
    && (forall k :: k in s.installs.entries ==> k in v.idToPackage && s.installs.entries[k] == Install(v.idToPackage[k]))
    && (forall k :: k in s.updates.entries ==> k in v.idToPackage && s.updates.entries[k] == Update(v.idToPackage[k], means0[k]))
    && (forall k :: k in s.means <==> k in means0 && k !in s.updates.entries)
    && (forall k :: k in s.means ==> s.means[k] == means0[k])
    && (forall x :: x in s.ignored <==> exists k :: k in s.updates.entries && means0[k] in v.packageToId && v.packageToId[means0[k]] == x)
  }

  /**
   * The first pass, with one decision per id: a package is to be installed
   * exactly when it is decided for, is not installed and no removed
   * installed package points at it; it is to be updated exactly when one
   * does, from that package; and the ignored removals are the packages
   * updated from.
   */
  lemma {:induction false} FirstPassMeaning(v: PoolView, installed: set<int>, means0: map<int, Package>, ds: seq<int>)
    requires OneDecisionPerId(ds)
    requires FirstPass(v, installed, Pass(means0, OrderedMap([], map[]), OrderedMap([], map[]), {}), ds).Ok?
    ensures FirstPassState(v, installed, means0, ds,
                           FirstPass(v, installed, Pass(means0, OrderedMap([], map[]), OrderedMap([], map[]), {}), ds).value)
    decreases |ds|
  {
    var s0 := Pass(means0, OrderedMap([], map[]), OrderedMap([], map[]), {});
    if ds != [] {
      var init := ds[..|ds| - 1];
      var d := ds[|ds| - 1];
      OneDecisionInit(ds);
      FirstPassMeaning(v, installed, means0, init);
      FirstStepMeaning(v, installed, means0, init, d, FirstPass(v, installed, s0, init).value);
      assert ds == init + [d];
    }
  }

  /** One more decision, on an id not decided before, keeps the first pass's tables right. */
  lemma FirstStepMeaning(v: PoolView, installed: set<int>, means0: map<int, Package>, init: seq<int>, d: int, s: Pass)
    requires FirstPassState(v, installed, means0, init, s)
    requires d !in init && -d !in init
    requires FirstStep(v, installed, s, d).Ok?
    ensures FirstPassState(v, installed, means0, init + [d], FirstStep(v, installed, s, d).value)
  {
    var t := FirstStep(v, installed, s, d).value;
    var ds := init + [d];
    assert forall k :: k in ds <==> k in init || k == d;
    if d > 0 && Abs(d) !in installed && Abs(d) in s.means {
      forall x | x in t.ignored
        ensures exists k :: k in t.updates.entries && means0[k] in v.packageToId && v.packageToId[means0[k]] == x
      {
        if x !in s.ignored {
          assert d in t.updates.entries;
        }
      }
    }
  }

  /**
   * The second pass: a package is to be removed exactly when it is decided
   * against, is installed and is not the source of an update.
   */
  lemma {:induction false} SecondPassMeaning(v: PoolView, installed: set<int>, ignored: set<int>, ds: seq<int>)
    requires SecondPass(v, installed, ignored, ds).Ok?
    ensures var removes := SecondPass(v, installed, ignored, ds).value;
      Wf(removes)
      && (forall k :: k in removes.entries <==> -k in ds && k > 0 && k in installed && k !in ignored)
      && (forall k :: k in removes.entries ==> k in v.idToPackage && removes.entries[k] == Remove(v.idToPackage[k]))
    decreases |ds|
  {
    if ds != [] {
      var init := ds[..|ds| - 1];
      SecondPassMeaning(v, installed, ignored, init);
      assert ds == init + [ds[|ds| - 1]];
      assert forall k :: k in ds <==> k in init || k == ds[|ds| - 1];
    }
  }

  // ---------------------------------------------------------------------
  // _compute_root_packages
  // ---------------------------------------------------------------------

  /** The ids the pool gives to packages of `ps` (all of them, for packages of the pool). */
  ghost function IdsIn(v: PoolView, ps: seq<Package>): set<int>
  {
    set q | q in ps && q in v.packageToId :: v.packageToId[q]
  }

  /** The candidates of a package's dependencies, requirement by requirement, in the order given. */
  ghost function Candidates(v: PoolView, reqs: seq<Requirement>): seq<Package>
    decreases |reqs|
  {
    if reqs == [] then [] else Candidates(v, reqs[..|reqs| - 1]) + Provided(v, reqs[|reqs| - 1])
  }

  /** The candidate ids of the operation filed under key `k`. */
  ghost function CandidateIds(v: PoolView, m: OrderedMap, deps: Package -> seq<Requirement>, k: int): set<int>
  {
    if k in m.entries then IdsIn(v, Candidates(v, deps(m.entries[k].package))) else {}
  }

  /**
   * The keys still roots once the first `n` packages are looked at, as
   * written: a package still a root pops the ids of all its dependency
   * candidates, its own id included when it is one of them.
   */
  function RootsWritten(keys: seq<int>, cands: int -> set<int>, n: nat): (r: set<int>)
    requires n <= |keys|
    ensures forall k :: k in r ==> k in keys
  {
    if n == 0 then set k | k in keys
    else
      var r := RootsWritten(keys, cands, n - 1);
      if keys[n - 1] in r then r - cands(keys[n - 1]) else r
  }

  /**
   * The roots as the traversal needs them: as written, except that a
   * package does not pop itself.
   */
  function Roots(keys: seq<int>, cands: int -> set<int>, n: nat): (r: set<int>)
    requires n <= |keys|
    ensures forall k :: k in r ==> k in keys
  {
    if n == 0 then set k | k in keys
    else
      var r := Roots(keys, cands, n - 1);
      if keys[n - 1] in r then r - (cands(keys[n - 1]) - {keys[n - 1]}) else r
  }

  /**
   * As written, a package whose own id is among its dependency candidates
   * pops itself: with nothing else to install no root is left, and the
   * traversal that emits installs starts from nothing.
   */
  lemma SelfDependencyLeavesNoRoot()
    ensures RootsWritten([1], k => {1}, 1) == {}
  {
    assert 1 in RootsWritten([1], k => {1}, 0);
  }

  /** Roots only shrink. */
  lemma {:induction false} RootsShrink(keys: seq<int>, cands: int -> set<int>, a: nat, b: nat)
    requires a <= b <= |keys|
    ensures Roots(keys, cands, b) <= Roots(keys, cands, a)
    decreases b - a
  {
    if a < b {
      RootsShrink(keys, cands, a, b - 1);
    }
  }

  /** A key that stops being a root was popped by a package that was a root at its turn. */
  lemma {:induction false} PoppedBy(keys: seq<int>, cands: int -> set<int>, x: int, a: nat, b: nat) returns (j: nat)
    requires a <= b <= |keys| && x in Roots(keys, cands, a) && x !in Roots(keys, cands, b)
    ensures a <= j < b && keys[j] in Roots(keys, cands, j) && x in cands(keys[j]) && x != keys[j]
    ensures x in Roots(keys, cands, j)
    decreases b - a
  {
    if x in Roots(keys, cands, b - 1) {
      j := b - 1;
    } else {
      j := PoppedBy(keys, cands, x, a, b - 1);
    }
  }

  /** Every key is in a set that holds the roots and the candidates of its members. */
  lemma {:induction false} RootsReachAll(keys: seq<int>, cands: int -> set<int>, s: set<int>)
    requires forall r :: r in Roots(keys, cands, |keys|) ==> r in s
    requires forall x, c :: x in s && c in cands(x) ==> c in s
    ensures forall k :: k in keys ==> k in s
  {
    forall k | k in keys ensures k in s {
      var i :| 0 <= i < |keys| && keys[i] == k;
      if k in Roots(keys, cands, i) {
        RootAtTurnReached(keys, cands, s, i);
      } else {
        assert k in Roots(keys, cands, 0);
        var j := PoppedBy(keys, cands, k, 0, i);
        RootAtTurnReached(keys, cands, s, j);
      }
    }
  }

  /** A package that was a root at its turn is in the set: it is a root still, or was popped by a later one that is in it. */
  lemma {:induction false} RootAtTurnReached(keys: seq<int>, cands: int -> set<int>, s: set<int>, i: nat)
    requires forall r :: r in Roots(keys, cands, |keys|) ==> r in s
    requires forall x, c :: x in s && c in cands(x) ==> c in s
    requires i < |keys| && keys[i] in Roots(keys, cands, i)
    ensures keys[i] in s
    decreases |keys| - i
  {
    var k := keys[i];
    assert k in Roots(keys, cands, i + 1);
    if k !in Roots(keys, cands, |keys|) {
      var j := PoppedBy(keys, cands, k, i + 1, |keys|);
      RootAtTurnReached(keys, cands, s, j);
    }
  }

  /** With at least one package there is at least one root. */
  lemma RootsNonEmpty(keys: seq<int>, cands: int -> set<int>)
    requires keys != []
    ensures Roots(keys, cands, |keys|) != {}
  {
    if Roots(keys, cands, |keys|) == {} {
      assert forall r :: r in Roots(keys, cands, |keys|) ==> r in {};
      var none: set<int> := {};
      assert keys[0] in keys;
      RootsReachAll(keys, cands, none);
      assert forall k :: k in keys ==> k in none;
      assert false;
    }
  }

  /** A package that is no other package's candidate stays a root. */
  lemma {:induction false} NonCandidateIsRoot(keys: seq<int>, cands: int -> set<int>, k: int, n: nat)
    requires n <= |keys| && k in keys
    requires forall j :: 0 <= j < |keys| && keys[j] != k ==> k !in cands(keys[j])
    ensures k in Roots(keys, cands, n)
    decreases n
  {
    if n > 0 {
      NonCandidateIsRoot(keys, cands, k, n - 1);
    }
  }

  /** No root is a candidate of another root. */
  lemma RootsIndependent(keys: seq<int>, cands: int -> set<int>, r1: int, r2: int)
    requires r1 in Roots(keys, cands, |keys|) && r2 in Roots(keys, cands, |keys|) && r1 != r2
    ensures r2 !in cands(r1)
  {
    var i :| 0 <= i < |keys| && keys[i] == r1;
    RootsShrink(keys, cands, i, |keys|);
    RootsShrink(keys, cands, i + 1, |keys|);
  }

  /** The elements of `s` that are in `keep`, in order. */
  function Keep(s: seq<int>, keep: set<int>): (r: seq<int>)
    ensures forall x :: x in r <==> x in s && x in keep
    ensures NoDup(s) ==> NoDup(r)
    decreases |s|
  {
    if s == [] then []
    else
      var init := Keep(s[..|s| - 1], keep);
      assert forall x :: x in s <==> x in s[..|s| - 1] || x == s[|s| - 1];
      assert NoDup(s) ==> NoDup(s[..|s| - 1]) && s[|s| - 1] !in s[..|s| - 1];
      if s[|s| - 1] in keep then init + [s[|s| - 1]] else init
  }

  /** The operations of `m` whose keys are in `keep`, in `m`'s order. */
  function Restrict(m: OrderedMap, keep: set<int>): (r: OrderedMap)
    requires Wf(m)
    ensures Wf(r)
    ensures forall k :: k in r.entries <==> k in m.entries && k in keep
    ensures forall k :: k in r.entries ==> r.entries[k] == m.entries[k]
  {
    var order := Keep(m.order, keep);
    KeepIndexed(m.order, keep);
    OrderedMap(order, map k | k in m.entries && k in keep :: m.entries[k])
  }

  /** Each element of `Keep(s, keep)` is in `s` and in `keep`, position by position. */
  lemma KeepIndexed(s: seq<int>, keep: set<int>)
    ensures forall i :: 0 <= i < |Keep(s, keep)| ==> Keep(s, keep)[i] in s && Keep(s, keep)[i] in keep
  {
    var r := Keep(s, keep);
    forall i | 0 <= i < |r|
      ensures r[i] in s && r[i] in keep
    {
      assert r[i] in r;
    }
  }

  lemma {:induction false} DropKeep(s: seq<int>, keep: set<int>, x: int)
    ensures Drop(Keep(s, keep), x) == Keep(s, keep - {x})
    decreases |s|
  {
    if s != [] {
      DropKeep(s[..|s| - 1], keep, x);
    }
  }

  lemma {:induction false} KeepAll(s: seq<int>, keep: set<int>)
    requires forall x :: x in s ==> x in keep
    ensures Keep(s, keep) == s
    decreases |s|
  {
    if s != [] {
      var init, last := s[..|s| - 1], s[|s| - 1];
      assert s == init + [last];
      assert last in s;
      assert last in keep;
      KeepAll(init, keep);
      assert Keep(s, keep) == Keep(init, keep) + [last];
    }
  }

  /** Popping a key from a restriction restricts further. */
  lemma PopRestrict(m: OrderedMap, keep: set<int>, x: int)
    requires Wf(m)
    ensures Pop(Restrict(m, keep), x) == Restrict(m, keep - {x})
  {
    DropKeep(m.order, keep, x);
  }

  /** The restriction to every key is the map itself. */
  lemma RestrictAll(m: OrderedMap)
    requires Wf(m)
    ensures Restrict(m, set k | k in m.order) == m
  {
    var keep := set k | k in m.order;
    KeepAll(m.order, keep);
    var r := Restrict(m, keep);
    forall k | k in m.entries
      ensures k in r.entries && r.entries[k] == m.entries[k]
    {
      assert k in keep;
    }
    assert r.entries.Keys == m.entries.Keys;
    assert r.entries == m.entries;
  }

  /** The candidate ids of an operation's package, by key: what `_compute_root_packages` pops. */
  ghost function CandsOf(v: PoolView, m: OrderedMap, deps: Package -> seq<Requirement>): int -> set<int>
  {
    k => CandidateIds(v, m, deps, k)
  }

  lemma IdsInSnoc(v: PoolView, ps: seq<Package>, q: Package)
    ensures IdsIn(v, ps + [q]) == IdsIn(v, ps) + (if q in v.packageToId then {v.packageToId[q]} else {})
  {
    assert forall x :: x in ps + [q] <==> x in ps || x == q;
  }

  lemma IdsInConcat(v: PoolView, a: seq<Package>, b: seq<Package>)
    ensures IdsIn(v, a + b) == IdsIn(v, a) + IdsIn(v, b)
  {
    assert forall x :: x in a + b <==> x in a || x in b;
  }

  /** Every candidate is a package of the pool. */
  lemma {:induction false} CandidatesInPool(v: PoolView, reqs: seq<Requirement>)
    ensures forall q :: q in Candidates(v, reqs) ==> q in v.added
    decreases |reqs|
  {
    if reqs != [] {
      CandidatesInPool(v, reqs[..|reqs| - 1]);
    }
  }

  /** `what_provides` for each requirement in turn, the answers one after the other. */
  method CollectCandidates(pool: Pool, reqs: seq<Requirement>) returns (cs: seq<Package>)
    requires pool.Valid()
    ensures cs == Candidates(ViewOf(pool), reqs)
  {
    cs := [];
    var i := 0;
    while i < |reqs|
      invariant 0 <= i <= |reqs| && cs == Candidates(ViewOf(pool), reqs[..i])
    {
      var provided := pool.WhatProvides(reqs[i]);
      assert reqs[..i + 1][..i] == reqs[..i];
      cs := cs + provided;
      i := i + 1;
    }
    assert reqs[..i] == reqs;
  }

  /** `roots.pop(package_id(candidate), None)` for each candidate, the package itself included. */
  method PopCandidates(pool: Pool, packages: OrderedMap, roots: OrderedMap, cs: seq<Package>,
                       ghost keep: set<int>) returns (r: OrderedMap)
    requires pool.Valid() && Wf(packages) && roots == Restrict(packages, keep)
    requires forall q :: q in cs ==> q in pool.added
    ensures r == Restrict(packages, keep - IdsIn(ViewOf(pool), cs))
  {
    r := roots;
    var j := 0;
    assert IdsIn(ViewOf(pool), cs[..0]) == {};
    assert keep - IdsIn(ViewOf(pool), cs[..0]) == keep;
    while j < |cs|
      invariant 0 <= j <= |cs| && r == Restrict(packages, keep - IdsIn(ViewOf(pool), cs[..j]))
    {
      var id := pool.PackageId(cs[j]);
      PopRestrict(packages, keep - IdsIn(ViewOf(pool), cs[..j]), id.value);
      PoppedOneMore(ViewOf(pool), cs, j, keep, id.value);
      r := Pop(r, id.value);
      j := j + 1;
    }
    assert cs[..j] == cs;
  }

  /** Popping the id of `cs[j]` from what `cs[..j]` left keeps what `cs[..j + 1]` leaves. */
  lemma PoppedOneMore(v: PoolView, cs: seq<Package>, j: nat, keep: set<int>, id: int)
    requires j < |cs| && cs[j] in v.packageToId && v.packageToId[cs[j]] == id
    ensures (keep - IdsIn(v, cs[..j])) - {id} == keep - IdsIn(v, cs[..j + 1])
  {
    IdsInSnoc(v, cs[..j], cs[j]);
    assert cs[..j + 1] == cs[..j] + [cs[j]];
  }

  /** One package of `_compute_root_packages`: pops its candidates if it is still a root. */
  method RootStep(pool: Pool, packages: OrderedMap, deps: Package -> seq<Requirement>, roots: OrderedMap, i: nat)
      returns (r: OrderedMap)
    requires pool.Valid() && Wf(packages) && i < |packages.order|
    requires roots == Restrict(packages, RootsWritten(packages.order, CandsOf(ViewOf(pool), packages, deps), i))
    ensures r == Restrict(packages, RootsWritten(packages.order, CandsOf(ViewOf(pool), packages, deps), i + 1))
  {
    ghost var cands := CandsOf(ViewOf(pool), packages, deps);
    var k := packages.order[i];
    ghost var before := RootsWritten(packages.order, cands, i);
    assert RootsWritten(packages.order, cands, i + 1)
        == if k in before then before - cands(k) else before;
    r := roots;
    if k in roots.entries {
      assert k in packages.entries;
      var reqs := deps(packages.entries[k].package);
      var cs := CollectCandidates(pool, reqs);
      CandidatesInPool(ViewOf(pool), reqs);
      assert cands(k) == IdsIn(ViewOf(pool), cs);
      r := PopCandidates(pool, packages, roots, cs, before);
    }
  }

  /**
   * `_compute_root_packages` over the merged install and update tables:
   * looking at the packages in order, one still a root pops the ids of
   * all its dependency candidates, its own id included (`RootsWritten`;
   * `Roots` is the intended reading).
   */
  method ComputeRootPackages(pool: Pool, packages: OrderedMap, deps: Package -> seq<Requirement>) returns (roots: OrderedMap)
    requires pool.Valid() && Wf(packages)
    ensures roots == Restrict(packages, RootsWritten(packages.order, CandsOf(ViewOf(pool), packages, deps), |packages.order|))
  {
    RestrictAll(packages);
    roots := packages;
    var i := 0;
    while i < |packages.order|
      invariant 0 <= i <= |packages.order|
      invariant roots == Restrict(packages, RootsWritten(packages.order, CandsOf(ViewOf(pool), packages, deps), i))
    {
      roots := RootStep(pool, packages, deps, roots, i);
      i := i + 1;
    }
  }

  /** No package is among its own dependency candidates. */
  ghost predicate NoSelfCandidate(keys: seq<int>, cands: int -> set<int>)
  {
    forall i :: 0 <= i < |keys| ==> keys[i] !in cands(keys[i])
  }

  /**
   * The roots as written are the intended roots whenever no package is
   * among its own dependency candidates: the two differ only in the pop
   * of a package's own id.
   */
  lemma {:induction false} RootsWrittenAgree(keys: seq<int>, cands: int -> set<int>, n: nat)
    requires n <= |keys| && NoSelfCandidate(keys, cands)
    ensures RootsWritten(keys, cands, n) == Roots(keys, cands, n)
    decreases n
  {
    if n > 0 {
      RootsWrittenAgree(keys, cands, n - 1);
      var k := keys[n - 1];
      assert cands(k) - {k} == cands(k);
    }
  }

  /**
   * The roots as written are among the intended roots, and a key the
   * written code loses is one already looked at (it popped itself).
   */
  lemma {:induction false} RootsWrittenWithin(keys: seq<int>, cands: int -> set<int>, n: nat)
    requires n <= |keys| && NoDup(keys)
    ensures RootsWritten(keys, cands, n) <= Roots(keys, cands, n)
    ensures forall x :: x in Roots(keys, cands, n) && x !in RootsWritten(keys, cands, n) ==> x in keys[..n]
    decreases n
  {
    if n > 0 {
      RootsWrittenWithin(keys, cands, n - 1);
      var k := keys[n - 1];
      assert k !in keys[..n - 1] by {
        forall i | 0 <= i < n - 1 ensures keys[i] != k { }
      }
      assert k in RootsWritten(keys, cands, n - 1) || k !in Roots(keys, cands, n - 1);
      assert forall x :: x in keys[..n - 1] ==> x in keys[..n] by {
        assert keys[..n] == keys[..n - 1] + [k];
      }
      assert k in keys[..n] by {
        assert keys[..n][n - 1] == k;
      }
    }
  }

  // ---------------------------------------------------------------------
  // The traversal of `_compute_transaction_from_maps`
  // ---------------------------------------------------------------------

  /** What the pool's invariant says of its two id maps. */
  ghost predicate ViewOk(v: PoolView)
  {
    (forall p :: p in v.packageToId <==> p in v.added)
    && (forall p :: p in v.packageToId ==> v.packageToId[p] in v.idToPackage && v.idToPackage[v.packageToId[p]] == p)
  }

  lemma ViewOkOf(pool: Pool)
    requires pool.Valid()
    ensures ViewOk(ViewOf(pool))
  {
    pool.IdsInverse();
  }

  /** The ids the traversal pushes when it first meets the package with id `x`. */
  ghost function Arcs(v: PoolView, deps: Package -> seq<Requirement>, x: int): set<int>
  {
    if x in v.idToPackage then IdsIn(v, Candidates(v, deps(v.idToPackage[x]))) else {}
  }

  /** The state of the traversal: the stack, the ids met, the operations not yet emitted and those emitted. */
  datatype Walk = Walk(queue: seq<Package>, visited: set<int>, installs: OrderedMap, updates: OrderedMap, ops: seq<Operation>)

  /** Every entry of the update table is an update. */
  ghost predicate UpdatesOnly(m: OrderedMap)
  {
    forall k :: k in m.entries ==> m.entries[k].Update?
  }

  /** `op` is what the traversal emits for the entry under `k` of the install or the update table. */
  ghost predicate Logged(installs0: OrderedMap, updates0: OrderedMap, k: int, op: Operation)
  {
    (op.Install? && k in installs0.entries && op == Install(installs0.entries[k].package))
    || (op.Update? && k in updates0.entries && op == updates0.entries[k])
  }

  /** The keys of the emitted installs (`install`) or updates (`!install`). */
  ghost function Emitted(ops: seq<Operation>, keys: seq<int>, install: bool): set<int>
  {
    set i | 0 <= i < |ops| && i < |keys| && ops[i].Install? == install :: keys[i]
  }

  /**
   * The bookkeeping of the traversal: what is left of each table is a part
   * of it, each emitted operation comes from an entry no longer there, no
   * entry is emitted twice, and an entry gone from a table was emitted.
   * `keys` gives the key each operation was emitted for.
   */
  ghost predicate Bookkeeping(installs0: OrderedMap, updates0: OrderedMap, w: Walk, keys: seq<int>)
  {
    Wf(w.installs) && Wf(w.updates)
    && (forall k :: k in w.installs.entries ==> k in installs0.entries && w.installs.entries[k] == installs0.entries[k])
    && (forall k :: k in w.updates.entries ==> k in updates0.entries && w.updates.entries[k] == updates0.entries[k])
    && |keys| == |w.ops|
    && (forall i :: 0 <= i < |w.ops| ==> Logged(installs0, updates0, keys[i], w.ops[i]))
    && (forall i :: 0 <= i < |w.ops| && w.ops[i].Install? ==> keys[i] !in w.installs.entries)
    && (forall i :: 0 <= i < |w.ops| && w.ops[i].Update? ==> keys[i] !in w.updates.entries)
    && (forall i, j :: 0 <= i < j < |w.ops| && w.ops[i].Install? == w.ops[j].Install? ==> keys[i] != keys[j])
    && (forall k :: k in installs0.entries && k !in w.installs.entries ==> k in Emitted(w.ops, keys, true))
    && (forall k :: k in updates0.entries && k !in w.updates.entries ==> k in Emitted(w.ops, keys, false))
  }

  /**
   * What the traversal has explored: the arcs of an id met lead to ids met
   * or still on the stack, an id met with an entry left is still on the
   * stack, and so is the id of every package pushed at the start unless
   * met. Everything on the stack is a pool package or was pushed at the start.
   */
  ghost predicate Explored(v: PoolView, deps: Package -> seq<Requirement>, queue0: seq<Package>, w: Walk)
  {
    (forall x, c :: x in w.visited && c in Arcs(v, deps, x) ==> c in w.visited || c in IdsIn(v, w.queue))
    && (forall x :: x in w.visited && (x in w.installs.entries || x in w.updates.entries) ==> x in IdsIn(v, w.queue))
    && (forall p :: p in queue0 && p in v.packageToId ==> v.packageToId[p] in w.visited || v.packageToId[p] in IdsIn(v, w.queue))
    && (forall p :: p in w.queue ==> p in queue0 || p in v.added)
  }

  lemma EmittedSnoc(ops: seq<Operation>, keys: seq<int>, op: Operation, k: int, install: bool)
    requires |ops| == |keys|
    ensures Emitted(ops + [op], keys + [k], install)
         == Emitted(ops, keys, install) + (if op.Install? == install then {k} else {})
  {
    var ops', keys' := ops + [op], keys + [k];
    forall x | x in Emitted(ops, keys, install) ensures x in Emitted(ops', keys', install) {
      var i :| 0 <= i < |ops| && i < |keys| && ops[i].Install? == install && keys[i] == x;
      assert ops'[i] == ops[i] && keys'[i] == keys[i];
    }
    forall x | x in Emitted(ops', keys', install) ensures x in Emitted(ops, keys, install) || (op.Install? == install && x == k) {
      var i :| 0 <= i < |ops'| && i < |keys'| && ops'[i].Install? == install && keys'[i] == x;
      if i < |ops| {
        assert ops'[i] == ops[i] && keys'[i] == keys[i];
      }
    }
    if op.Install? == install {
      assert ops'[|ops|] == op && keys'[|ops|] == k;
    }
  }

  /** Emitting the install filed under `id` keeps the bookkeeping. */
  lemma EmitInstall(installs0: OrderedMap, updates0: OrderedMap, w: Walk, keys: seq<int>, id: int)
    requires Bookkeeping(installs0, updates0, w, keys) && id in w.installs.entries
    ensures Bookkeeping(installs0, updates0,
                        w.(installs := Pop(w.installs, id), ops := w.ops + [Install(w.installs.entries[id].package)]),
                        keys + [id])
  {
    var w' := w.(installs := Pop(w.installs, id), ops := w.ops + [Install(w.installs.entries[id].package)]);
    var keys' := keys + [id];
    EmittedSnoc(w.ops, keys, w'.ops[|w.ops|], id, true);
    EmittedSnoc(w.ops, keys, w'.ops[|w.ops|], id, false);
  }

  /** Emitting the update filed under `id` keeps the bookkeeping. */
  lemma EmitUpdate(installs0: OrderedMap, updates0: OrderedMap, w: Walk, keys: seq<int>, id: int)
    requires Bookkeeping(installs0, updates0, w, keys) && id in w.updates.entries
    requires UpdatesOnly(updates0)
    ensures Bookkeeping(installs0, updates0,
                        w.(updates := Pop(w.updates, id), ops := w.ops + [w.updates.entries[id]]),
                        keys + [id])
  {
    var w' := w.(updates := Pop(w.updates, id), ops := w.ops + [w.updates.entries[id]]);
    var keys' := keys + [id];
    EmittedSnoc(w.ops, keys, w'.ops[|w.ops|], id, true);
    EmittedSnoc(w.ops, keys, w'.ops[|w.ops|], id, false);
  }

  /** Popping a package already met, and emitting its entries, keeps what was explored. */
  lemma PopMet(v: PoolView, deps: Package -> seq<Requirement>, queue0: seq<Package>, w: Walk, w': Walk, p: Package)
    requires Explored(v, deps, queue0, w)
    requires w.queue != [] && p == w.queue[|w.queue| - 1] && p in v.packageToId && v.packageToId[p] in w.visited
    requires w'.queue == w.queue[..|w.queue| - 1] && w'.visited == w.visited
    requires forall k :: k in w'.installs.entries ==> k in w.installs.entries
    requires forall k :: k in w'.updates.entries ==> k in w.updates.entries
    requires v.packageToId[p] !in w'.installs.entries && v.packageToId[p] !in w'.updates.entries
    ensures Explored(v, deps, queue0, w')
  {
    var id := v.packageToId[p];
    assert w.queue == w'.queue + [p];
    IdsInSnoc(v, w'.queue, p);
    assert IdsIn(v, w.queue) == IdsIn(v, w'.queue) + {id};
    forall x, c | x in w'.visited && c in Arcs(v, deps, x)
      ensures c in w'.visited || c in IdsIn(v, w'.queue)
    {
      assert c in w.visited || c in IdsIn(v, w.queue);
    }
    forall x | x in w'.visited && (x in w'.installs.entries || x in w'.updates.entries)
      ensures x in IdsIn(v, w'.queue)
    {
      assert x in IdsIn(v, w.queue) && x != id;
    }
    forall q | q in queue0 && q in v.packageToId
      ensures v.packageToId[q] in w'.visited || v.packageToId[q] in IdsIn(v, w'.queue)
    {
      assert v.packageToId[q] in w.visited || v.packageToId[q] in IdsIn(v, w.queue);
    }
    forall q | q in w'.queue
      ensures q in queue0 || q in v.added
    {
      assert q in w.queue;
    }
  }

  /** Meeting a package for the first time and pushing its candidates keeps what was explored. */
  lemma PushNew(v: PoolView, deps: Package -> seq<Requirement>, queue0: seq<Package>, w: Walk, p: Package, cs: seq<Package>)
    requires ViewOk(v) && Explored(v, deps, queue0, w)
    requires w.queue != [] && p == w.queue[|w.queue| - 1] && p in v.packageToId
    requires cs == Candidates(v, deps(p))
    ensures Explored(v, deps, queue0, w.(queue := w.queue + cs, visited := w.visited + {v.packageToId[p]}))
  {
    var id := v.packageToId[p];
    var w' := w.(queue := w.queue + cs, visited := w.visited + {id});
    IdsInConcat(v, w.queue, cs);
    assert p in w.queue;
    assert id in IdsIn(v, w.queue);
    assert Arcs(v, deps, id) == IdsIn(v, cs);
    CandidatesInPool(v, deps(p));
    assert forall q :: q in w'.queue ==> q in w.queue || q in cs;
  }

  /**
   * One turn of the traversal: pop a package; one met before emits its
   * pending install and then its pending update, a new one goes back on
   * the stack with the candidates of its dependencies on top.
   */
  method WalkStep(pool: Pool, deps: Package -> seq<Requirement>, w: Walk, ghost keys: seq<int>,
                  ghost installs0: OrderedMap, ghost updates0: OrderedMap, ghost queue0: seq<Package>)
      returns (r: Result<Walk>, ghost keys': seq<int>)
    requires pool.Valid() && w.queue != [] && UpdatesOnly(updates0)
    requires Bookkeeping(installs0, updates0, w, keys) && Explored(ViewOf(pool), deps, queue0, w)
    ensures r.Ok? ==> Bookkeeping(installs0, updates0, r.value, keys') && Explored(ViewOf(pool), deps, queue0, r.value)
    ensures r.Ok? ==> |pool.idToPackage.Keys - r.value.visited| < |pool.idToPackage.Keys - w.visited|
                      || (r.value.visited == w.visited && |r.value.queue| < |w.queue|)
    ensures r.Ok? ==> Turn(ViewOf(pool), deps, w, keys, r.value, keys')
    ensures r.Err? ==> r.error == ValueError && w.queue[|w.queue| - 1] in queue0 && w.queue[|w.queue| - 1] !in pool.added
  {
    ghost var v := ViewOf(pool);
    ViewOkOf(pool);
    var p := w.queue[|w.queue| - 1];
    var pid := pool.PackageId(p);
    if pid.Err? {
      return Err(ValueError), keys;
    }
    var id := pid.value;
    assert id == v.packageToId[p];
    if id in w.visited {
      var w';
      w', keys' := EmitPending(v, deps, w, keys, installs0, updates0, queue0, p, id);
      r := Ok(w');
    } else {
      var w' := PushCandidates(pool, deps, w, keys, installs0, updates0, queue0, p, id);
      keys' := keys;
      r := Ok(w');
    }
  }

  /** A new package is met and the candidates of its dependencies go on the stack. */
  method PushCandidates(pool: Pool, deps: Package -> seq<Requirement>, w: Walk, ghost keys: seq<int>,
                        ghost installs0: OrderedMap, ghost updates0: OrderedMap, ghost queue0: seq<Package>,
                        p: Package, id: int)
      returns (w': Walk)
    requires pool.Valid() && Bookkeeping(installs0, updates0, w, keys) && Explored(ViewOf(pool), deps, queue0, w)
    requires w.queue != [] && p == w.queue[|w.queue| - 1] && p in pool.packageToId && pool.packageToId[p] == id
    requires id !in w.visited
    ensures Bookkeeping(installs0, updates0, w', keys) && Explored(ViewOf(pool), deps, queue0, w')
    ensures |pool.idToPackage.Keys - w'.visited| < |pool.idToPackage.Keys - w.visited|
    ensures w' == w.(queue := w.queue + Candidates(ViewOf(pool), deps(p)), visited := w.visited + {id})
  {
    ghost var v := ViewOf(pool);
    ViewOkOf(pool);
    var cs := CollectCandidates(pool, deps(p));
    PushNew(v, deps, queue0, w, p, cs);
    w' := w.(queue := w.queue + cs, visited := w.visited + {id});
    BookkeepingFrame(installs0, updates0, w, w', keys);
    MetOneMore(pool.idToPackage.Keys, w.visited, id);
  }

  /** Meeting an id not met before leaves fewer ids of the pool to meet. */
  lemma MetOneMore(ks: set<int>, visited: set<int>, id: int)
    requires id in ks && id !in visited
    ensures |ks - (visited + {id})| < |ks - visited|
  {
    assert ks - visited == (ks - (visited + {id})) + {id};
  }

  /** The bookkeeping does not look at the stack or at the ids met. */
  lemma BookkeepingFrame(installs0: OrderedMap, updates0: OrderedMap, w: Walk, w': Walk, keys: seq<int>)
    requires Bookkeeping(installs0, updates0, w, keys)
    requires w'.installs == w.installs && w'.updates == w.updates && w'.ops == w.ops
    ensures Bookkeeping(installs0, updates0, w', keys)
  {
  }

  /** A package met before leaves the stack and emits its pending install, then its pending update. */
  method EmitPending(ghost v: PoolView, deps: Package -> seq<Requirement>, w: Walk, ghost keys: seq<int>,
                     ghost installs0: OrderedMap, ghost updates0: OrderedMap, ghost queue0: seq<Package>,
                     p: Package, id: int)
      returns (w': Walk, ghost keys': seq<int>)
    requires UpdatesOnly(updates0) && Bookkeeping(installs0, updates0, w, keys) && Explored(v, deps, queue0, w)
    requires w.queue != [] && p == w.queue[|w.queue| - 1] && p in v.packageToId && v.packageToId[p] == id
    requires id in w.visited
    ensures Bookkeeping(installs0, updates0, w', keys') && Explored(v, deps, queue0, w')
    ensures w'.visited == w.visited && w'.queue == w.queue[..|w.queue| - 1]
    ensures (forall k :: k in w'.installs.entries ==> k in w.installs.entries)
            && (forall k :: k in w'.updates.entries ==> k in w.updates.entries)
            && id !in w'.installs.entries && id !in w'.updates.entries
    ensures |keys| <= |keys'| && keys'[..|keys|] == keys && forall i :: |keys| <= i < |keys'| ==> keys'[i] == id
    ensures id !in w.installs.entries && id !in w.updates.entries ==> keys' == keys
  {
    var popped := w.(queue := w.queue[..|w.queue| - 1]);
    var w1, keys1 := EmitPendingInstall(installs0, updates0, popped, keys, id);
    w', keys' := EmitPendingUpdate(installs0, updates0, w1, keys1, id);
    PopMet(v, deps, queue0, w, w', p);
    KeysAppended(keys, keys1, keys', id);
  }

  /** Keys appended twice, each time `id` or nothing. */
  lemma KeysAppended(keys: seq<int>, keys1: seq<int>, keys2: seq<int>, id: int)
    requires keys1 == keys || keys1 == keys + [id]
    requires keys2 == keys1 || keys2 == keys1 + [id]
    ensures |keys| <= |keys2| && keys2[..|keys|] == keys && forall i :: |keys| <= i < |keys2| ==> keys2[i] == id
  {
  }

  /** The pending install of `id`, if any, is emitted. */
  method EmitPendingInstall(ghost installs0: OrderedMap, ghost updates0: OrderedMap, w: Walk, ghost keys: seq<int>, id: int)
      returns (w': Walk, ghost keys': seq<int>)
    requires Bookkeeping(installs0, updates0, w, keys)
    ensures Bookkeeping(installs0, updates0, w', keys')
    ensures w'.queue == w.queue && w'.visited == w.visited && w'.updates == w.updates
    ensures (forall k :: k in w'.installs.entries ==> k in w.installs.entries) && id !in w'.installs.entries
    ensures keys' == keys + if id in w.installs.entries then [id] else []
  {
    w', keys' := w, keys;
    if id in w.installs.entries {
      EmitInstall(installs0, updates0, w, keys, id);
      w' := w.(installs := Pop(w.installs, id), ops := w.ops + [Install(w.installs.entries[id].package)]);
      keys' := keys + [id];
    }
  }

  /** The pending update of `id`, if any, is emitted. */
  method EmitPendingUpdate(ghost installs0: OrderedMap, ghost updates0: OrderedMap, w: Walk, ghost keys: seq<int>, id: int)
      returns (w': Walk, ghost keys': seq<int>)
    requires UpdatesOnly(updates0) && Bookkeeping(installs0, updates0, w, keys)
    ensures Bookkeeping(installs0, updates0, w', keys')
    ensures w'.queue == w.queue && w'.visited == w.visited && w'.installs == w.installs
    ensures (forall k :: k in w'.updates.entries ==> k in w.updates.entries) && id !in w'.updates.entries
    ensures keys' == keys + if id in w.updates.entries then [id] else []
  {
    w', keys' := w, keys;
    if id in w.updates.entries {
      EmitUpdate(installs0, updates0, w, keys, id);
      w' := w.(updates := Pop(w.updates, id), ops := w.ops + [w.updates.entries[id]]);
      keys' := keys + [id];
    }
  }

  // ---------------------------------------------------------------------
  // Dependency order of the traversal
  // ---------------------------------------------------------------------

  /**
   * One turn of the traversal, as `WalkStep` takes it: the package on top
   * of the stack is in the pool; met for the first time, it stays with the
   * candidates of its dependencies pushed above it; met before, it leaves
   * the stack and only its own pending entries are emitted, each under its
   * id, nothing at all when it has none left.
   */
  ghost predicate Turn(v: PoolView, deps: Package -> seq<Requirement>, w: Walk, keys: seq<int>, w': Walk, keys': seq<int>)
  {
    w.queue != [] && w.queue[|w.queue| - 1] in v.packageToId &&
    var p := w.queue[|w.queue| - 1];
    var id := v.packageToId[p];
    if id !in w.visited then
      w' == w.(queue := w.queue + Candidates(v, deps(p)), visited := w.visited + {id}) && keys' == keys
    else
      w'.queue == w.queue[..|w.queue| - 1] && w'.visited == w.visited
      && (forall k :: k in w'.installs.entries ==> k in w.installs.entries)
      && (forall k :: k in w'.updates.entries ==> k in w.updates.entries)
      && id !in w'.installs.entries && id !in w'.updates.entries
      && |keys| <= |keys'| && keys'[..|keys|] == keys && (forall i :: |keys| <= i < |keys'| ==> keys'[i] == id)
      && (id !in w.installs.entries && id !in w.updates.entries ==> keys' == keys)
  }

  /** `rank` falls along every candidate arc. */
  ghost predicate Ranked(v: PoolView, deps: Package -> seq<Requirement>, rank: int -> int)
  {
    forall x, y :: y in Arcs(v, deps, x) ==> rank(y) < rank(x)
  }

  /**
   * The candidate graph has no cycle: the ids of the pool can be ranked so
   * that every candidate ranks below the package that depends on it (for a
   * finite graph, the same as having no cycle).
   */
  ghost predicate Acyclic(v: PoolView, deps: Package -> seq<Requirement>)
  {
    exists rank: int -> int :: Ranked(v, deps, rank)
  }

  lemma RankFalls(v: PoolView, deps: Package -> seq<Requirement>, rank: int -> int, x: int, y: int)
    requires Ranked(v, deps, rank) && y in Arcs(v, deps, x)
    ensures rank(y) < rank(x)
  {
  }

  /**
   * The topological order the traversal is for: an operation whose id is a
   * candidate of another operation's id is emitted first.
   */
  ghost predicate DependencyOrdered(v: PoolView, deps: Package -> seq<Requirement>, keys: seq<int>)
  {
    forall i, j :: 0 <= i < |keys| && 0 <= j < |keys| && keys[i] in Arcs(v, deps, keys[j]) ==> i < j
  }

  /**
   * The open ids: `path[i]` was met and its operations are not yet due; it
   * stays on the stack at `marks[i]`, the positions increasing.
   */
  ghost predicate Marked(v: PoolView, queue: seq<Package>, path: seq<int>, marks: seq<int>)
  {
    |path| == |marks|
    && (forall i :: 0 <= i < |marks| ==> 0 <= marks[i] < |queue|)
    && (forall i, j :: 0 <= i < j < |marks| ==> marks[i] < marks[j])
    && (forall i :: 0 <= i < |marks| ==> queue[marks[i]] in v.packageToId && v.packageToId[queue[marks[i]]] == path[i])
  }

  /** Everything on the stack above an open id is a pool package of lower rank. */
  ghost predicate RankedAbove(v: PoolView, rank: int -> int, queue: seq<Package>, path: seq<int>, marks: seq<int>)
    requires |path| == |marks|
  {
    forall i, k :: 0 <= i < |marks| && 0 <= marks[i] < k < |queue| ==>
      queue[k] in v.packageToId && rank(v.packageToId[queue[k]]) < rank(path[i])
  }

  /** Each candidate of an open id is finished or still on the stack above it. */
  ghost predicate ArcsAbove(v: PoolView, deps: Package -> seq<Requirement>, queue: seq<Package>,
                            path: seq<int>, marks: seq<int>, finished: set<int>)
    requires |path| == |marks| && forall i :: 0 <= i < |marks| ==> 0 <= marks[i] < |queue|
  {
    forall i, y :: 0 <= i < |path| && y in Arcs(v, deps, path[i]) ==>
      y in finished || y in IdsIn(v, queue[marks[i] + 1..])
  }

  /**
   * The finished ids: closed under the arcs, with nothing left to emit;
   * every emitted operation's candidates are finished.
   */
  ghost predicate Finished(v: PoolView, deps: Package -> seq<Requirement>, w: Walk, keys: seq<int>, finished: set<int>)
  {
    (forall x, y :: x in finished && y in Arcs(v, deps, x) ==> y in finished)
    && (forall x :: x in finished ==> x !in w.installs.entries && x !in w.updates.entries)
    && (forall j :: 0 <= j < |keys| ==> Arcs(v, deps, keys[j]) <= finished)
  }

  /** The depth-first shape of the traversal, under a ranking of the candidate graph. */
  ghost predicate DepthFirst(v: PoolView, deps: Package -> seq<Requirement>, rank: int -> int, w: Walk, keys: seq<int>,
                             path: seq<int>, marks: seq<int>, finished: set<int>)
  {
    Marked(v, w.queue, path, marks)
    && RankedAbove(v, rank, w.queue, path, marks)
    && ArcsAbove(v, deps, w.queue, path, marks, finished)
    && (forall x :: x in w.visited <==> x in finished || x in path)
    && (forall x :: x in finished ==> x !in path)
    && Finished(v, deps, w, keys, finished)
    && DependencyOrdered(v, deps, keys)
  }

  /** A package met for the first time opens above the open ids. */
  lemma DepthFirstPush(v: PoolView, deps: Package -> seq<Requirement>, rank: int -> int, w: Walk, keys: seq<int>,
                       w': Walk, path: seq<int>, marks: seq<int>, finished: set<int>)
    requires ViewOk(v) && Ranked(v, deps, rank) && DepthFirst(v, deps, rank, w, keys, path, marks, finished)
    requires Turn(v, deps, w, keys, w', keys) && v.packageToId[w.queue[|w.queue| - 1]] !in w.visited
    ensures DepthFirst(v, deps, rank, w', keys, path + [v.packageToId[w.queue[|w.queue| - 1]]],
                       marks + [|w.queue| - 1], finished)
  {
    var top := |w.queue| - 1;
    var p := w.queue[top];
    var id := v.packageToId[p];
    var cs := Candidates(v, deps(p));
    assert v.idToPackage[id] == p;
    assert Arcs(v, deps, id) == IdsIn(v, cs);
    CandidatesInPool(v, deps(p));
    MarkedPush(v, w.queue, path, marks, cs);
    RankedPush(v, deps, rank, w.queue, path, marks, cs);
    ArcsPush(v, deps, w.queue, path, marks, finished, cs);
  }

  lemma MarkedPush(v: PoolView, queue: seq<Package>, path: seq<int>, marks: seq<int>, cs: seq<Package>)
    requires Marked(v, queue, path, marks) && queue != [] && queue[|queue| - 1] in v.packageToId
    requires v.packageToId[queue[|queue| - 1]] !in path
    ensures Marked(v, queue + cs, path + [v.packageToId[queue[|queue| - 1]]], marks + [|queue| - 1])
  {
    if |marks| > 0 {
      assert marks[|marks| - 1] != |queue| - 1;
    }
  }

  lemma RankedPush(v: PoolView, deps: Package -> seq<Requirement>, rank: int -> int, queue: seq<Package>,
                   path: seq<int>, marks: seq<int>, cs: seq<Package>)
    requires Ranked(v, deps, rank) && Marked(v, queue, path, marks) && RankedAbove(v, rank, queue, path, marks)
    requires queue != [] && queue[|queue| - 1] in v.packageToId
    requires forall c :: c in cs ==> c in v.packageToId
    requires IdsIn(v, cs) == Arcs(v, deps, v.packageToId[queue[|queue| - 1]])
    requires v.packageToId[queue[|queue| - 1]] !in path
    ensures var top := |queue| - 1;
            RankedAbove(v, rank, queue + cs, path + [v.packageToId[queue[top]]], marks + [top])
  {
    var top := |queue| - 1;
    var id := v.packageToId[queue[top]];
    var queue', path', marks' := queue + cs, path + [id], marks + [top];
    forall i, k | 0 <= i < |marks'| && marks'[i] < k < |queue'|
      ensures queue'[k] in v.packageToId && rank(v.packageToId[queue'[k]]) < rank(path'[i])
    {
      if k > top {
        var c := queue'[k];
        assert c == cs[k - |queue|] && c in cs;
        assert v.packageToId[c] in IdsIn(v, cs);
        RankFalls(v, deps, rank, id, v.packageToId[c]);
        if i < |marks| {
          assert marks[i] != top;
          assert queue[top] == queue'[top] && rank(id) < rank(path[i]) && path'[i] == path[i];
        } else {
          assert path'[i] == id;
        }
      } else {
        assert queue'[k] == queue[k] && path'[i] == path[i];
      }
    }
  }

  lemma ArcsPush(v: PoolView, deps: Package -> seq<Requirement>, queue: seq<Package>, path: seq<int>, marks: seq<int>,
                 finished: set<int>, cs: seq<Package>)
    requires Marked(v, queue, path, marks) && ArcsAbove(v, deps, queue, path, marks, finished)
    requires queue != [] && queue[|queue| - 1] in v.packageToId
    requires IdsIn(v, cs) == Arcs(v, deps, v.packageToId[queue[|queue| - 1]])
    requires v.packageToId[queue[|queue| - 1]] !in path
    ensures var top := |queue| - 1;
            Marked(v, queue + cs, path + [v.packageToId[queue[top]]], marks + [top]) &&
            ArcsAbove(v, deps, queue + cs, path + [v.packageToId[queue[top]]], marks + [top], finished)
  {
    var top := |queue| - 1;
    var queue', path', marks' := queue + cs, path + [v.packageToId[queue[top]]], marks + [top];
    MarkedPush(v, queue, path, marks, cs);
    forall i, y | 0 <= i < |path'| && y in Arcs(v, deps, path'[i])
      ensures y in finished || y in IdsIn(v, queue'[marks'[i] + 1..])
    {
      if i < |path| {
        assert queue'[marks[i] + 1..] == queue[marks[i] + 1..] + cs;
        IdsInConcat(v, queue[marks[i] + 1..], cs);
      } else {
        assert queue'[top + 1..] == cs;
      }
    }
  }

  /**
   * A package met before leaves the stack: it was finished and emits
   * nothing, or it is the last open id, every candidate of it finished, and
   * what it emits comes after all of them.
   */
  lemma DepthFirstPop(v: PoolView, deps: Package -> seq<Requirement>, rank: int -> int, w: Walk, keys: seq<int>,
                      w': Walk, keys': seq<int>, path: seq<int>, marks: seq<int>, finished: set<int>)
      returns (path': seq<int>, marks': seq<int>, finished': set<int>)
    requires Ranked(v, deps, rank) && DepthFirst(v, deps, rank, w, keys, path, marks, finished)
    requires Turn(v, deps, w, keys, w', keys') && v.packageToId[w.queue[|w.queue| - 1]] in w.visited
    ensures DepthFirst(v, deps, rank, w', keys', path', marks', finished')
  {
    var t := v.packageToId[w.queue[|w.queue| - 1]];
    if t in finished {
      path', marks', finished' := path, marks, finished;
      PopFinished(v, deps, rank, w, keys, w', keys', path, marks, finished);
    } else {
      var n := |path| - 1;
      OpenOnTop(v, rank, w.queue, path, marks);
      path', marks', finished' := path[..n], marks[..n], finished + {t};
      PopOpen(v, deps, rank, w, keys, w', keys', path, marks, finished);
    }
  }

  /** Popping a finished id: nothing is emitted and nothing else changes shape. */
  lemma PopFinished(v: PoolView, deps: Package -> seq<Requirement>, rank: int -> int, w: Walk, keys: seq<int>,
                    w': Walk, keys': seq<int>, path: seq<int>, marks: seq<int>, finished: set<int>)
    requires DepthFirst(v, deps, rank, w, keys, path, marks, finished)
    requires Turn(v, deps, w, keys, w', keys') && v.packageToId[w.queue[|w.queue| - 1]] in finished
    ensures DepthFirst(v, deps, rank, w', keys', path, marks, finished)
  {
    var top := |w.queue| - 1;
    if |marks| > 0 {
      assert marks[|marks| - 1] != top;
    }
    assert keys' == keys;
    ArcsPop(v, deps, w.queue, path, marks, finished, finished, |path|);
    RankedPop(v, rank, w.queue, path, marks, |path|);
    assert path[..|path|] == path && marks[..|marks|] == marks;
    assert Finished(v, deps, w', keys', finished);
  }

  lemma RankedPop(v: PoolView, rank: int -> int, queue: seq<Package>, path: seq<int>, marks: seq<int>, n: int)
    requires Marked(v, queue, path, marks) && RankedAbove(v, rank, queue, path, marks)
    requires queue != [] && 0 <= n <= |path|
    ensures RankedAbove(v, rank, queue[..|queue| - 1], path[..n], marks[..n])
  {
  }

  /** Popping the last open id: it is finished, after all its candidates. */
  lemma PopOpen(v: PoolView, deps: Package -> seq<Requirement>, rank: int -> int, w: Walk, keys: seq<int>,
                w': Walk, keys': seq<int>, path: seq<int>, marks: seq<int>, finished: set<int>)
    requires Ranked(v, deps, rank) && DepthFirst(v, deps, rank, w, keys, path, marks, finished)
    requires Turn(v, deps, w, keys, w', keys') && v.packageToId[w.queue[|w.queue| - 1]] in w.visited
    requires v.packageToId[w.queue[|w.queue| - 1]] !in finished
    requires |path| > 0 && marks[|path| - 1] == |w.queue| - 1
    ensures var n := |path| - 1;
            DepthFirst(v, deps, rank, w', keys', path[..n], marks[..n], finished + {path[n]})
  {
    var n := |path| - 1;
    var t := path[n];
    assert t == v.packageToId[w.queue[|w.queue| - 1]];
    ArcsPop(v, deps, w.queue, path, marks, finished, finished + {t}, n);
    RankedPop(v, rank, w.queue, path, marks, n);
    ArcsOfTop(v, deps, w.queue, path, marks, finished);
    FinishOne(v, deps, rank, w, keys, w', keys', finished, t);
    PathPop(v, rank, w.queue, path, marks, w.visited, finished);
  }

  /** Closing the last open id moves it from the path to the finished ids. */
  lemma PathPop(v: PoolView, rank: int -> int, queue: seq<Package>, path: seq<int>, marks: seq<int>,
                visited: set<int>, finished: set<int>)
    requires Marked(v, queue, path, marks) && RankedAbove(v, rank, queue, path, marks) && |path| > 0
    requires forall x :: x in visited <==> x in finished || x in path
    requires forall x :: x in finished ==> x !in path
    ensures var n := |path| - 1;
            && (forall x :: x in visited <==> x in finished + {path[n]} || x in path[..n])
            && (forall x :: x in finished + {path[n]} ==> x !in path[..n])
  {
    var n := |path| - 1;
    forall i | 0 <= i < n ensures path[i] != path[n] {
      assert marks[i] < marks[n];
      assert rank(path[n]) < rank(path[i]);
    }
  }

  /** The only open id a met package on top of the stack can be is the last one, at its mark. */
  lemma OpenOnTop(v: PoolView, rank: int -> int, queue: seq<Package>, path: seq<int>, marks: seq<int>)
    requires Marked(v, queue, path, marks) && RankedAbove(v, rank, queue, path, marks)
    requires queue != [] && queue[|queue| - 1] in v.packageToId && v.packageToId[queue[|queue| - 1]] in path
    ensures |path| > 0 && marks[|path| - 1] == |queue| - 1
  {
    var top := |queue| - 1;
    var j :| 0 <= j < |path| && path[j] == v.packageToId[queue[top]];
    assert marks[j] == top;
  }

  lemma MarkedPop(v: PoolView, queue: seq<Package>, path: seq<int>, marks: seq<int>, n: int)
    requires Marked(v, queue, path, marks) && queue != [] && 0 <= n <= |path|
    requires forall i :: 0 <= i < n ==> marks[i] < |queue| - 1
    ensures Marked(v, queue[..|queue| - 1], path[..n], marks[..n])
  {
  }

  lemma ArcsPop(v: PoolView, deps: Package -> seq<Requirement>, queue: seq<Package>, path: seq<int>, marks: seq<int>,
                finished: set<int>, finished': set<int>, n: int)
    requires Marked(v, queue, path, marks) && ArcsAbove(v, deps, queue, path, marks, finished)
    requires queue != [] && 0 <= n <= |path| && finished <= finished'
    requires forall i :: 0 <= i < n ==> marks[i] < |queue| - 1
    requires queue[|queue| - 1] in v.packageToId && v.packageToId[queue[|queue| - 1]] in finished'
    ensures Marked(v, queue[..|queue| - 1], path[..n], marks[..n])
    ensures ArcsAbove(v, deps, queue[..|queue| - 1], path[..n], marks[..n], finished')
  {
    var top := |queue| - 1;
    var queue' := queue[..top];
    MarkedPop(v, queue, path, marks, n);
    forall i, y | 0 <= i < n && y in Arcs(v, deps, path[i])
      ensures y in finished' || y in IdsIn(v, queue'[marks[i] + 1..])
    {
      assert queue[marks[i] + 1..] == queue'[marks[i] + 1..] + [queue[top]];
      IdsInSnoc(v, queue'[marks[i] + 1..], queue[top]);
    }
  }

  /** The last open id, on top of the stack, has nothing above it: its candidates are finished. */
  lemma ArcsOfTop(v: PoolView, deps: Package -> seq<Requirement>, queue: seq<Package>, path: seq<int>, marks: seq<int>,
                  finished: set<int>)
    requires Marked(v, queue, path, marks) && ArcsAbove(v, deps, queue, path, marks, finished)
    requires |path| > 0 && marks[|path| - 1] == |queue| - 1
    ensures Arcs(v, deps, path[|path| - 1]) <= finished
  {
    var n := |path| - 1;
    var above := queue[marks[n] + 1..];
    assert above == [] && IdsIn(v, above) == {};
    assert forall y :: y in Arcs(v, deps, path[n]) ==> y in finished || y in IdsIn(v, above);
  }

  /** The last open id becomes finished: all it emits comes after its candidates. */
  lemma FinishOne(v: PoolView, deps: Package -> seq<Requirement>, rank: int -> int, w: Walk, keys: seq<int>,
                  w': Walk, keys': seq<int>, finished: set<int>, t: int)
    requires Ranked(v, deps, rank) && Finished(v, deps, w, keys, finished) && DependencyOrdered(v, deps, keys)
    requires Turn(v, deps, w, keys, w', keys') && t == v.packageToId[w.queue[|w.queue| - 1]] && t in w.visited
    requires t !in finished && Arcs(v, deps, t) <= finished
    ensures Finished(v, deps, w', keys', finished + {t}) && DependencyOrdered(v, deps, keys')
  {
    var finished' := finished + {t};
    assert t !in Arcs(v, deps, t);
    forall j | 0 <= j < |keys'| ensures Arcs(v, deps, keys'[j]) <= finished' {
      if j < |keys| {
        assert keys'[j] == keys[j];
      }
    }
    forall i, j | 0 <= i < |keys'| && 0 <= j < |keys'| && keys'[i] in Arcs(v, deps, keys'[j])
      ensures i < j
    {
      if j < |keys| && i < |keys| {
        assert keys'[i] == keys[i] && keys'[j] == keys[j];
      }
    }
  }

  /** The packages of some operations, in order: `[operation.package for operation in ...]`. */
  function PackagesOf(ops: seq<Operation>): (r: seq<Package>)
    ensures |r| == |ops| && forall i :: 0 <= i < |ops| ==> r[i] == ops[i].package
  {
    seq(|ops|, i requires 0 <= i < |ops| => ops[i].package)
  }

  /** The depth-first invariant, when there is a ranking to keep it by. */
  ghost predicate DepthFirstIf(acyclic: bool, v: PoolView, deps: Package -> seq<Requirement>, rank: int -> int,
                               w: Walk, keys: seq<int>, path: seq<int>, marks: seq<int>, finished: set<int>)
  {
    acyclic ==> Ranked(v, deps, rank) && DepthFirst(v, deps, rank, w, keys, path, marks, finished)
  }

  /** A ranking of the candidate graph, when there is one. */
  lemma RankingOf(v: PoolView, deps: Package -> seq<Requirement>) returns (rank: int -> int)
    ensures Acyclic(v, deps) ==> Ranked(v, deps, rank)
  {
    rank := x => 0;
    if Acyclic(v, deps) {
      rank :| Ranked(v, deps, rank);
    }
  }

  /** Before the first turn nothing is open, finished or emitted. */
  lemma DepthFirstStart(acyclic: bool, v: PoolView, deps: Package -> seq<Requirement>, rank: int -> int, w: Walk)
    requires acyclic ==> Ranked(v, deps, rank)
    requires w.visited == {}
    ensures DepthFirstIf(acyclic, v, deps, rank, w, [], [], [], {})
  {
  }

  /** The invariant's last part: the emitted operations are in dependency order. */
  lemma DepthFirstEnd(acyclic: bool, v: PoolView, deps: Package -> seq<Requirement>, rank: int -> int,
                      w: Walk, keys: seq<int>, path: seq<int>, marks: seq<int>, finished: set<int>)
    requires DepthFirstIf(acyclic, v, deps, rank, w, keys, path, marks, finished)
    ensures acyclic ==> DependencyOrdered(v, deps, keys)
  {
  }

  /** One turn of the traversal keeps the depth-first invariant. */
  lemma DepthFirstTurn(acyclic: bool, v: PoolView, deps: Package -> seq<Requirement>, rank: int -> int,
                       w: Walk, keys: seq<int>, w': Walk, keys': seq<int>,
                       path: seq<int>, marks: seq<int>, finished: set<int>)
      returns (path': seq<int>, marks': seq<int>, finished': set<int>)
    requires ViewOk(v) && DepthFirstIf(acyclic, v, deps, rank, w, keys, path, marks, finished)
    requires Turn(v, deps, w, keys, w', keys')
    ensures DepthFirstIf(acyclic, v, deps, rank, w', keys', path', marks', finished')
  {
    var top := w.queue[|w.queue| - 1];
    if !acyclic {
      path', marks', finished' := path, marks, finished;
    } else if v.packageToId[top] in w.visited {
      path', marks', finished' := DepthFirstPop(v, deps, rank, w, keys, w', keys', path, marks, finished);
    } else {
      DepthFirstPush(v, deps, rank, w, keys, w', path, marks, finished);
      path', marks', finished' := path + [v.packageToId[top]], marks + [|w.queue| - 1], finished;
    }
  }

  /**
   * The traversal loop of `_compute_transaction_from_maps`, from the root
   * operations: the installs and updates it emits, or ValueError when a
   * root package is not in the pool. Once the stack is empty each emitted
   * operation comes from a table entry, none twice, and the ids met are
   * closed under the candidate arcs and hold every root.
   */
  method Traverse(pool: Pool, deps: Package -> seq<Requirement>, roots: OrderedMap,
                  installs0: OrderedMap, updates0: OrderedMap)
      returns (r: Result<seq<Operation>>, ghost w: Walk, ghost keys: seq<int>)
    requires pool.Valid() && Wf(roots) && Wf(installs0) && Wf(updates0) && UpdatesOnly(updates0)
    ensures r.Ok? ==> r.value == w.ops && w.queue == []
    ensures r.Ok? ==> Bookkeeping(installs0, updates0, w, keys)
    ensures r.Ok? ==> Explored(ViewOf(pool), deps, PackagesOf(Values(roots)), w)
    ensures r.Err? ==> r.error == ValueError && exists p :: p in PackagesOf(Values(roots)) && p !in pool.added
    ensures r.Ok? && Acyclic(ViewOf(pool), deps) ==> DependencyOrdered(ViewOf(pool), deps, keys)
  {
    ghost var queue0 := PackagesOf(Values(roots));
    ghost var v := ViewOf(pool);
    ViewOkOf(pool);
    ghost var acyclic := Acyclic(v, deps);
    ghost var rank := RankingOf(v, deps);
    ghost var path: seq<int>, marks: seq<int>, finished: set<int> := [], [], {};
    var cur := Walk(PackagesOf(Values(roots)), {}, installs0, updates0, []);
    keys := [];
    DepthFirstStart(acyclic, v, deps, rank, cur);
    assert Explored(ViewOf(pool), deps, queue0, cur) by {
      forall p | p in queue0 && p in pool.packageToId
        ensures pool.packageToId[p] in IdsIn(ViewOf(pool), queue0) { }
    }
    while cur.queue != []
      invariant Bookkeeping(installs0, updates0, cur, keys) && Explored(ViewOf(pool), deps, queue0, cur)
      invariant DepthFirstIf(acyclic, v, deps, rank, cur, keys, path, marks, finished)
      decreases |pool.idToPackage.Keys - cur.visited|, |cur.queue|
    {
      ghost var before, keysBefore := cur, keys;
      var step;
      step, keys := WalkStep(pool, deps, cur, keys, installs0, updates0, queue0);
      if step.Err? {
        return Err(ValueError), cur, keys;
      }
      cur := step.value;
      path, marks, finished := DepthFirstTurn(acyclic, v, deps, rank, before, keysBefore, cur, keys, path, marks, finished);
    }
    DepthFirstEnd(acyclic, v, deps, rank, cur, keys, path, marks, finished);
    r, w := Ok(cur.ops), cur;
  }

  /** `OrderedDict(a)` updated with `b`: `a`'s keys in order, then `b`'s new keys in order. */
  function Merge(a: OrderedMap, b: OrderedMap): (r: OrderedMap)
    requires Wf(a) && Wf(b)
    ensures Wf(r)
    ensures forall k :: k in r.entries <==> k in a.entries || k in b.entries
    ensures forall k :: k in r.entries ==> r.entries[k] == if k in b.entries then b.entries[k] else a.entries[k]
  {
    assert b.order[..|b.order|] == b.order;
    MergeUpTo(a, b, |b.order|)
  }

  function MergeUpTo(a: OrderedMap, b: OrderedMap, n: nat): (r: OrderedMap)
    requires Wf(a) && Wf(b) && n <= |b.order|
    ensures Wf(r)
    ensures forall k :: k in r.entries <==> k in a.entries || k in b.order[..n]
    ensures forall k :: k in r.entries ==> r.entries[k] == if k in b.order[..n] then b.entries[k] else a.entries[k]
  {
    if n == 0 then a
    else
      var k := b.order[n - 1];
      assert forall x :: x in b.order[..n] <==> x in b.order[..n - 1] || x == k by {
        assert b.order[..n] == b.order[..n - 1] + [k];
      }
      Put(MergeUpTo(a, b, n - 1), k, b.entries[k])
  }

  /** The requirement lists name the same requirements, whatever their order. */
  ghost predicate SameRequirements(deps: Package -> seq<Requirement>, walkDeps: Package -> seq<Requirement>)
  {
    forall p, req :: req in deps(p) <==> req in walkDeps(p)
  }

  /** Each entry is filed under its package's id. */
  ghost predicate EntriesById(v: PoolView, m: OrderedMap)
  {
    forall k :: k in m.entries ==> k in v.idToPackage && m.entries[k].package == v.idToPackage[k]
  }

  /** Each id is the last id of its package: the pool holds no package twice. */
  ghost predicate IdsExact(v: PoolView)
  {
    forall i :: i in v.idToPackage ==> v.idToPackage[i] in v.packageToId && v.packageToId[v.idToPackage[i]] == i
  }

  /**
   * Sorting the dependencies leaves the candidate graph as it is: a ranking
   * of one ranks the other, and an order by one is an order by the other.
   */
  lemma ArcsSame(v: PoolView, deps: Package -> seq<Requirement>, walkDeps: Package -> seq<Requirement>)
    requires SameRequirements(deps, walkDeps)
    ensures forall x :: Arcs(v, deps, x) == Arcs(v, walkDeps, x)
    ensures Acyclic(v, deps) ==> Acyclic(v, walkDeps)
    ensures forall keys :: DependencyOrdered(v, walkDeps, keys) ==> DependencyOrdered(v, deps, keys)
  {
    forall x ensures Arcs(v, deps, x) == Arcs(v, walkDeps, x) {
      if x in v.idToPackage {
        SameCandidateIds(v, deps(v.idToPackage[x]), walkDeps(v.idToPackage[x]));
      }
    }
    if Acyclic(v, deps) {
      var rank :| Ranked(v, deps, rank);
      assert Ranked(v, walkDeps, rank);
    }
  }

  /** The candidates of two lists of the same requirements are the same packages. */
  lemma {:induction false} CandidatesMembers(v: PoolView, reqs: seq<Requirement>)
    ensures forall q :: q in Candidates(v, reqs) <==> exists req :: req in reqs && q in Provided(v, req)
    decreases |reqs|
  {
    if reqs != [] {
      var init := reqs[..|reqs| - 1];
      CandidatesMembers(v, init);
      assert forall req :: req in reqs <==> req in init || req == reqs[|reqs| - 1] by {
        assert reqs == init + [reqs[|reqs| - 1]];
      }
    }
  }

  lemma SameCandidateIds(v: PoolView, a: seq<Requirement>, b: seq<Requirement>)
    requires forall req :: req in a <==> req in b
    ensures IdsIn(v, Candidates(v, a)) == IdsIn(v, Candidates(v, b))
  {
    CandidatesMembers(v, a);
    CandidatesMembers(v, b);
    assert forall q :: q in Candidates(v, a) <==> q in Candidates(v, b);
  }

  /**
   * The corrected traversal emits every operation: when the pool holds no
   * package twice and every entry is filed under its package's id, a
   * finished traversal from the roots of the merged tables leaves no
   * install and no update behind, so each was emitted exactly once.
   */
  lemma TraversalComplete(v: PoolView, deps: Package -> seq<Requirement>, walkDeps: Package -> seq<Requirement>,
                          installs0: OrderedMap, updates0: OrderedMap, w: Walk, keys: seq<int>)
    requires ViewOk(v) && IdsExact(v) && SameRequirements(deps, walkDeps)
    requires Wf(installs0) && Wf(updates0) && EntriesById(v, installs0) && EntriesById(v, updates0)
    requires w.queue == [] && Bookkeeping(installs0, updates0, w, keys)
    requires var packages := Merge(installs0, updates0);
             Explored(v, walkDeps, PackagesOf(Values(Restrict(packages,
               Roots(packages.order, CandsOf(v, packages, deps), |packages.order|)))), w)
    ensures w.installs.entries == map[] && w.updates.entries == map[]
    ensures forall k :: k in installs0.entries ==> k in Emitted(w.ops, keys, true)
    ensures forall k :: k in updates0.entries ==> k in Emitted(w.ops, keys, false)
  {
    var packages := Merge(installs0, updates0);
    AllVisited(v, deps, walkDeps, installs0, updates0, w);
    assert forall k :: k in installs0.entries || k in updates0.entries ==> k in packages.order;
    NothingLeft(installs0, updates0, w, keys);
  }

  /** A finished traversal from the roots of the merged tables has visited every key of them. */
  lemma AllVisited(v: PoolView, deps: Package -> seq<Requirement>, walkDeps: Package -> seq<Requirement>,
                   installs0: OrderedMap, updates0: OrderedMap, w: Walk)
    requires ViewOk(v) && IdsExact(v) && SameRequirements(deps, walkDeps)
    requires Wf(installs0) && Wf(updates0) && EntriesById(v, installs0) && EntriesById(v, updates0)
    requires w.queue == []
    requires var packages := Merge(installs0, updates0);
             Explored(v, walkDeps, PackagesOf(Values(Restrict(packages,
               Roots(packages.order, CandsOf(v, packages, deps), |packages.order|)))), w)
    ensures forall k :: k in Merge(installs0, updates0).order ==> k in w.visited
  {
    var packages := Merge(installs0, updates0);
    var cands := CandsOf(v, packages, deps);
    MergeById(v, installs0, updates0);
    RootsVisited(v, deps, walkDeps, packages, w);
    assert IdsIn(v, w.queue) == {};
    ArcsClosed(v, deps, walkDeps, packages, w);
    RootsReachAll(packages.order, cands, w.visited);
  }

  lemma MergeById(v: PoolView, a: OrderedMap, b: OrderedMap)
    requires Wf(a) && Wf(b) && EntriesById(v, a) && EntriesById(v, b)
    ensures EntriesById(v, Merge(a, b))
  {
  }

  /** With every key of the tables met and none of them left, everything was emitted. */
  lemma NothingLeft(installs0: OrderedMap, updates0: OrderedMap, w: Walk, keys: seq<int>)
    requires forall k :: k in w.installs.entries ==> k in installs0.entries
    requires forall k :: k in w.updates.entries ==> k in updates0.entries
    requires forall k :: k in installs0.entries && k !in w.installs.entries ==> k in Emitted(w.ops, keys, true)
    requires forall k :: k in updates0.entries && k !in w.updates.entries ==> k in Emitted(w.ops, keys, false)
    requires forall x :: x in w.visited ==> x !in w.installs.entries && x !in w.updates.entries
    requires forall k :: k in installs0.entries || k in updates0.entries ==> k in w.visited
    ensures w.installs.entries == map[] && w.updates.entries == map[]
    ensures forall k :: k in installs0.entries ==> k in Emitted(w.ops, keys, true)
    ensures forall k :: k in updates0.entries ==> k in Emitted(w.ops, keys, false)
  {
    assert forall k :: k in w.installs.entries ==> k in w.visited;
    assert forall k :: k in w.updates.entries ==> k in w.visited;
    assert forall k :: k !in w.installs.entries && k !in w.updates.entries;
  }

  lemma RootsVisited(v: PoolView, deps: Package -> seq<Requirement>, walkDeps: Package -> seq<Requirement>,
                     packages: OrderedMap, w: Walk)
    requires ViewOk(v) && IdsExact(v) && Wf(packages) && EntriesById(v, packages) && w.queue == []
    requires Explored(v, walkDeps, PackagesOf(Values(Restrict(packages,
               Roots(packages.order, CandsOf(v, packages, deps), |packages.order|)))), w)
    ensures forall r :: r in Roots(packages.order, CandsOf(v, packages, deps), |packages.order|) ==> r in w.visited
  {
    var roots := Restrict(packages, Roots(packages.order, CandsOf(v, packages, deps), |packages.order|));
    var queue0 := PackagesOf(Values(roots));
    assert IdsIn(v, w.queue) == {};
    forall r | r in Roots(packages.order, CandsOf(v, packages, deps), |packages.order|) ensures r in w.visited {
      assert r in roots.entries;
      var i :| 0 <= i < |roots.order| && roots.order[i] == r;
      assert queue0[i] == roots.entries[r].package == v.idToPackage[r];
      assert queue0[i] in queue0;
    }
  }

  lemma ArcsClosed(v: PoolView, deps: Package -> seq<Requirement>, walkDeps: Package -> seq<Requirement>,
                   packages: OrderedMap, w: Walk)
    requires SameRequirements(deps, walkDeps) && EntriesById(v, packages) && w.queue == []
    requires forall x, c :: x in w.visited && c in Arcs(v, walkDeps, x) ==> c in w.visited || c in IdsIn(v, w.queue)
    ensures forall x, c :: x in w.visited && c in CandsOf(v, packages, deps)(x) ==> c in w.visited
  {
    assert IdsIn(v, w.queue) == {};
    forall x, c | x in w.visited && c in CandsOf(v, packages, deps)(x) ensures c in w.visited {
      assert x in packages.entries;
      SameCandidateIds(v, deps(packages.entries[x].package), walkDeps(packages.entries[x].package));
      assert c in Arcs(v, walkDeps, x);
    }
  }

  // ---------------------------------------------------------------------
  // The loops of `_compute_means_update_map` and `_compute_transaction`
  // ---------------------------------------------------------------------

  /** An error met on a prefix of the updates is the error of the whole. */
  lemma {:induction false} PointAtPrefixErr(v: PoolView, m: map<int, Package>, ups: seq<Package>, p: Package, i: nat)
    requires i <= |ups| && PointAt(v, m, ups[..i], p).Err?
    ensures PointAt(v, m, ups, p) == PointAt(v, m, ups[..i], p)
    decreases |ups| - i
  {
    if i < |ups| {
      var init := ups[..|ups| - 1];
      assert init[..i] == ups[..i];
      PointAtPrefixErr(v, m, init, p, i);
    } else {
      assert ups[..i] == ups;
    }
  }

  lemma {:induction false} MeansPrefixErr(v: PoolView, installed: set<int>, ds: seq<int>,
                                          versionOf: string -> Result<Version>, i: nat)
    requires i <= |ds| && MeansUpdateMap(v, installed, ds[..i], versionOf).Err?
    ensures MeansUpdateMap(v, installed, ds, versionOf) == MeansUpdateMap(v, installed, ds[..i], versionOf)
    decreases |ds| - i
  {
    if i < |ds| {
      var init := ds[..|ds| - 1];
      assert init[..i] == ds[..i];
      MeansPrefixErr(v, installed, init, versionOf, i);
    } else {
      assert ds[..i] == ds;
    }
  }

  lemma {:induction false} FirstPassPrefixErr(v: PoolView, installed: set<int>, s: Pass, ds: seq<int>, i: nat)
    requires i <= |ds| && FirstPass(v, installed, s, ds[..i]).Err?
    ensures FirstPass(v, installed, s, ds) == FirstPass(v, installed, s, ds[..i])
    decreases |ds| - i
  {
    if i < |ds| {
      var init := ds[..|ds| - 1];
      assert init[..i] == ds[..i];
      FirstPassPrefixErr(v, installed, s, init, i);
    } else {
      assert ds[..i] == ds;
    }
  }

  lemma {:induction false} SecondPassPrefixErr(v: PoolView, installed: set<int>, ignored: set<int>, ds: seq<int>, i: nat)
    requires i <= |ds| && SecondPass(v, installed, ignored, ds[..i]).Err?
    ensures SecondPass(v, installed, ignored, ds) == SecondPass(v, installed, ignored, ds[..i])
    decreases |ds| - i
  {
    if i < |ds| {
      var init := ds[..|ds| - 1];
      assert init[..i] == ds[..i];
      SecondPassPrefixErr(v, installed, ignored, init, i);
    } else {
      assert ds[..i] == ds;
    }
  }

  /** `_find_updates`. */
  method ComputeFindUpdates(pool: Pool, p: Package, versionOf: string -> Result<Version>) returns (r: Result<seq<Package>>)
    requires pool.Valid()
    ensures r == FindUpdates(ViewOf(pool), p, versionOf)
  {
    var req := FromString(p.name, versionOf);
    if req.Err? {
      return Err(req.error);
    }
    var provided := pool.WhatProvides(req.value);
    r := Ok(Others(provided, p));
  }

  /** `means_update_map[pool.package_id(update_package)] = package` for each update in turn. */
  method PointUpdates(pool: Pool, m: map<int, Package>, ups: seq<Package>, p: Package) returns (r: Result<map<int, Package>>)
    requires pool.Valid()
    ensures r == PointAt(ViewOf(pool), m, ups, p)
  {
    var cur := m;
    var i := 0;
    while i < |ups|
      invariant 0 <= i <= |ups| && PointAt(ViewOf(pool), m, ups[..i], p) == Ok(cur)
    {
      assert ups[..i + 1][..i] == ups[..i];
      var id := pool.PackageId(ups[i]);
      if id.Err? {
        PointAtPrefixErr(ViewOf(pool), m, ups, p, i + 1);
        return Err(ValueError);
      }
      cur := cur[id.value := p];
      i := i + 1;
    }
    assert ups[..i] == ups;
    r := Ok(cur);
  }

  /** `_compute_means_update_map` over the sorted decisions. */
  method ComputeMeansUpdateMap(pool: Pool, installed: set<int>, ds: seq<int>, versionOf: string -> Result<Version>)
      returns (r: Result<map<int, Package>>)
    requires pool.Valid()
    ensures r == MeansUpdateMap(ViewOf(pool), installed, ds, versionOf)
  {
    var m: map<int, Package> := map[];
    var i := 0;
    while i < |ds|
      invariant 0 <= i <= |ds| && MeansUpdateMap(ViewOf(pool), installed, ds[..i], versionOf) == Ok(m)
    {
      MeansSnoc(ViewOf(pool), installed, ds, versionOf, i, m);
      var next := ComputeMeansStep(pool, installed, m, ds[i], versionOf);
      if next.Err? {
        MeansPrefixErr(ViewOf(pool), installed, ds, versionOf, i + 1);
        return next;
      }
      m := next.value;
      i := i + 1;
    }
    assert ds[..i] == ds;
    r := Ok(m);
  }

  /** One decision of `_compute_means_update_map`: a removed installed package points its updates at itself. */
  method ComputeMeansStep(pool: Pool, installed: set<int>, m: map<int, Package>, d: int,
                          versionOf: string -> Result<Version>) returns (r: Result<map<int, Package>>)
    requires pool.Valid()
    ensures r == MeansStep(ViewOf(pool), installed, m, d, versionOf)
  {
    var id := Abs(d);
    if id !in pool.idToPackage {
      return Err(KeyError);
    }
    var p := pool.idToPackage[id];
    if d < 0 && id in installed {
      var ups := ComputeFindUpdates(pool, p, versionOf);
      if ups.Err? {
        return Err(ups.error);
      }
      r := PointUpdates(pool, m, ups.value, p);
    } else {
      r := Ok(m);
    }
  }

  /** The first loop of `_compute_transaction`: the update and install tables and the ignored removals. */
  method FirstPassLoop(pool: Pool, installed: set<int>, means0: map<int, Package>, ds: seq<int>) returns (r: Result<Pass>)
    requires pool.Valid()
    ensures r == FirstPass(ViewOf(pool), installed, Pass(means0, OrderedMap([], map[]), OrderedMap([], map[]), {}), ds)
  {
    ghost var s0 := Pass(means0, OrderedMap([], map[]), OrderedMap([], map[]), {});
    var means, updates, installs, ignored := means0, OrderedMap([], map[]), OrderedMap([], map[]), {};
    var i := 0;
    while i < |ds|
      invariant 0 <= i <= |ds|
      invariant FirstPass(ViewOf(pool), installed, s0, ds[..i]) == Ok(Pass(means, updates, installs, ignored))
    {
      assert ds[..i + 1][..i] == ds[..i];
      var d := ds[i];
      var id := Abs(d);
      if id !in pool.idToPackage {
        FirstPassPrefixErr(ViewOf(pool), installed, s0, ds, i + 1);
        return Err(KeyError);
      }
      var p := pool.idToPackage[id];
      if d > 0 && id in installed {
      } else if d < 0 && id !in installed {
      } else if d > 0 {
        if id in means {
          var source := means[id];
          means := means - {id};
          updates := Put(updates, id, Update(p, source));
          if source !in pool.packageToId {
            FirstPassPrefixErr(ViewOf(pool), installed, s0, ds, i + 1);
            return Err(KeyError);
          }
          ignored := ignored + {pool.packageToId[source]};
        } else {
          installs := Put(installs, id, Install(p));
        }
      }
      i := i + 1;
    }
    assert ds[..i] == ds;
    r := Ok(Pass(means, updates, installs, ignored));
  }

  /** The second loop of `_compute_transaction`: the removal table. */
  method SecondPassLoop(pool: Pool, installed: set<int>, ignored: set<int>, ds: seq<int>) returns (r: Result<OrderedMap>)
    requires pool.Valid()
    ensures r == SecondPass(ViewOf(pool), installed, ignored, ds)
  {
    var removes := OrderedMap([], map[]);
    var i := 0;
    while i < |ds|
      invariant 0 <= i <= |ds| && SecondPass(ViewOf(pool), installed, ignored, ds[..i]) == Ok(removes)
    {
      assert ds[..i + 1][..i] == ds[..i];
      var d := ds[i];
      var id := Abs(d);
      if id !in pool.idToPackage {
        SecondPassPrefixErr(ViewOf(pool), installed, ignored, ds, i + 1);
        return Err(KeyError);
      }
      if d < 0 && id in installed && id !in ignored {
        removes := Put(removes, id, Remove(pool.idToPackage[id]));
      }
      i := i + 1;
    }
    assert ds[..i] == ds;
    r := Ok(removes);
  }

  // ---------------------------------------------------------------------
  // The whole transaction
  // ---------------------------------------------------------------------

  /** The tables of a pass are well formed, filed by package id, and the update table holds updates only. */
  ghost predicate PassShape(v: PoolView, s: Pass)
  {
    Wf(s.installs) && Wf(s.updates) && UpdatesOnly(s.updates)
    && EntriesById(v, s.installs) && EntriesById(v, s.updates)
  }

  /** The first pass keeps its tables in shape, whatever the decisions. */
  lemma {:induction false} FirstPassShape(v: PoolView, installed: set<int>, s: Pass, ds: seq<int>)
    requires PassShape(v, s) && FirstPass(v, installed, s, ds).Ok?
    ensures PassShape(v, FirstPass(v, installed, s, ds).value)
    decreases |ds|
  {
    if ds != [] {
      FirstPassShape(v, installed, s, ds[..|ds| - 1]);
    }
  }

  /** `Requirement.from_legacy_requirement_string` over a package's dependency strings. */
  function ParseAll(legacy: string -> Requirement, ds: seq<string>): (r: seq<Requirement>)
    ensures |r| == |ds| && forall i :: 0 <= i < |ds| ==> r[i] == legacy(ds[i])
  {
    seq(|ds|, i requires 0 <= i < |ds| => legacy(ds[i]))
  }

  /** The requirements of a package's dependencies, in the package's order (`_compute_root_packages`). */
  function DepsOf(dependencies: Package -> seq<string>, legacy: string -> Requirement): Package -> seq<Requirement>
  {
    p => ParseAll(legacy, dependencies(p))
  }

  /** The requirements of a package's dependencies, the strings sorted first (the traversal). */
  function SortedDepsOf(dependencies: Package -> seq<string>, legacy: string -> Requirement): Package -> seq<Requirement>
  {
    p => ParseAll(legacy, SortStrings(dependencies(p)))
  }

  /** Sorting the dependency strings changes which requirements come first, not which there are. */
  lemma SortedDepsSame(dependencies: Package -> seq<string>, legacy: string -> Requirement)
    ensures SameRequirements(DepsOf(dependencies, legacy), SortedDepsOf(dependencies, legacy))
  {
    forall p, req ensures req in DepsOf(dependencies, legacy)(p) <==> req in SortedDepsOf(dependencies, legacy)(p) {
      var ds := dependencies(p);
      var sorted := SortStrings(ds);
      assert forall x :: x in ds <==> x in sorted by {
        assert forall x :: x in ds <==> x in multiset(ds);
        assert forall x :: x in sorted <==> x in multiset(sorted);
      }
      assert DepsOf(dependencies, legacy)(p) == ParseAll(legacy, ds);
      assert SortedDepsOf(dependencies, legacy)(p) == ParseAll(legacy, sorted);
      if req in ParseAll(legacy, ds) {
        ParsedAmong(legacy, ds, sorted, req);
      }
      if req in ParseAll(legacy, sorted) {
        ParsedAmong(legacy, sorted, ds, req);
      }
    }
  }

  /** A requirement parsed from one of some strings is parsed from any list holding them all. */
  lemma ParsedAmong(legacy: string -> Requirement, ds: seq<string>, es: seq<string>, req: Requirement)
    requires forall x :: x in ds ==> x in es
    requires req in ParseAll(legacy, ds)
    ensures req in ParseAll(legacy, es)
  {
    var i :| 0 <= i < |ds| && ParseAll(legacy, ds)[i] == req;
    assert ds[i] in es;
    var j :| 0 <= j < |es| && es[j] == ds[i];
    assert ParseAll(legacy, es)[j] == req;
  }

  /** `self.remove(operation.package)` for each operation, in order. */
  function Removals(ops: seq<Operation>): (r: seq<Operation>)
    ensures |r| == |ops| && forall i :: 0 <= i < |ops| ==> r[i] == Remove(ops[i].package)
  {
    seq(|ops|, i requires 0 <= i < |ops| => Remove(ops[i].package))
  }

  /** No operation after a removal is anything but a removal. */
  ghost predicate RemovalsLast(ops: seq<Operation>)
  {
    forall i, j :: 0 <= i < j < |ops| && ops[i].Remove? ==> ops[j].Remove?
  }

  /** Every entry of both tables was emitted. */
  ghost predicate AllEmitted(installs: OrderedMap, updates: OrderedMap, ops: seq<Operation>, keys: seq<int>)
  {
    (forall k :: k in installs.entries ==> k in Emitted(ops, keys, true))
    && (forall k :: k in updates.entries ==> k in Emitted(ops, keys, false))
  }

  /**
   * When the pool holds no package twice and no package is among its own
   * dependency candidates, the roots as written are the intended ones and
   * the traversal emits every install and every update.
   */
  lemma WrittenTraversalComplete(v: PoolView, dependencies: Package -> seq<string>, legacy: string -> Requirement,
                                 installs0: OrderedMap, updates0: OrderedMap, w: Walk, keys: seq<int>)
    requires ViewOk(v) && IdsExact(v)
    requires Wf(installs0) && Wf(updates0) && EntriesById(v, installs0) && EntriesById(v, updates0)
    requires var packages := Merge(installs0, updates0);
             NoSelfCandidate(packages.order, CandsOf(v, packages, DepsOf(dependencies, legacy)))
    requires w.queue == [] && Bookkeeping(installs0, updates0, w, keys)
    requires var packages := Merge(installs0, updates0);
             Explored(v, SortedDepsOf(dependencies, legacy), PackagesOf(Values(Restrict(packages,
               RootsWritten(packages.order, CandsOf(v, packages, DepsOf(dependencies, legacy)), |packages.order|)))), w)
    ensures AllEmitted(installs0, updates0, w.ops, keys)
  {
    var packages := Merge(installs0, updates0);
    var deps := DepsOf(dependencies, legacy);
    RootsWrittenAgree(packages.order, CandsOf(v, packages, deps), |packages.order|);
    SortedDepsSame(dependencies, legacy);
    TraversalComplete(v, deps, SortedDepsOf(dependencies, legacy), installs0, updates0, w, keys);
  }

  /**
   * `_compute_transaction_from_maps`, the operations it appends: the
   * installs and updates in the order of the traversal from the roots of
   * the merged tables, then every removal in table order; ValueError when
   * a root package is not in the pool. With no package twice in the pool
   * and none among its own candidates, every install and update is emitted;
   * with no cycle among the candidates, an operation comes after those of
   * its dependencies' candidates.
   */
  method OperationsFromMaps(pool: Pool, installs: OrderedMap, updates: OrderedMap, removes: OrderedMap,
                            dependencies: Package -> seq<string>, legacy: string -> Requirement)
      returns (r: Result<seq<Operation>>, ghost walk: Walk, ghost keys: seq<int>)
    requires pool.Valid() && Wf(removes) && PassShape(ViewOf(pool), Pass(map[], updates, installs, {}))
    ensures FromMapsOutcome(ViewOf(pool), installs, updates, removes, dependencies, legacy, r, walk, keys)
  {
    var packages := Merge(installs, updates);
    var roots := ComputeRootPackages(pool, packages, DepsOf(dependencies, legacy));
    var walked;
    walked, walk, keys := Traverse(pool, SortedDepsOf(dependencies, legacy), roots, installs, updates);
    if walked.Err? {
      return Err(ValueError), walk, keys;
    }
    if IdsExact(ViewOf(pool))
       && NoSelfCandidate(packages.order, CandsOf(ViewOf(pool), packages, DepsOf(dependencies, legacy))) {
      ViewOkOf(pool);
      WrittenTraversalComplete(ViewOf(pool), dependencies, legacy, installs, updates, walk, keys);
    }
    SortedDepsSame(dependencies, legacy);
    ArcsSame(ViewOf(pool), DepsOf(dependencies, legacy), SortedDepsOf(dependencies, legacy));
    var ops := AppendRemovals(walked.value, Values(removes));
    WalkHasNoRemovals(installs, updates, walk, keys, Removals(Values(removes)));
    r := Ok(ops);
  }

  /** `for operation in remove_map.values(): self.remove(operation.package)`, onto the operations so far. */
  method AppendRemovals(ops: seq<Operation>, rs: seq<Operation>) returns (r: seq<Operation>)
    ensures r == ops + Removals(rs)
  {
    r := ops;
    var i := 0;
    while i < |rs|
      invariant 0 <= i <= |rs| && r == ops + Removals(rs[..i])
    {
      assert Removals(rs[..i + 1]) == Removals(rs[..i]) + [Remove(rs[i].package)];
      r := r + [Remove(rs[i].package)];
      i := i + 1;
    }
    assert rs[..i] == rs;
  }

  /** The traversal emits installs and updates only, so removals appended after it come last. */
  lemma WalkHasNoRemovals(installs: OrderedMap, updates: OrderedMap, walk: Walk, keys: seq<int>, rems: seq<Operation>)
    requires Bookkeeping(installs, updates, walk, keys)
    requires forall i :: 0 <= i < |rems| ==> rems[i].Remove?
    ensures RemovalsLast(walk.ops + rems)
  {
    assert forall k :: 0 <= k < |walk.ops| ==> Logged(installs, updates, keys[k], walk.ops[k]);
  }

  /** What `OperationsFromMaps` promises. */
  ghost predicate FromMapsOutcome(v: PoolView, installs: OrderedMap, updates: OrderedMap, removes: OrderedMap,
                                  dependencies: Package -> seq<string>, legacy: string -> Requirement,
                                  r: Result<seq<Operation>>, walk: Walk, keys: seq<int>)
    requires Wf(installs) && Wf(updates) && Wf(removes)
  {
    (r.Err? ==> r.error == ValueError)
    && (r.Ok? ==> r.value == walk.ops + Removals(Values(removes)))
    && (r.Ok? ==> Bookkeeping(installs, updates, walk, keys) && RemovalsLast(r.value))
    && (r.Ok? && IdsExact(v)
        && NoSelfCandidate(Merge(installs, updates).order, CandsOf(v, Merge(installs, updates), DepsOf(dependencies, legacy)))
        ==> AllEmitted(installs, updates, walk.ops, keys))
    && (r.Ok? && Acyclic(v, DepsOf(dependencies, legacy)) ==> DependencyOrdered(v, DepsOf(dependencies, legacy), keys))
  }

  /** What `_compute_transaction` computes, stage by stage. */
  ghost predicate TransactionOutcome(v: PoolView, decisions: seq<int>, installed: set<int>, versionOf: string -> Result<Version>,
                                     dependencies: Package -> seq<string>, legacy: string -> Requirement,
                                     r: Result<seq<Operation>>, pass: Pass, removes: OrderedMap, walk: Walk, keys: seq<int>)
  {
    var ds := SortInts(decisions);
    var means := MeansUpdateMap(v, installed, ds, versionOf);
    && (means.Err? ==> r == Err(means.error))
    && (means.Ok? ==>
         var first := FirstPass(v, installed, Pass(means.value, OrderedMap([], map[]), OrderedMap([], map[]), {}), ds);
         && (first.Err? ==> r == Err(first.error))
         && (first.Ok? ==>
              var second := SecondPass(v, installed, first.value.ignored, ds);
              && (second.Err? ==> r == Err(second.error))
              && (second.Ok? ==>
                   && pass == first.value && removes == second.value
                   && PassShape(v, pass) && Wf(removes)
                   && FromMapsOutcome(v, pass.installs, pass.updates, removes, dependencies, legacy, r, walk, keys)
                   && (OneDecisionPerId(decisions) ==> FirstPassState(v, installed, means.value, ds, pass)))))
  }

  /**
   * `_compute_transaction`, the operations it appends: the means-update
   * map, the two passes over the sorted decisions, then the operations
   * from the three tables; the first error met is the result.
   */
  method TransactionOperations(pool: Pool, decisions: seq<int>, installed: set<int>, versionOf: string -> Result<Version>,
                               dependencies: Package -> seq<string>, legacy: string -> Requirement)
      returns (r: Result<seq<Operation>>, ghost pass: Pass, ghost removes: OrderedMap, ghost walk: Walk, ghost keys: seq<int>)
    requires pool.Valid()
    ensures TransactionOutcome(ViewOf(pool), decisions, installed, versionOf, dependencies, legacy, r, pass, removes, walk, keys)
  {
    pass, removes, walk, keys := Pass(map[], OrderedMap([], map[]), OrderedMap([], map[]), {}), OrderedMap([], map[]),
                                 Walk([], {}, OrderedMap([], map[]), OrderedMap([], map[]), []), [];
    var ds := SortInts(decisions);
    var means := ComputeMeansUpdateMap(pool, installed, ds, versionOf);
    if means.Err? {
      return Err(means.error), pass, removes, walk, keys;
    }
    var first := FirstPassLoop(pool, installed, means.value, ds);
    if first.Err? {
      return Err(first.error), pass, removes, walk, keys;
    }
    var tables := first.value;
    var second := SecondPassLoop(pool, installed, tables.ignored, ds);
    if second.Err? {
      return Err(second.error), pass, removes, walk, keys;
    }
    var removals := second.value;
    pass, removes := tables, removals;
    FirstPassShape(ViewOf(pool), installed, Pass(means.value, OrderedMap([], map[]), OrderedMap([], map[]), {}), ds);
    SecondPassMeaning(ViewOf(pool), installed, tables.ignored, ds);
    if OneDecisionPerId(decisions) {
      OneDecisionSorted(decisions);
      FirstPassMeaning(ViewOf(pool), installed, means.value, ds);
    }
    r, walk, keys := OperationsFromMaps(pool, tables.installs, tables.updates, removals, dependencies, legacy);
  }

  /**
   * With one decision per id, no package twice in the pool and none among
   * its own candidates, a transaction installs exactly the packages decided
   * for that are not installed and that no removed package is updated to,
   * updates exactly those some removed package is updated to, each once,
   * and removes after all of them. Each install and update is of the
   * package of its id, and with no cycle among the candidates an operation
   * comes after those of its package's dependencies' candidates.
   */
  lemma TransactionComplete(v: PoolView, decisions: seq<int>, installed: set<int>, versionOf: string -> Result<Version>,
                            dependencies: Package -> seq<string>, legacy: string -> Requirement,
                            ops: seq<Operation>, pass: Pass, removes: OrderedMap, walk: Walk, keys: seq<int>)
    requires TransactionOutcome(v, decisions, installed, versionOf, dependencies, legacy, Ok(ops), pass, removes, walk, keys)
    requires OneDecisionPerId(decisions) && IdsExact(v)
    requires NoSelfCandidate(Merge(pass.installs, pass.updates).order,
                             CandsOf(v, Merge(pass.installs, pass.updates), DepsOf(dependencies, legacy)))
    ensures RemovalsLast(ops)
    ensures forall k :: k in pass.installs.entries <==> k in Emitted(walk.ops, keys, true)
    ensures forall k :: k in pass.updates.entries <==> k in Emitted(walk.ops, keys, false)
    ensures forall i, j :: 0 <= i < j < |walk.ops| && walk.ops[i].Install? == walk.ops[j].Install? ==> keys[i] != keys[j]
    ensures forall i :: 0 <= i < |walk.ops| ==> keys[i] in v.idToPackage && walk.ops[i].package == v.idToPackage[keys[i]]
    ensures Acyclic(v, DepsOf(dependencies, legacy)) ==>
              forall i, j :: (0 <= i < |walk.ops| && 0 <= j < |walk.ops| &&
                              keys[i] in Arcs(v, DepsOf(dependencies, legacy), keys[j])) ==> i < j
  {
    OutcomeTables(v, decisions, installed, versionOf, dependencies, legacy, ops, pass, removes, walk, keys);
    TablesComplete(v, pass.installs, pass.updates, removes, dependencies, legacy, ops, walk, keys);
  }

  /** A transaction computed without error came from tables in shape. */
  lemma OutcomeTables(v: PoolView, decisions: seq<int>, installed: set<int>, versionOf: string -> Result<Version>,
                      dependencies: Package -> seq<string>, legacy: string -> Requirement,
                      ops: seq<Operation>, pass: Pass, removes: OrderedMap, walk: Walk, keys: seq<int>)
    requires TransactionOutcome(v, decisions, installed, versionOf, dependencies, legacy, Ok(ops), pass, removes, walk, keys)
    ensures PassShape(v, pass) && Wf(removes)
    ensures FromMapsOutcome(v, pass.installs, pass.updates, removes, dependencies, legacy, Ok(ops), walk, keys)
  {
  }

  /** `TransactionComplete` for the operations from the tables. */
  lemma TablesComplete(v: PoolView, installs: OrderedMap, updates: OrderedMap, removes: OrderedMap,
                       dependencies: Package -> seq<string>, legacy: string -> Requirement,
                       ops: seq<Operation>, walk: Walk, keys: seq<int>)
    requires Wf(installs) && Wf(updates) && Wf(removes) && EntriesById(v, installs) && EntriesById(v, updates)
    requires FromMapsOutcome(v, installs, updates, removes, dependencies, legacy, Ok(ops), walk, keys) && IdsExact(v)
    requires NoSelfCandidate(Merge(installs, updates).order, CandsOf(v, Merge(installs, updates), DepsOf(dependencies, legacy)))
    ensures RemovalsLast(ops)
    ensures forall k :: k in installs.entries <==> k in Emitted(walk.ops, keys, true)
    ensures forall k :: k in updates.entries <==> k in Emitted(walk.ops, keys, false)
    ensures forall i, j :: 0 <= i < j < |walk.ops| && walk.ops[i].Install? == walk.ops[j].Install? ==> keys[i] != keys[j]
    ensures forall i :: 0 <= i < |walk.ops| ==> keys[i] in v.idToPackage && walk.ops[i].package == v.idToPackage[keys[i]]
    ensures Acyclic(v, DepsOf(dependencies, legacy)) ==>
              forall i, j :: (0 <= i < |walk.ops| && 0 <= j < |walk.ops| &&
                              keys[i] in Arcs(v, DepsOf(dependencies, legacy), keys[j])) ==> i < j
  {
    forall i | 0 <= i < |walk.ops| ensures keys[i] in v.idToPackage && walk.ops[i].package == v.idToPackage[keys[i]] {
      assert Logged(installs, updates, keys[i], walk.ops[i]);
    }
    forall k | k in Emitted(walk.ops, keys, true) ensures k in installs.entries {
      var i :| 0 <= i < |walk.ops| && i < |keys| && walk.ops[i].Install? && keys[i] == k;
      assert Logged(installs, updates, keys[i], walk.ops[i]);
    }
    forall k | k in Emitted(walk.ops, keys, false) ensures k in updates.entries {
      var i :| 0 <= i < |walk.ops| && i < |keys| && !walk.ops[i].Install? && keys[i] == k;
      assert Logged(installs, updates, keys[i], walk.ops[i]);
    }
  }

  /** `Transaction`: the operations, in the order they are to be carried out. */
  class Transaction {
    var operations: seq<Operation>

    constructor ()
      ensures operations == []
    {
      operations := [];
    }

    /** `install`: appends an install of the package. */
    method Install(package: Package)
      modifies this
      ensures operations == old(operations) + [Operation.Install(package)]
    {
      operations := operations + [Operation.Install(package)];
    }

    /** `remove`: appends a removal of the package. */
    method Remove(package: Package)
      modifies this
      ensures operations == old(operations) + [Operation.Remove(package)]
    {
      operations := operations + [Operation.Remove(package)];
    }

    /** `update(from_package, to_package)`: appends an update to the new package from the old one. */
    method Update(fromPackage: Package, toPackage: Package)
      modifies this
      ensures operations == old(operations) + [Operation.Update(toPackage, fromPackage)]
    {
      operations := operations + [Operation.Update(toPackage, fromPackage)];
    }

    /** `_compute_transaction`: appends the operations, or leaves them as they were on an error. */
    method ComputeTransaction(pool: Pool, decisions: seq<int>, installed: set<int>, versionOf: string -> Result<Version>,
                              dependencies: Package -> seq<string>, legacy: string -> Requirement)
        returns (r: Result<()>, ghost ops: Result<seq<Operation>>, ghost pass: Pass, ghost removes: OrderedMap,
                 ghost walk: Walk, ghost keys: seq<int>)
      requires pool.Valid()
      modifies this
      ensures TransactionOutcome(ViewOf(pool), decisions, installed, versionOf, dependencies, legacy, ops, pass, removes, walk, keys)
      ensures r.Ok? <==> ops.Ok?
      ensures r.Err? ==> r.error == ops.error && operations == old(operations)
      ensures r.Ok? ==> operations == old(operations) + ops.value
    {
      var computed;
      computed, pass, removes, walk, keys := TransactionOperations(pool, decisions, installed, versionOf, dependencies, legacy);
      ops := computed;
      if computed.Err? {
        return Err(computed.error), ops, pass, removes, walk, keys;
      }
      operations := operations + computed.value;
      r := Ok(());
    }
  }

  /** `Transaction(pool, decisions, installed_map)`: the transaction, or the error its computation raises. */
  method NewTransaction(pool: Pool, decisions: seq<int>, installed: set<int>, versionOf: string -> Result<Version>,
                        dependencies: Package -> seq<string>, legacy: string -> Requirement)
      returns (r: Result<Transaction>, ghost ops: Result<seq<Operation>>)
    requires pool.Valid()
    ensures r.Ok? <==> ops.Ok?
    ensures r.Ok? ==> fresh(r.value) && r.value.operations == ops.value
    ensures r.Err? ==> r.error == ops.error
    ensures exists pass, removes, walk, keys ::
      TransactionOutcome(ViewOf(pool), decisions, installed, versionOf, dependencies, legacy, ops, pass, removes, walk, keys)
  {
    var t := new Transaction();
    var e;
    ghost var pass, removes, walk, keys;
    e, ops, pass, removes, walk, keys := t.ComputeTransaction(pool, decisions, installed, versionOf, dependencies, legacy);
    if e.Err? {
      return Err(e.error), ops;
    }
    r := Ok(t);
  }
}
