/**
 * `DependencySolver` (simplesat/dependency_solver.py): what is done with
 * the SAT solver's answer. A model becomes a list of signed package ids,
 * optionally pruned to the packages connected to the requested ones, and
 * is handed to `Transaction`; unsatisfiability becomes None.
 */
module DependencySolverModel {
  import opened Wrappers
  import opened SatUtils
  import opened SetFacts
  import opened IntSets
  import opened Kinds
  import opened Requirements
  import opened Packages
  import opened Pools
  import MiniSat
  import Transactions

  // ---------------------------------------------------------------------
  // _solution_to_ids
  // ---------------------------------------------------------------------

  /** Every variable of the solution is a positive id, as the solver's variables are. */
  predicate PositiveKeys(solution: map<int, Option<bool>>)
  {
    forall v :: v in solution ==> v > 0
  }

  /** The signed id of variable `v`: `v` when it is True, `-v` otherwise. */
  function Signed(solution: map<int, Option<bool>>, v: int): int
    requires v in solution
  {
    if solution[v] == Some(true) then v else -v
  }

  /**
   * `_solution_to_ids`: one signed id per variable of the solution, exactly
   * the literals the solver's `validate` reads off it, in increasing order
   * of their absolute values.
   */
  function SolutionToIds(solution: map<int, Option<bool>>): (r: seq<int>)
    ensures |r| == |solution|
    ensures forall i :: 0 <= i < |r| ==> r[i] in MiniSat.SolutionLiterals(solution)
    ensures forall l :: l in MiniSat.SolutionLiterals(solution) ==> l in r
    ensures PositiveKeys(solution) ==> forall i, j :: 0 <= i < j < |r| ==> Abs(r[i]) < Abs(r[j])
  {
    var keys := SortedSet(solution.Keys);
    var r := seq(|keys|, i requires 0 <= i < |keys| => Signed(solution, keys[i]));
    assert |solution.Keys| == |solution|;
    forall l | l in MiniSat.SolutionLiterals(solution)
      ensures l in r
    {
      var v :| v in solution && l == (if solution[v] == Some(true) then v else -v);
      assert v in solution.Keys;
      assert v in keys;
      var i :| 0 <= i < |keys| && keys[i] == v;
      assert r[i] == l;
    }
    r
  }

  // ---------------------------------------------------------------------
  // _connected_packages and _connected_nodes
  // ---------------------------------------------------------------------

  /** `pkg_name_to_ids[name]` of a `defaultdict(set)`. */
  function IdsNamed(byName: map<string, set<int>>, name: string): set<int>
  {
    if name in byName then byName[name] else {}
  }

  /**
   * `pkg_name_to_ids`: the signed ids of the solution grouped by the name of
   * their package, filled literal by literal. Literals whose package is not
   * in the pool are skipped here; the method raises on them.
   */
  function ByName(packages: map<int, Package>, solution: seq<int>): map<string, set<int>>
    decreases |solution|
  {
    if solution == [] then map[]
    else
      var m := ByName(packages, solution[..|solution| - 1]);
      var x := solution[|solution| - 1];
      if Abs(x) in packages then
        var name := packages[Abs(x)].name;
        m[name := IdsNamed(m, name) + {x}]
      else m
  }

  /** The ids listed under a name are the solution's literals whose package has that name. */
  lemma {:induction false} ByNameMeaning(packages: map<int, Package>, solution: seq<int>, name: string, x: int)
    ensures x in IdsNamed(ByName(packages, solution), name) <==>
              x in solution && Abs(x) in packages && packages[Abs(x)].name == name
    decreases |solution|
  {
    if solution != [] {
      var init := solution[..|solution| - 1];
      ByNameMeaning(packages, init, name, x);
      assert solution == init + [solution[|solution| - 1]];
    }
  }

  /**
   * `neighborfunc`: a removal pulls in nothing; an install pulls in the
   * solution's ids of its own name and of the names of its dependencies,
   * without itself. How a dependency string reads as a requirement is
   * given (`legacy`).
   */
  function Neighbors(packages: map<int, Package>, byName: map<string, set<int>>,
                     dependencies: Package -> seq<string>, legacy: string -> Requirement, id: int): (r: set<int>)
    ensures id < 0 || id !in packages ==> r == {}
    ensures id >= 0 && id in packages ==>
              forall x :: x in r <==>
                x != id && (x in IdsNamed(byName, packages[id].name)
                            || exists d :: d in dependencies(packages[id]) && x in IdsNamed(byName, legacy(d).name))
  {
    if id < 0 || id !in packages then {}
    else
      var p := packages[id];
      (IdsNamed(byName, p.name) + set d, x | d in dependencies(p) && x in IdsNamed(byName, legacy(d).name) :: x) - {id}
  }

  /** The neighbour function `_connected_packages` builds for a solution. */
  function SolutionGraph(packages: map<int, Package>, solution: seq<int>,
                         dependencies: Package -> seq<string>, legacy: string -> Requirement): int -> set<int>
  {
    n => Neighbors(packages, ByName(packages, solution), dependencies, legacy, n)
  }

  /** Neighbours are literals of the solution. */
  lemma NeighborsInSolution(packages: map<int, Package>, solution: seq<int>,
                            dependencies: Package -> seq<string>, legacy: string -> Requirement, n: int)
    ensures forall x :: x in SolutionGraph(packages, solution, dependencies, legacy)(n) ==> x in solution
  {
    var byName := ByName(packages, solution);
    forall x | x in Neighbors(packages, byName, dependencies, legacy, n)
      ensures x in solution
    {
      var p := packages[n];
      if x in IdsNamed(byName, p.name) {
        ByNameMeaning(packages, solution, p.name, x);
      } else {
        var d :| d in dependencies(p) && x in IdsNamed(byName, legacy(d).name);
        ByNameMeaning(packages, solution, legacy(d).name, x);
      }
    }
  }

  /** `p` is a walk along the neighbour function, from its first node to its last. */
  ghost predicate IsPath(nbrs: int -> set<int>, p: seq<int>)
  {
    |p| >= 1 && forall i :: 0 <= i < |p| - 1 ==> p[i + 1] in nbrs(p[i])
  }

  ghost predicate Reaches(nbrs: int -> set<int>, a: int, b: int)
  {
    exists p :: IsPath(nbrs, p) && p[0] == a && p[|p| - 1] == b
  }

  lemma ReachesSelf(nbrs: int -> set<int>, a: int)
    ensures Reaches(nbrs, a, a)
  {
    assert IsPath(nbrs, [a]);
  }

  lemma ReachesStep(nbrs: int -> set<int>, a: int, b: int, c: int)
    requires Reaches(nbrs, a, b) && c in nbrs(b)
    ensures Reaches(nbrs, a, c)
  {
    var p :| IsPath(nbrs, p) && p[0] == a && p[|p| - 1] == b;
    var q := p + [c];
    forall i | 0 <= i < |q| - 1
      ensures q[i + 1] in nbrs(q[i])
    {
      if i < |p| - 1 {
        assert q[i] == p[i] && q[i + 1] == p[i + 1];
      }
    }
    assert IsPath(nbrs, q) && q[0] == a && q[|q| - 1] == c;
  }

  /**
   * The state of `_connected_nodes` part way: `done` are the nodes taken so
   * far, each with its neighbours visited or queued; everything taken or
   * queued is reachable from `node`.
   */
  ghost predicate WalkInv(nbrs: int -> set<int>, node: int, visited: set<int>, universe: set<int>,
                          r: set<int>, queued: set<int>, done: set<int>)
  {
    && r == visited + {node} + done
    && queued <= universe && done <= universe
    && queued !! done
    && (node in done || queued == {node})
    && (forall n :: n in done ==> nbrs(n) <= r + queued)
    && (forall n :: n in queued || n in done ==> Reaches(nbrs, node, n))
  }

  /** Taking `n` off the queue keeps the walk's invariant and takes one more node of the universe. */
  lemma WalkStep(nbrs: int -> set<int>, node: int, visited: set<int>, universe: set<int>,
                 r: set<int>, queued: set<int>, done: set<int>, n: int)
    requires forall m :: nbrs(m) <= universe
    requires WalkInv(nbrs, node, visited, universe, r, queued, done) && n in queued
    ensures WalkInv(nbrs, node, visited, universe, r + {n}, ((queued - {n}) + nbrs(n)) - (r + {n}), done + {n})
    ensures universe - (done + {n}) < universe - done
  {
    forall m | m in nbrs(n)
      ensures Reaches(nbrs, node, m)
    {
      ReachesStep(nbrs, node, n, m);
    }
  }

  /**
   * `_connected_nodes`: a work-set walk from `node` that adds every node it
   * takes to `visited` and queues the neighbours not yet visited. The
   * result holds `visited` and `node`; every node it adds is reachable
   * from `node`; and every node the walk took (all but the ones visited
   * before, except `node` itself) has its neighbours in the result.
   * `universe` bounds the nodes the neighbour function can name; the walk
   * takes each of them at most once.
   */
  method ConnectedNodes(node: int, nbrs: int -> set<int>, visited: set<int>, ghost universe: set<int>)
      returns (r: set<int>)
    requires node in universe && forall n :: nbrs(n) <= universe
    ensures visited <= r && node in r
    ensures forall n :: n in r ==> n in visited || Reaches(nbrs, node, n)
    ensures forall n :: n in r && (n !in visited || n == node) ==> nbrs(n) <= r
  {
    r := visited + {node};
    var queued := {node};
    ghost var done: set<int> := {};
    ReachesSelf(nbrs, node);
    while queued != {}
      invariant WalkInv(nbrs, node, visited, universe, r, queued, done)
      decreases universe - done
    {
      NonEmptyHasElement(queued);
      var n :| n in queued;
      WalkStep(nbrs, node, visited, universe, r, queued, done, n);
      done := done + {n};
      queued := queued - {n};
      r := r + {n};
      queued := (queued + nbrs(n)) - r;
    }
  }

  /** `n` is reachable from one of the non-negative roots. */
  ghost predicate FromRoots(nbrs: int -> set<int>, roots: set<int>, n: int)
  {
    exists id :: id in roots && id >= 0 && Reaches(nbrs, id, n)
  }

  /**
   * What `_connected_packages` promises: the non-negative roots are in,
   * every member's neighbours are in, and every member is reachable from a
   * non-negative root.
   */
  ghost predicate ConnectedFrom(nbrs: int -> set<int>, roots: set<int>, c: set<int>)
  {
    && (forall id :: id in roots && id >= 0 ==> id in c)
    && (forall n :: n in c ==> nbrs(n) <= c)
    && (forall n :: n in c ==> FromRoots(nbrs, roots, n))
  }

  /** `set(pkg_ids).intersection(solution)`. */
  function RootIds(pkgIds: seq<int>, solution: seq<int>): set<int>
  {
    set id | id in pkgIds && id in solution
  }

  /**
   * `_connected_packages`: KeyError when a literal of the solution names a
   * package not in the pool; otherwise the packages connected, through the
   * solution's neighbour function, to the non-negative requested ids that
   * are in the solution.
   */
  method ConnectedPackages(solution: seq<int>, pkgIds: seq<int>, pool: Pool,
                           dependencies: Package -> seq<string>, legacy: string -> Requirement)
      returns (r: Result<set<int>>)
    ensures r.Err? <==> exists i :: 0 <= i < |solution| && Abs(solution[i]) !in pool.idToPackage
    ensures r.Err? ==> r.error == KeyError
    ensures r.Ok? ==>
              ConnectedFrom(SolutionGraph(pool.idToPackage, solution, dependencies, legacy),
                            RootIds(pkgIds, solution), r.value)
  {
    var packages := pool.idToPackage;
    var byName: map<string, set<int>> := map[];
    for i := 0 to |solution|
      invariant byName == ByName(packages, solution[..i])
      invariant forall j :: 0 <= j < i ==> Abs(solution[j]) in packages
    {
      var x := solution[i];
      assert solution[..i + 1][..i] == solution[..i];
      if Abs(x) !in packages {
        return Err(KeyError);
      }
      var name := packages[Abs(x)].name;
      byName := byName[name := IdsNamed(byName, name) + {x}];
    }
    assert solution[..|solution|] == solution;
    var nbrs := SolutionGraph(packages, solution, dependencies, legacy);
    ghost var universe := set x | x in solution;
    forall n
      ensures nbrs(n) <= universe
    {
      NeighborsInSolution(packages, solution, dependencies, legacy, n);
    }
    var roots := RootIds(pkgIds, solution);
    var todo := roots;
    var connected: set<int> := {};
    while todo != {}
      invariant todo <= roots
      invariant forall id :: id in roots - todo && id >= 0 ==> id in connected
      invariant forall n :: n in connected ==> nbrs(n) <= connected
      invariant forall n :: n in connected ==> FromRoots(nbrs, roots, n)
      decreases |todo|
    {
      NonEmptyHasElement(todo);
      var id :| id in todo;
      todo := todo - {id};
      if id < 0 {
        continue;
      }
      ghost var before := connected;
      connected := ConnectedNodes(id, nbrs, connected, universe);
      forall n | n in connected
        ensures FromRoots(nbrs, roots, n)
      {
        if n !in before {
          assert Reaches(nbrs, id, n);
        }
      }
    }
    return Ok(connected);
  }

  // ---------------------------------------------------------------------
  // solve: what becomes of the search result
  // ---------------------------------------------------------------------

  /** What `solve` ends with: a transaction, None, an exception, or no verdict within the search's fuel. */
  datatype SolveOutcome =
    | Solved(transaction: Result<seq<Transactions.Operation>>)
    | NoSolution
    | Raised(error: Error)
    | Undecided

  /**
   * The part of `solve` after `search`: False gives None; a model gives its
   * signed ids, kept only where connected to the requested ids when
   * pruning is on, and the transaction computed from them against the
   * installed ids.
   */
  method SolveResult(pool: Pool, result: MiniSat.SearchResult, requirementIds: seq<int>, installed: set<int>,
                     usePruning: bool, versionOf: string -> Result<Version>,
                     dependencies: Package -> seq<string>, legacy: string -> Requirement)
      returns (o: SolveOutcome, ghost decisions: seq<int>, ghost connected: set<int>,
               ghost pass: Transactions.Pass, ghost removes: Transactions.OrderedMap,
               ghost walk: Transactions.Walk, ghost keys: seq<int>)
    requires pool.Valid()
    ensures result.Unsatisfiable? <==> o == NoSolution
    ensures result.OutOfFuel? <==> o == Undecided
    ensures result.Failed? ==> o == Raised(result.error)
    ensures result.Model? ==> o.Solved? || (usePruning && o == Raised(KeyError))
    ensures o.Solved? ==>
              result.Model?
              && var ids := SolutionToIds(result.solution.data);
              && (!usePruning ==> decisions == ids)
              && (usePruning ==>
                    decisions == Transactions.Keep(ids, connected)
                    && ConnectedFrom(SolutionGraph(pool.idToPackage, ids, dependencies, legacy),
                                     RootIds(requirementIds, ids), connected))
              && Transactions.TransactionOutcome(Transactions.ViewOf(pool), decisions, installed, versionOf,
                                                 dependencies, legacy, o.transaction, pass, removes, walk, keys)
  {
    decisions, connected := [], {};
    pass, removes := Transactions.Pass(map[], Transactions.OrderedMap([], map[]), Transactions.OrderedMap([], map[]), {}),
                     Transactions.OrderedMap([], map[]);
    walk, keys := Transactions.Walk([], {}, Transactions.OrderedMap([], map[]), Transactions.OrderedMap([], map[]), []), [];
    match result
    case Unsatisfiable =>
      o := NoSolution;
    case OutOfFuel =>
      o := Undecided;
    case Failed(e) =>
      o := Raised(e);
    case Model(solution) =>
      var ids := SolutionToIds(solution.data);
      if usePruning {
        var c := ConnectedPackages(ids, requirementIds, pool, dependencies, legacy);
        if c.Err? {
          return Raised(c.error), decisions, connected, pass, removes, walk, keys;
        }
        connected := c.value;
        ids := Transactions.Keep(ids, c.value);
      }
      decisions := ids;
      var t;
      t, pass, removes, walk, keys := Transactions.TransactionOperations(pool, ids, installed, versionOf, dependencies, legacy);
      o := Solved(t);
  }

  /** The ids a solved transaction is computed from are literals of the model. */
  lemma DecisionsAreModelLiterals(solution: map<int, Option<bool>>, connected: set<int>, l: int)
    requires l in Transactions.Keep(SolutionToIds(solution), connected)
    ensures l in MiniSat.SolutionLiterals(solution) && l in connected
  {
    var ids := SolutionToIds(solution);
    var i :| 0 <= i < |ids| && ids[i] == l;
  }
}
