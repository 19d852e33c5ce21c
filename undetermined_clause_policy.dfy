/**
 * `UndeterminedClausePolicy` (simplesat/sat/policy/undetermined_clause_policy.py):
 * the solver's decision heuristic. It suggests the next unassigned package
 * id: an installed one first (when installed packages are preferred), then
 * the newest unassigned requirement, then the newest unassigned variable
 * of a clause not yet satisfied, then any unassigned variable of the
 * clauses.
 *
 * A clause is its list of literals. The assignments are the solver's
 * table of variables; the keys the changelog lists and whether new keys
 * were added come with it, as the solver's assignment set records them.
 */
module UndeterminedClausePolicyModel {
  import opened Wrappers
  import opened SatUtils
  import opened SetFacts
  import opened Kinds
  import opened Packages

  // ---------------------------------------------------------------------
  // Values the policy reads
  // ---------------------------------------------------------------------

  /** The variables of a clause. */
  function Vars(c: seq<int>): set<int>
  {
    set l | l in c :: Abs(l)
  }

  /** The variables of all clauses. */
  function AllVars(clauses: seq<seq<int>>): set<int>
  {
    set k, l | 0 <= k < |clauses| && l in clauses[k] :: Abs(l)
  }

  /** `any(assignments.value(l) for l in clause.lits)`: some literal is True. */
  predicate Satisfied(c: seq<int>, a: Assignments)
  {
    exists l :: l in c && Value(l, a) == Some(true)
  }

  /** `assigned_ids`: the variables with a value. */
  predicate Assigned(a: Assignments, v: int)
  {
    Status(a, v).Some?
  }

  /** `table[k]` of a `defaultdict(list)`. */
  function ClausesOf(table: map<int, seq<seq<int>>>, v: int): seq<seq<int>>
  {
    if v in table then table[v] else []
  }

  // ---------------------------------------------------------------------
  // Choosing among candidates
  // ---------------------------------------------------------------------

  /** `m` is an unassigned member of `ids` with the greatest version among the unassigned members. */
  ghost predicate IsBest(m: int, ids: set<int>, a: Assignments, versionOf: int -> Version)
  {
    m in ids && !Assigned(a, m)
    && forall x :: x in ids && !Assigned(a, x) ==> VersionLeq(versionOf(x), versionOf(m))
  }

  /** `m` is a member of `s` with the greatest version in `s`. */
  predicate Greatest(m: int, s: set<int>, versionOf: int -> Version)
  {
    m in s && forall x :: x in s ==> VersionLeq(versionOf(x), versionOf(m))
  }

  /** Every finite set of ids has a member of greatest version. */
  lemma {:induction false} HasBest(s: set<int>, versionOf: int -> Version)
    requires s != {}
    ensures exists m :: Greatest(m, s, versionOf)
    decreases |s|
  {
    NonEmptyHasElement(s);
    var y :| y in s;
    if s == {y} {
      assert Greatest(y, s, versionOf);
    } else {
      HasBest(s - {y}, versionOf);
      var m :| Greatest(m, s - {y}, versionOf);
      VersionOrderTotal(versionOf(y), versionOf(m), versionOf(m));
      if VersionLess(versionOf(m), versionOf(y)) {
        forall x | x in s
          ensures VersionLeq(versionOf(x), versionOf(y))
        {
          if x != y {
            VersionOrderTotal(versionOf(x), versionOf(m), versionOf(y));
          }
        }
        assert Greatest(y, s, versionOf);
      } else {
        assert Greatest(m, s, versionOf);
      }
    }
  }

  /** `_without_assigned`. */
  function Unassigned(ids: set<int>, a: Assignments): (r: set<int>)
    ensures forall x :: x in r <==> x in ids && !Assigned(a, x)
  {
    set x | x in ids && !Assigned(a, x)
  }

  /**
   * `_best_candidate` without the update: `max` by version over the
   * unassigned ids, None when there is none (the ValueError `max` raises on
   * an empty set is caught). Ties go to whichever the set yields first.
   */
  method Best(ids: set<int>, a: Assignments, versionOf: int -> Version) returns (r: Option<int>)
    ensures r.None? <==> forall x :: x in ids ==> Assigned(a, x)
    ensures r.Some? ==> IsBest(r.value, ids, a, versionOf)
  {
    var unassigned := Unassigned(ids, a);
    if unassigned == {} {
      return None;
    }
    HasBest(unassigned, versionOf);
    var m :| Greatest(m, unassigned, versionOf);
    return Some(m);
  }

  /** The first id of the list that is unassigned. */
  function FirstUnassigned(ids: seq<int>, a: Assignments): (r: Option<int>)
  {
    if ids == [] then None
    else if !Assigned(a, ids[0]) then Some(ids[0])
    else FirstUnassigned(ids[1..], a)
  }

  /** The first unassigned id is unassigned, in the list, and only assigned ids come before it. */
  lemma {:induction false} FirstUnassignedMeaning(ids: seq<int>, a: Assignments)
    ensures FirstUnassigned(ids, a).None? <==> forall i :: 0 <= i < |ids| ==> Assigned(a, ids[i])
    ensures FirstUnassigned(ids, a).Some? ==>
              exists i :: 0 <= i < |ids| && ids[i] == FirstUnassigned(ids, a).value
                          && !Assigned(a, ids[i]) && forall j :: 0 <= j < i ==> Assigned(a, ids[j])
  {
    if ids != [] && Assigned(a, ids[0]) {
      FirstUnassignedMeaning(ids[1..], a);
      if FirstUnassigned(ids[1..], a).Some? {
        var i :| 0 <= i < |ids[1..]| && ids[1..][i] == FirstUnassigned(ids[1..], a).value
                 && !Assigned(a, ids[1..][i]) && forall j :: 0 <= j < i ==> Assigned(a, ids[1..][j]);
        assert ids[i + 1] == ids[1..][i];
        forall j | 0 <= j < i + 1
          ensures Assigned(a, ids[j])
        {
          if j > 0 {
            assert ids[j] == ids[1..][j - 1];
          }
        }
      } else {
        forall i | 0 <= i < |ids|
          ensures Assigned(a, ids[i])
        {
          if i > 0 {
            assert ids[i] == ids[1..][i - 1];
          }
        }
      }
    }
  }

  /** `_best_sorted_candidate`: the first unassigned id of the list, in list order. */
  method BestSortedCandidate(ids: seq<int>, a: Assignments) returns (r: Option<int>)
    ensures r == FirstUnassigned(ids, a)
  {
    var i := 0;
    while i < |ids|
      invariant 0 <= i <= |ids|
      invariant FirstUnassigned(ids, a) == FirstUnassigned(ids[i..], a)
    {
      if !Assigned(a, ids[i]) {
        return Some(ids[i]);
      }
      assert ids[i..][1..] == ids[i + 1..];
      i := i + 1;
    }
    return None;
  }

  // ---------------------------------------------------------------------
  // The installed ids, sorted by version
  // ---------------------------------------------------------------------

  predicate VersionSorted(s: seq<int>, versionOf: int -> Version)
  {
    forall i, j :: 0 <= i < j < |s| ==> VersionLeq(versionOf(s[i]), versionOf(s[j]))
  }

  /** `x` goes after every id of a version not above its own. */
  function InsertByVersion(s: seq<int>, x: int, versionOf: int -> Version): (r: seq<int>)
    ensures multiset(r) == multiset(s) + multiset{x}
  {
    if s == [] then [x]
    else if VersionLess(versionOf(x), versionOf(s[0])) then [x] + s
    else
      assert s == [s[0]] + s[1..];
      [s[0]] + InsertByVersion(s[1..], x, versionOf)
  }

  /** Every id of the list has a version at least `v`. */
  predicate AllAtLeast(s: seq<int>, v: Version, versionOf: int -> Version)
  {
    forall j :: 0 <= j < |s| ==> VersionLeq(v, versionOf(s[j]))
  }

  /** A bound that holds for the list and for `x` holds for the list with `x` inserted. */
  lemma AtLeastAfterInsert(s: seq<int>, x: int, v: Version, versionOf: int -> Version)
    requires AllAtLeast(s, v, versionOf) && VersionLeq(v, versionOf(x))
    ensures AllAtLeast(InsertByVersion(s, x, versionOf), v, versionOf)
  {
    var r := InsertByVersion(s, x, versionOf);
    forall j | 0 <= j < |r|
      ensures VersionLeq(v, versionOf(r[j]))
    {
      assert r[j] in multiset(r);
      if r[j] != x {
        assert r[j] in multiset(s);
        var k :| 0 <= k < |s| && s[k] == r[j];
      }
    }
  }

  /** Inserting into a sorted list keeps it sorted. */
  lemma {:induction false} InsertSorted(s: seq<int>, x: int, versionOf: int -> Version)
    requires VersionSorted(s, versionOf)
    ensures VersionSorted(InsertByVersion(s, x, versionOf), versionOf)
    decreases |s|
  {
    if s != [] && !VersionLess(versionOf(x), versionOf(s[0])) {
      var t := InsertByVersion(s[1..], x, versionOf);
      InsertSorted(s[1..], x, versionOf);
      VersionOrderTotal(versionOf(x), versionOf(s[0]), versionOf(s[0]));
      assert AllAtLeast(s[1..], versionOf(s[0]), versionOf) by {
        forall j | 0 <= j < |s[1..]|
          ensures VersionLeq(versionOf(s[0]), versionOf(s[1..][j]))
        {
          assert s[1..][j] == s[j + 1];
        }
      }
      AtLeastAfterInsert(s[1..], x, versionOf(s[0]), versionOf);
      var r := [s[0]] + t;
      forall i, j | 0 <= i < j < |r|
        ensures VersionLeq(versionOf(r[i]), versionOf(r[j]))
      {
        if i == 0 {
          assert r[j] == t[j - 1];
        } else {
          assert r[i] == t[i - 1] && r[j] == t[j - 1];
        }
      }
    } else if s != [] {
      var r := [x] + s;
      forall i, j | 0 <= i < j < |r|
        ensures VersionLeq(versionOf(r[i]), versionOf(r[j]))
      {
        if i == 0 {
          assert r[j] == s[j - 1];
          assert VersionLeq(versionOf(s[0]), versionOf(s[j - 1]));
        } else {
          assert r[i] == s[i - 1] && r[j] == s[j - 1];
        }
      }
    }
  }

  /** `sorted(ids, key=by_version)`. */
  function SortByVersion(s: seq<int>, versionOf: int -> Version): (r: seq<int>)
    ensures multiset(r) == multiset(s)
    decreases |s|
  {
    if s == [] then []
    else
      assert s == s[..|s| - 1] + [s[|s| - 1]];
      InsertByVersion(SortByVersion(s[..|s| - 1], versionOf), s[|s| - 1], versionOf)
  }

  /** The sort yields ids in ascending version order. */
  lemma {:induction false} SortByVersionSorted(s: seq<int>, versionOf: int -> Version)
    ensures VersionSorted(SortByVersion(s, versionOf), versionOf)
    decreases |s|
  {
    if s != [] {
      SortByVersionSorted(s[..|s| - 1], versionOf);
      InsertSorted(SortByVersion(s[..|s| - 1], versionOf), s[|s| - 1], versionOf);
    }
  }

  /** The key `_package_key` reads: name and version of the pool's package. */
  datatype PackageKey = PackageKey(name: string, version: Version)

  /** `{self._package_key(id): id for id in ids}`: a later id wins a shared key. */
  function PreferredIds(packages: map<int, Package>, ids: seq<int>): (r: map<PackageKey, int>)
    requires forall i :: 0 <= i < |ids| ==> ids[i] in packages
    decreases |ids|
  {
    if ids == [] then map[]
    else
      var last := ids[|ids| - 1];
      PreferredIds(packages, ids[..|ids| - 1])[PackageKey(packages[last].name, packages[last].version) := last]
  }

  /** Every installed id is listed under its own key, or under it a later installed id of that key. */
  lemma {:induction false} PreferredIdsMeaning(packages: map<int, Package>, ids: seq<int>, k: PackageKey)
    requires forall i :: 0 <= i < |ids| ==> ids[i] in packages
    ensures k in PreferredIds(packages, ids) <==>
              exists i :: 0 <= i < |ids| && PackageKey(packages[ids[i]].name, packages[ids[i]].version) == k
    ensures k in PreferredIds(packages, ids) ==>
              var id := PreferredIds(packages, ids)[k];
              id in ids && PackageKey(packages[id].name, packages[id].version) == k
    decreases |ids|
  {
    if ids != [] {
      var init := ids[..|ids| - 1];
      PreferredIdsMeaning(packages, init, k);
      if k in PreferredIds(packages, init) {
        var i :| 0 <= i < |init| && PackageKey(packages[init[i]].name, packages[init[i]].version) == k;
        assert ids[i] == init[i];
        assert PreferredIds(packages, init)[k] in init;
      }
      if exists i :: 0 <= i < |ids| && PackageKey(packages[ids[i]].name, packages[ids[i]].version) == k {
        var i :| 0 <= i < |ids| && PackageKey(packages[ids[i]].name, packages[ids[i]].version) == k;
        if i < |ids| - 1 {
          assert init[i] == ids[i];
        }
      }
    }
  }

  // ---------------------------------------------------------------------
  // The variable-to-clauses table
  // ---------------------------------------------------------------------

  /** One clause entered under each of its variables. */
  method AddToTable(table: map<int, seq<seq<int>>>, c: seq<int>) returns (t: map<int, seq<seq<int>>>)
    ensures forall v :: v in t <==> v in table || v in Vars(c)
    ensures forall v, d :: d in ClausesOf(t, v) <==> d in ClausesOf(table, v) || (d == c && v in Vars(c))
  {
    t := table;
    for j := 0 to |c|
      invariant forall v :: v in t <==> v in table || v in Vars(c[..j])
      invariant forall v, d :: d in ClausesOf(t, v) <==> d in ClausesOf(table, v) || (d == c && v in Vars(c[..j]))
    {
      var v := Abs(c[j]);
      assert c[..j + 1] == c[..j] + [c[j]];
      assert Vars(c[..j + 1]) == Vars(c[..j]) + {v};
      ghost var t0 := t;
      t := t[v := ClausesOf(t, v) + [c]];
      assert ClausesOf(t, v) == ClausesOf(t0, v) + [c];
      assert forall w :: w != v ==> ClausesOf(t, w) == ClausesOf(t0, w);
    }
    assert c[..|c|] == c;
  }

  /** The variables of one more clause. */
  lemma AllVarsSnoc(cs: seq<seq<int>>, c: seq<int>)
    ensures forall v :: v in AllVars(cs + [c]) <==> v in AllVars(cs) || v in Vars(c)
  {
    var cs1 := cs + [c];
    forall v
      ensures v in AllVars(cs1) <==> v in AllVars(cs) || v in Vars(c)
    {
      if v in Vars(c) {
        var l :| l in c && Abs(l) == v;
        assert cs1[|cs|] == c;
      }
      if v in AllVars(cs1) && v !in Vars(c) {
        var k, l :| 0 <= k < |cs1| && l in cs1[k] && Abs(l) == v;
        assert cs[k] == cs1[k];
      }
      if v in AllVars(cs) {
        var k, l :| 0 <= k < |cs| && l in cs[k] && Abs(l) == v;
        assert cs1[k] == cs[k];
      }
    }
  }

  /**
   * `_build_id_to_clauses`, the table: each variable of the clauses maps to
   * the clauses that mention it; nothing else is a key.
   */
  method ClauseTable(clauses: seq<seq<int>>) returns (table: map<int, seq<seq<int>>>)
    ensures forall v :: v in table <==> v in AllVars(clauses)
    ensures forall v, c :: c in ClausesOf(table, v) <==> c in clauses && v in Vars(c)
  {
    table := map[];
    for i := 0 to |clauses|
      invariant forall v :: v in table <==> v in AllVars(clauses[..i])
      invariant forall v, c :: c in ClausesOf(table, v) <==> c in clauses[..i] && v in Vars(c)
    {
      table := AddToTable(table, clauses[i]);
      assert clauses[..i + 1] == clauses[..i] + [clauses[i]];
      AllVarsSnoc(clauses[..i], clauses[i]);
    }
    assert clauses[..|clauses|] == clauses;
  }

  /** The clauses filed under any of the keys. */
  ghost function Touched(table: map<int, seq<seq<int>>>, keys: set<int>): set<seq<int>>
  {
    set k, c | k in keys && c in ClausesOf(table, k) :: c
  }

  /** Touching one more key touches the clauses filed under it. */
  lemma TouchedGrow(table: map<int, seq<seq<int>>>, keys: set<int>, key: int)
    ensures forall c :: c in Touched(table, keys + {key}) <==> c in Touched(table, keys) || c in ClausesOf(table, key)
  {
  }

  /** The variables of the unsatisfied clauses that are still unassigned: the decision set. */
  ghost predicate DecisionSetOf(decisionSet: set<int>, unsatisfied: set<seq<int>>, a: Assignments)
  {
    forall v :: v in decisionSet <==> (exists c :: c in unsatisfied && v in Vars(c)) && !Assigned(a, v)
  }

  /** Some member of `ids` is unassigned. */
  predicate SomeUnassigned(ids: set<int>, a: Assignments)
  {
    exists x :: x in ids && !Assigned(a, x)
  }

  /**
   * The first two tiers give nothing: no installed id is unassigned (or
   * installed ids are not preferred) and every requirement is assigned.
   */
  predicate EarlyTiersEmpty(preferInstalled: bool, installedIds: seq<int>, requirements: set<int>, a: Assignments)
  {
    (!preferInstalled || FirstUnassigned(installedIds, a).None?) && !SomeUnassigned(requirements, a)
  }

  /**
   * The last tiers, after a refresh: the newest unassigned id of the
   * decision set, else the newest unassigned id of all the clauses'
   * variables, else none.
   */
  ghost predicate RefreshedChoice(candidate: Option<int>, decisionSet: set<int>, allIds: set<int>,
                                  a: Assignments, versionOf: int -> Version)
  {
    if SomeUnassigned(decisionSet, a) then candidate.Some? && IsBest(candidate.value, decisionSet, a, versionOf)
    else if SomeUnassigned(allIds, a) then candidate.Some? && IsBest(candidate.value, allIds, a, versionOf)
    else candidate.None?
  }

  /** The refreshed unsatisfied set: touched clauses refiled by their standing, the others kept. */
  ghost predicate RefiledTouched(unsatisfied: set<seq<int>>, before: set<seq<int>>,
                                 table: map<int, seq<seq<int>>>, keys: set<int>, a: Assignments)
  {
    forall c :: c in unsatisfied <==> if c in Touched(table, keys) then !Satisfied(c, a) else c in before
  }

  class UndeterminedClausePolicy {
    /** The pool's packages by id (`_id_to_package`), read for a package's name and version. */
    var packages: map<int, Package>
    /** `pkg_id_to_version`: the version of an id's package. */
    var versionOf: int -> Version
    var preferInstalled: bool
    var installedIds: seq<int>
    var preferredPackageIds: map<PackageKey, int>
    var decisionSet: set<int>
    var requirements: set<int>
    var unsatisfiedClauses: set<seq<int>>
    var idToClauses: map<int, seq<seq<int>>>
    /** The table is a `defaultdict` until first rebuilt, then a plain `dict`. */
    var idToClausesIsDefault: bool
    var allIds: set<int>

    /**
     * `__init__`: the installed ids sorted by version, and the installed id
     * preferred for each name and version. The installed ids are pool ids.
     */
    constructor (packages: map<int, Package>, versionOf: int -> Version, installed: seq<int>, preferInstalled: bool)
      requires forall i :: 0 <= i < |installed| ==> installed[i] in packages
      ensures this.packages == packages && this.versionOf == versionOf && this.preferInstalled == preferInstalled
      ensures VersionSorted(installedIds, versionOf) && multiset(installedIds) == multiset(installed)
      ensures forall i :: 0 <= i < |installedIds| ==> installedIds[i] in packages
      ensures preferredPackageIds == PreferredIds(packages, installedIds)
      ensures decisionSet == {} && requirements == {} && unsatisfiedClauses == {} && allIds == {}
      ensures idToClauses == map[] && idToClausesIsDefault
    {
      this.packages := packages;
      this.versionOf := versionOf;
      this.preferInstalled := preferInstalled;
      var sorted := SortByVersion(installed, versionOf);
      SortByVersionSorted(installed, versionOf);
      forall i | 0 <= i < |sorted|
        ensures sorted[i] in packages
      {
        assert sorted[i] in multiset(installed);
      }
      installedIds := sorted;
      preferredPackageIds := PreferredIds(packages, sorted);
      decisionSet := {};
      requirements := {};
      unsatisfiedClauses := {};
      idToClauses := map[];
      idToClausesIsDefault := true;
      allIds := {};
    }

    /** `add_requirements`. */
    method AddRequirements(ids: seq<int>)
      modifies this
      ensures requirements == old(requirements) + set x | x in ids
      ensures unchanged(this`decisionSet, this`unsatisfiedClauses, this`idToClauses, this`allIds)
      ensures unchanged(this`idToClausesIsDefault, this`installedIds, this`preferredPackageIds)
      ensures unchanged(this`packages, this`versionOf, this`preferInstalled)
    {
      requirements := requirements + set x | x in ids;
    }

    /** `_build_id_to_clauses`: the new table, and every variable of the clauses as `_all_ids`. */
    method BuildIdToClauses(clauses: seq<seq<int>>) returns (table: map<int, seq<seq<int>>>)
      modifies this`allIds
      ensures forall v :: v in table <==> v in AllVars(clauses)
      ensures forall v, c :: c in ClausesOf(table, v) <==> c in clauses && v in Vars(c)
      ensures forall v :: v in allIds <==> v in AllVars(clauses)
    {
      table := ClauseTable(clauses);
      allIds := table.Keys;
    }

    /**
     * `_update_cache_from_assignments`: each clause filed under a changed key
     * leaves the unsatisfied set when some literal is True and joins it
     * otherwise. A changed key missing from a plain-dict table is a
     * KeyError; a `defaultdict` files it with no clauses.
     */
    method UpdateCacheFromAssignments(a: Assignments, changed: set<int>) returns (error: Option<Error>)
      modifies this`unsatisfiedClauses, this`idToClauses
      ensures error.Some? <==> !idToClausesIsDefault && exists k :: k in changed && k !in old(idToClauses)
      ensures error.Some? ==> error.value == KeyError
      ensures error.None? ==>
                (forall c :: c in unsatisfiedClauses <==>
                   if c in Touched(old(idToClauses), changed) then !Satisfied(c, a) else c in old(unsatisfiedClauses))
                && (forall k :: k in idToClauses <==> k in old(idToClauses) || k in changed)
                && (forall k :: ClausesOf(idToClauses, k) == ClausesOf(old(idToClauses), k))
    {
      if !idToClausesIsDefault && exists k :: k in changed && k !in idToClauses {
        return Some(KeyError);
      }
      var todo := changed;
      while todo != {}
        invariant todo <= changed
        invariant forall c :: c in unsatisfiedClauses <==>
                    if c in Touched(old(idToClauses), changed - todo) then !Satisfied(c, a) else c in old(unsatisfiedClauses)
        invariant forall k :: k in idToClauses <==> k in old(idToClauses) || k in changed - todo
        invariant forall k :: ClausesOf(idToClauses, k) == ClausesOf(old(idToClauses), k)
        decreases todo
      {
        NonEmptyHasElement(todo);
        var key :| key in todo;
        var clauses := ClausesOf(idToClauses, key);
        idToClauses := idToClauses[key := clauses];
        unsatisfiedClauses := Refiled(unsatisfiedClauses, clauses, a);
        TouchedGrow(old(idToClauses), changed - todo, key);
        assert changed - (todo - {key}) == (changed - todo) + {key};
        todo := todo - {key};
      }
      return None;
    }

    /**
     * `_refresh_decision_set`: the cache brought up to date, then the
     * unassigned variables of the unsatisfied clauses.
     */
    method RefreshDecisionSet(a: Assignments, changed: set<int>) returns (error: Option<Error>)
      modifies this`unsatisfiedClauses, this`idToClauses, this`decisionSet
      ensures error.Some? <==> !idToClausesIsDefault && exists k :: k in changed && k !in old(idToClauses)
      ensures error.Some? ==> error.value == KeyError
      ensures error.None? ==>
                (forall c :: c in unsatisfiedClauses <==>
                   if c in Touched(old(idToClauses), changed) then !Satisfied(c, a) else c in old(unsatisfiedClauses))
                && DecisionSetOf(decisionSet, unsatisfiedClauses, a)
                && (forall k :: ClausesOf(idToClauses, k) == ClausesOf(old(idToClauses), k))
    {
      error := UpdateCacheFromAssignments(a, changed);
      if error.Some? {
        return;
      }
      decisionSet := set c, l | c in unsatisfiedClauses && l in c && !Assigned(a, Abs(l)) :: Abs(l);
      assert forall v :: v in decisionSet <==> (exists c :: c in unsatisfiedClauses && v in Vars(c)) && !Assigned(a, v) by {
        forall v | (exists c :: c in unsatisfiedClauses && v in Vars(c)) && !Assigned(a, v)
          ensures v in decisionSet
        {
          var c :| c in unsatisfiedClauses && v in Vars(c);
          var l :| l in c && Abs(l) == v;
        }
      }
    }

    /** `_best_candidate` with `update=True` on the decision set: the set keeps only its unassigned ids. */
    method BestOfDecisionSet(a: Assignments) returns (r: Option<int>)
      modifies this`decisionSet
      ensures decisionSet == Unassigned(old(decisionSet), a)
      ensures r.None? <==> forall x :: x in old(decisionSet) ==> Assigned(a, x)
      ensures r.Some? ==> IsBest(r.value, old(decisionSet), a, versionOf)
    {
      var ids := decisionSet;
      decisionSet := Unassigned(ids, a);
      r := Best(ids, a, versionOf);
    }

    /**
     * The candidate of `get_next_package_id`, before the installed-id
     * substitution: the first unassigned installed id when preferred, else
     * the newest unassigned requirement, else the newest unassigned id of
     * the decision set (which keeps only its unassigned ids), else, after
     * a refresh with the changelog still pending, of the decision set
     * again, else of all the clauses' variables.
     */
    method ChooseCandidate(a: Assignments, pending: set<int>) returns (error: Option<Error>, candidate: Option<int>)
      modifies this`unsatisfiedClauses, this`idToClauses, this`decisionSet
      ensures error.Some? ==> error.value == KeyError && candidate.None?
      ensures error.Some? <==>
                EarlyTiersEmpty(preferInstalled, installedIds, requirements, a) && !SomeUnassigned(old(decisionSet), a)
                && !idToClausesIsDefault && exists k :: k in pending && k !in old(idToClauses)
      ensures !EarlyTiersEmpty(preferInstalled, installedIds, requirements, a) ==>
                unchanged(this`decisionSet, this`unsatisfiedClauses, this`idToClauses)
      ensures EarlyTiersEmpty(preferInstalled, installedIds, requirements, a) && SomeUnassigned(old(decisionSet), a) ==>
                candidate.Some? && IsBest(candidate.value, old(decisionSet), a, versionOf)
                && decisionSet == Unassigned(old(decisionSet), a)
                && unchanged(this`unsatisfiedClauses, this`idToClauses)
      ensures error.None? && EarlyTiersEmpty(preferInstalled, installedIds, requirements, a)
                && !SomeUnassigned(old(decisionSet), a) ==>
                RefiledTouched(unsatisfiedClauses, old(unsatisfiedClauses), old(idToClauses), pending, a)
                && DecisionSetOf(decisionSet, unsatisfiedClauses, a)
                && (forall k :: ClausesOf(idToClauses, k) == ClausesOf(old(idToClauses), k))
                && RefreshedChoice(candidate, decisionSet, allIds, a, versionOf)
      ensures error.None? && candidate.Some? ==> !Assigned(a, candidate.value)
      ensures error.None? && preferInstalled && FirstUnassigned(installedIds, a).Some? ==>
                candidate == FirstUnassigned(installedIds, a)
      ensures error.None? && (!preferInstalled || FirstUnassigned(installedIds, a).None?)
                && (exists x :: x in requirements && !Assigned(a, x)) ==>
                candidate.Some? && IsBest(candidate.value, requirements, a, versionOf)
      ensures error.None? && candidate.None? ==>
                (preferInstalled ==> FirstUnassigned(installedIds, a).None?)
                && (forall x :: x in requirements ==> Assigned(a, x))
                && (forall x :: x in allIds ==> Assigned(a, x))
    {
      error := None;
      candidate := None;
      if preferInstalled {
        candidate := BestSortedCandidate(installedIds, a);
        FirstUnassignedMeaning(installedIds, a);
      }
      if candidate.None? {
        candidate := Best(requirements, a, versionOf);
      }
      if candidate.None? {
        candidate := BestOfDecisionSet(a);
      }
      if candidate.None? {
        error := RefreshDecisionSet(a, pending);
        if error.Some? {
          return error, None;
        }
        candidate := Best(decisionSet, a, versionOf);
        if candidate.None? {
          candidate := Best(allIds, a, versionOf);
        }
      }
    }

    /**
     * `get_next_package_id`. With new keys the table is rebuilt from the
     * clauses and the decision set refreshed, which consumes the changelog;
     * otherwise the changelog is still there for the second refresh. The
     * candidate is the first unassigned installed id when installed ids are
     * preferred, else the newest unassigned requirement, else the newest
     * unassigned id of the decision set, else, after a refresh, of the
     * decision set again, else of all the clauses' variables. The source
     * asserts it unassigned, which holds. Without the installed preference
     * the candidate is replaced by the installed id of the same name and
     * version, if any; looking up a None candidate's package raises.
     */
    method GetNextPackageId(a: Assignments, changed: set<int>, newKeys: bool, clauses: seq<seq<int>>)
        returns (r: Result<Option<int>>, candidate: Option<int>)
      modifies this`unsatisfiedClauses, this`idToClauses, this`idToClausesIsDefault, this`decisionSet, this`allIds
      ensures r.Err? ==> r.error == KeyError
      ensures r.Ok? ==> candidate.Some? ==> !Assigned(a, candidate.value)
      ensures r.Ok? && preferInstalled ==> r.value == candidate
      ensures r.Ok? && !preferInstalled ==>
                candidate.Some? && candidate.value in packages
                && var p := packages[candidate.value];
                   r.value == Some(if PackageKey(p.name, p.version) in preferredPackageIds
                                   then preferredPackageIds[PackageKey(p.name, p.version)]
                                   else candidate.value)
      ensures r.Ok? && preferInstalled && FirstUnassigned(installedIds, a).Some? ==>
                candidate == FirstUnassigned(installedIds, a)
      ensures r.Ok? && (!preferInstalled || FirstUnassigned(installedIds, a).None?)
                && (exists x :: x in requirements && !Assigned(a, x)) ==>
                candidate.Some? && IsBest(candidate.value, requirements, a, versionOf)
      ensures r.Ok? && candidate.None? ==>
                (preferInstalled ==> FirstUnassigned(installedIds, a).None?)
                && (forall x :: x in requirements ==> Assigned(a, x))
                && (forall x :: x in allIds ==> Assigned(a, x))
      ensures newKeys ==> forall v :: v in allIds <==> v in AllVars(clauses)
      ensures !newKeys ==> allIds == old(allIds)
      ensures newKeys ==>
                if exists k :: k in changed && k !in AllVars(clauses) then r == Err(KeyError) && candidate.None?
                else (forall v, c :: c in ClausesOf(idToClauses, v) <==> c in clauses && v in Vars(c))
                     && RefiledTouched(unsatisfiedClauses, old(unsatisfiedClauses), idToClauses, changed, a)
                     && DecisionSetOf(decisionSet, unsatisfiedClauses, a)
                     && (EarlyTiersEmpty(preferInstalled, installedIds, requirements, a) ==>
                           RefreshedChoice(candidate, decisionSet, allIds, a, versionOf))
      ensures !newKeys && EarlyTiersEmpty(preferInstalled, installedIds, requirements, a)
                && SomeUnassigned(old(decisionSet), a) ==>
                candidate.Some? && IsBest(candidate.value, old(decisionSet), a, versionOf)
      ensures !newKeys && EarlyTiersEmpty(preferInstalled, installedIds, requirements, a)
                && !SomeUnassigned(old(decisionSet), a) ==>
                if !old(idToClausesIsDefault) && exists k :: k in changed && k !in old(idToClauses)
                then r == Err(KeyError) && candidate.None?
                else RefiledTouched(unsatisfiedClauses, old(unsatisfiedClauses), old(idToClauses), changed, a)
                     && DecisionSetOf(decisionSet, unsatisfiedClauses, a)
                     && RefreshedChoice(candidate, decisionSet, allIds, a, versionOf)
    {
      var pending := changed;
      if newKeys {
        idToClauses := BuildIdToClauses(clauses);
        idToClausesIsDefault := false;
        var e := RefreshDecisionSet(a, changed);
        if e.Some? {
          return Err(e.value), None;
        }
        pending := {};
      }
      var e;
      e, candidate := ChooseCandidate(a, pending);
      if e.Some? {
        return Err(e.value), None;
      }
      assert candidate.Some? ==> !Assigned(a, candidate.value);
      r := Ok(candidate);
      if !preferInstalled {
        if candidate.None? || candidate.value !in packages {
          return Err(KeyError), candidate;
        }
        var p := packages[candidate.value];
        var key := PackageKey(p.name, p.version);
        r := Ok(Some(if key in preferredPackageIds then preferredPackageIds[key] else candidate.value));
      }
    }
  }

  /** The unsatisfied set after refiling `clauses`: those with a True literal leave, the others join. */
  function Refiled(unsatisfied: set<seq<int>>, clauses: seq<seq<int>>, a: Assignments): (r: set<seq<int>>)
    ensures forall c :: c in r <==> if c in clauses then !Satisfied(c, a) else c in unsatisfied
  {
    (unsatisfied - set c | c in clauses && Satisfied(c, a)) + set c | c in clauses && !Satisfied(c, a)
  }
}
