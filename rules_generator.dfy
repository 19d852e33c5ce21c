/**
 * `PackageRule` and `RulesGenerator` (simplesat/rules_generator.py): package
 * metadata and the jobs of a request turned into clauses over package ids.
 *
 * A rule's literals are kept sorted and two rules are the same rule when
 * their literals are equal, whatever their reason or requirements. The
 * generator keeps its rules in insertion order without repeats, and walks
 * the dependency graph from a package with a work queue, handling each
 * package id at most once.
 */
module RulesGenerators {
  import opened Wrappers
  import opened Kinds
  import opened Requirements
  import opened Packages
  import opened Repositories
  import opened Pools
  import opened Requests
  import opened SeqUtil
  import opened IntSets

  datatype RuleType =
    | InternalAllowUpdate
    | JobInstall
    | JobRemove
    | JobUpdate
    | JobConstrain
    | PackageRequires
    | PackageConflicts
    | PackageSameName
    | PackageImplicitObsoletes
    | PackageInstalled
    | Internal

  /** A clause with the reason it was made and the requirements that explain it. */
  datatype PackageRule = PackageRule(literals: seq<int>, reason: RuleType, requirements: seq<Requirement>)

  /** `PackageRule(literals, reason, requirements)`: the literals are sorted; no requirements is an empty list. */
  function NewRule(literals: seq<int>, reason: RuleType, requirements: Option<seq<Requirement>>): (r: PackageRule)
    ensures Sorted(r.literals) && multiset(r.literals) == multiset(literals)
    ensures r.reason == reason
  {
    PackageRule(SortInts(literals), reason, if requirements.Some? then requirements.value else [])
  }

  /** `__eq__`: rules are compared (and hashed) by their literals alone. */
  predicate SameRule(a: PackageRule, b: PackageRule)
  {
    a.literals == b.literals
  }

  /** Two new rules are the same rule exactly when they were given the same literals in some order. */
  lemma SameRuleIffPermuted(a: seq<int>, b: seq<int>, ra: RuleType, rb: RuleType,
                            qa: Option<seq<Requirement>>, qb: Option<seq<Requirement>>)
    ensures SameRule(NewRule(a, ra, qa), NewRule(b, rb, qb)) <==> multiset(a) == multiset(b)
  {
    if multiset(a) == multiset(b) {
      SortedUnique(NewRule(a, ra, qa).literals, NewRule(b, rb, qb).literals);
    }
  }

  /** `is_assertion`: a rule of a single literal. */
  predicate IsAssertion(r: PackageRule)
  {
    |r.literals| == 1
  }

  /** A new rule is an assertion exactly when it was given one literal. */
  lemma IsAssertionOfNew(literals: seq<int>, reason: RuleType, requirements: Option<seq<Requirement>>)
    ensures IsAssertion(NewRule(literals, reason, requirements)) <==> |literals| == 1
  {
    assert |multiset(NewRule(literals, reason, requirements).literals)| == |multiset(literals)|;
  }

  // ---------------------------------------------------------------------
  // The rule set
  // ---------------------------------------------------------------------

  /** No two rules of the set are the same rule. */
  predicate Distinct(rules: seq<PackageRule>)
  {
    forall i, j :: 0 <= i < j < |rules| ==> rules[i].literals != rules[j].literals
  }

  /** The set holds a rule with these literals. */
  predicate HasLiterals(rules: seq<PackageRule>, literals: seq<int>)
  {
    exists i :: 0 <= i < |rules| && rules[i].literals == literals
  }

  /** A rule held stays held when the set grows at the end. */
  lemma HasLiteralsGrow(a: seq<PackageRule>, b: seq<PackageRule>, literals: seq<int>)
    requires a <= b && HasLiterals(a, literals)
    ensures HasLiterals(b, literals)
  {
    var i :| 0 <= i < |a| && a[i].literals == literals;
    assert b[i] == a[i];
  }

  /**
   * `_add_rule` on the ordered set: a rule already there (by literals) is
   * not added again, so the first one inserted keeps its reason and
   * requirements; a new rule goes at the end.
   */
  function InsertRule(rules: seq<PackageRule>, rule: PackageRule): (r: seq<PackageRule>)
    ensures rules <= r && |r| <= |rules| + 1
    ensures HasLiterals(r, rule.literals)
    ensures HasLiterals(rules, rule.literals) ==> r == rules
    ensures !HasLiterals(rules, rule.literals) ==> r[|rules|] == rule
    ensures Distinct(rules) ==> Distinct(r)
  {
    if exists i :: 0 <= i < |rules| && rules[i].literals == rule.literals then rules
    else
      var r := rules + [rule];
      assert r[|rules|].literals == rule.literals;
      r
  }

  // ---------------------------------------------------------------------
  // Rule constructors
  // ---------------------------------------------------------------------

  /** The packages of `ps` other than `x`, in order. */
  function Without(ps: seq<Package>, x: Package): (r: seq<Package>)
    ensures forall q :: q in r <==> q in ps && q != x
    decreases |ps|
  {
    if ps == [] then []
    else
      var init := Without(ps[..|ps| - 1], x);
      assert forall q :: q in ps <==> q in ps[..|ps| - 1] || q == ps[|ps| - 1];
      if ps[|ps| - 1] != x then init + [ps[|ps| - 1]] else init
  }

  /** `[pool.package_id(p) for p in ps]`: ValueError when one of them is not in the pool. */
  function IdsOf(pool: Pool, ps: seq<Package>): (r: Result<seq<int>>)
    requires pool.Valid()
    reads pool
    ensures r.Ok? <==> forall q :: q in ps ==> q in pool.added
    ensures r.Ok? ==> |r.value| == |ps| && forall i :: 0 <= i < |ps| ==> pool.PackageId(ps[i]) == Ok(r.value[i])
    ensures r.Err? ==> r.error == ValueError
    decreases |ps|
  {
    if ps == [] then Ok([])
    else
      assert forall q :: q in ps <==> q in ps[..|ps| - 1] || q == ps[|ps| - 1];
      var init :- IdsOf(pool, ps[..|ps| - 1]);
      var id :- pool.PackageId(ps[|ps| - 1]);
      Ok(init + [id])
  }

  /** The literals of `_create_dependency_rule`: the package negated, then each candidate other than the package. */
  function DependencyLiterals(pool: Pool, package: Package, candidates: seq<Package>): (r: Result<seq<int>>)
    requires pool.Valid()
    reads pool
    ensures r.Ok? <==> package in pool.added && forall d :: d in candidates && d != package ==> d in pool.added
    ensures r.Err? ==> r.error == ValueError
  {
    var id :- pool.PackageId(package);
    var ids :- IdsOf(pool, Without(candidates, package));
    Ok([-id] + ids)
  }

  /**
   * A dependency clause reads "not the package, or one of its candidates":
   * its one negative literal is the package's, and its positive literals
   * are exactly the ids of the candidates other than the package itself.
   */
  lemma DependencyLiteralsMeaning(pool: Pool, package: Package, candidates: seq<Package>, l: int)
    requires pool.Valid() && DependencyLiterals(pool, package, candidates).Ok?
    ensures DependencyLiterals(pool, package, candidates).value[0] == -pool.PackageId(package).value
    ensures l in DependencyLiterals(pool, package, candidates).value[1..] <==>
              l > 0 && exists d :: d in candidates && d != package && pool.PackageId(d) == Ok(l)
  {
    var lits := DependencyLiterals(pool, package, candidates).value;
    var others := Without(candidates, package);
    assert lits[1..] == IdsOf(pool, others).value;
    IdsOfMembers(pool, others, l);
    if exists d :: d in candidates && d != package && pool.PackageId(d) == Ok(l) {
      var d :| d in candidates && d != package && pool.PackageId(d) == Ok(l);
      assert d in others;
    }
    if exists d :: d in others && pool.PackageId(d) == Ok(l) {
      var d :| d in others && pool.PackageId(d) == Ok(l);
      assert d in candidates && d != package;
    }
  }

  /** An id is among `IdsOf(pool, ps)` exactly when it is the id of a package of `ps`. */
  lemma IdsOfMembers(pool: Pool, ps: seq<Package>, l: int)
    requires pool.Valid() && IdsOf(pool, ps).Ok?
    ensures l in IdsOf(pool, ps).value <==> exists d :: d in ps && pool.PackageId(d) == Ok(l)
  {
    var ids := IdsOf(pool, ps).value;
    if l in ids {
      var i :| 0 <= i < |ids| && ids[i] == l;
      assert ps[i] in ps;
    }
    if exists d :: d in ps && pool.PackageId(d) == Ok(l) {
      var d :| d in ps && pool.PackageId(d) == Ok(l);
      var i :| 0 <= i < |ps| && ps[i] == d;
      assert ids[i] == l;
    }
  }

  /** The rule `_create_dependency_rule` builds. */
  function DependencyRule(pool: Pool, package: Package, candidates: seq<Package>, reason: RuleType,
                          requirements: Option<seq<Requirement>>): (r: Result<PackageRule>)
    requires pool.Valid()
    reads pool
    ensures r.Ok? <==> DependencyLiterals(pool, package, candidates).Ok?
    ensures r.Ok? ==> multiset(r.value.literals) == multiset(DependencyLiterals(pool, package, candidates).value)
  {
    var literals :- DependencyLiterals(pool, package, candidates);
    Ok(NewRule(literals, reason, requirements))
  }

  /**
   * `_create_conflicts_rule`: nothing when a package would conflict with
   * itself, otherwise the clause "not both", one negated id each.
   */
  function ConflictRule(pool: Pool, issuer: Package, provider: Package, reason: RuleType,
                        requirements: Option<seq<Requirement>>): (r: Result<Option<PackageRule>>)
    requires pool.Valid()
    reads pool
    ensures issuer == provider ==> r == Ok(None)
    ensures issuer != provider ==> (r.Ok? <==> issuer in pool.added && provider in pool.added)
  {
    if issuer == provider then Ok(None)
    else if pool.PackageId(issuer).Err? || pool.PackageId(provider).Err? then Err(ValueError)
    else
      var a := pool.PackageId(issuer).value;
      var b := pool.PackageId(provider).value;
      Ok(Some(NewRule([-a, -b], reason, requirements)))
  }

  /** A conflict clause between two packages is the sorted pair of their negated ids. */
  lemma ConflictRuleMeaning(pool: Pool, issuer: Package, provider: Package, reason: RuleType,
                            requirements: Option<seq<Requirement>>)
    requires pool.Valid() && issuer != provider && ConflictRule(pool, issuer, provider, reason, requirements).Ok?
    ensures ConflictRule(pool, issuer, provider, reason, requirements).value.Some?
    ensures ConflictRule(pool, issuer, provider, reason, requirements).value.value.literals ==
              ConflictLiterals(pool, issuer, provider)
    ensures multiset(ConflictLiterals(pool, issuer, provider)) ==
              multiset{-pool.PackageId(issuer).value, -pool.PackageId(provider).value}
  {
    var a := pool.PackageId(issuer).value;
    var b := pool.PackageId(provider).value;
    assert multiset([-a, -b]) == multiset{-a, -b};
  }

  /** The literals of a conflict rule between two different packages of the pool. */
  function ConflictLiterals(pool: Pool, issuer: Package, provider: Package): seq<int>
    requires pool.Valid() && issuer in pool.added && provider in pool.added
    reads pool
  {
    SortInts([-pool.PackageId(issuer).value, -pool.PackageId(provider).value])
  }

  /** `_create_install_one_of_rule`: the clause "one of these packages". */
  function InstallOneOfRule(pool: Pool, packages: seq<Package>, reason: RuleType,
                            requirements: Option<seq<Requirement>>): (r: Result<PackageRule>)
    requires pool.Valid()
    reads pool
    ensures r.Ok? <==> forall q :: q in packages ==> q in pool.added
    ensures r.Ok? ==> multiset(r.value.literals) == multiset(IdsOf(pool, packages).value)
  {
    var ids :- IdsOf(pool, packages);
    Ok(NewRule(ids, reason, requirements))
  }

  /**
   * An install-one-of clause has one positive literal per package, and
   * its literals are exactly the ids of the packages.
   */
  lemma InstallOneOfMeaning(pool: Pool, packages: seq<Package>, reason: RuleType,
                            requirements: Option<seq<Requirement>>, l: int)
    requires pool.Valid() && InstallOneOfRule(pool, packages, reason, requirements).Ok?
    ensures |InstallOneOfRule(pool, packages, reason, requirements).value.literals| == |packages|
    ensures l in InstallOneOfRule(pool, packages, reason, requirements).value.literals <==>
              l > 0 && exists q :: q in packages && pool.PackageId(q) == Ok(l)
  {
    var lits := InstallOneOfRule(pool, packages, reason, requirements).value.literals;
    var ids := IdsOf(pool, packages).value;
    assert |multiset(lits)| == |multiset(ids)|;
    assert l in lits <==> l in multiset(ids);
    if l in ids {
      var i :| 0 <= i < |ids| && ids[i] == l;
      assert packages[i] in packages;
    }
    if exists q :: q in packages && pool.PackageId(q) == Ok(l) {
      var q :| q in packages && pool.PackageId(q) == Ok(l);
      var i :| 0 <= i < |packages| && packages[i] == q;
      assert ids[i] == l;
    }
  }

  /** `_create_remove_rule`: the clause "not this package". */
  function RemoveRule(pool: Pool, package: Package, reason: RuleType,
                      requirements: Option<seq<Requirement>>): (r: Result<PackageRule>)
    requires pool.Valid()
    reads pool
    ensures r.Ok? <==> package in pool.added
    ensures r.Ok? ==> r.value.literals == [-pool.PackageId(package).value] && IsAssertion(r.value)
  {
    var id :- pool.PackageId(package);
    Ok(NewRule([-id], reason, requirements))
  }

  // ---------------------------------------------------------------------
  // The update target
  // ---------------------------------------------------------------------

  /** The key an update job ranks candidates by: the version, then whether it is installed. */
  datatype Rank = Rank(version: Version, installed: bool)

  /** Python's tuple order on ranks, `False < True`. */
  predicate RankLess(a: Rank, b: Rank)
  {
    VersionLess(a.version, b.version) || (a.version == b.version && !a.installed && b.installed)
  }

  /** The rank order is a strict total order. */
  lemma RankOrder(a: Rank, b: Rank, c: Rank)
    ensures !RankLess(a, a)
    ensures RankLess(a, b) && RankLess(b, c) ==> RankLess(a, c)
    ensures a == b || RankLess(a, b) || RankLess(b, a)
  {
  }

  /** `max(...)`: the first index of greatest rank. */
  function GreatestIndex(ranks: seq<Rank>): (i: nat)
    requires ranks != []
    ensures i < |ranks|
    ensures forall k :: 0 <= k < |ranks| ==> !RankLess(ranks[i], ranks[k])
    ensures forall k :: 0 <= k < i ==> RankLess(ranks[k], ranks[i])
    decreases |ranks|
  {
    if |ranks| == 1 then 0
    else
      var i := GreatestIndex(ranks[..|ranks| - 1]);
      assert forall k :: 0 <= k < |ranks| - 1 ==> ranks[k] == ranks[..|ranks| - 1][k];
      if RankLess(ranks[i], ranks[|ranks| - 1]) then
        assert forall k :: 0 <= k < |ranks| - 1 ==> RankLess(ranks[k], ranks[|ranks| - 1]) by {
          forall k | 0 <= k < |ranks| - 1 ensures RankLess(ranks[k], ranks[|ranks| - 1]) {
            RankOrder(ranks[k], ranks[i], ranks[|ranks| - 1]);
          }
        }
        |ranks| - 1
      else
        RankOrder(ranks[i], ranks[|ranks| - 1], ranks[i]);
        i
  }

  /** The ranks of packages with ids `ids`, given the installed ids. */
  function Ranks(packages: seq<Package>, ids: seq<int>, installedIds: set<int>): (r: seq<Rank>)
    requires |ids| == |packages|
    ensures |r| == |packages|
    ensures forall i :: 0 <= i < |packages| ==>
      r[i].version == packages[i].version && (r[i].installed <==> ids[i] in installedIds)
    decreases |packages|
  {
    if packages == [] then []
    else
      var n := |packages| - 1;
      Ranks(packages[..n], ids[..n], installedIds) + [Rank(packages[n].version, ids[n] in installedIds)]
  }

  /**
   * The package an update job must install (`max` with the update key):
   * the newest version, an installed one winning a tie between equal
   * versions, the first of equals otherwise. ValueError for a package not
   * in the pool.
   */
  function UpdateTarget(pool: Pool, installedIds: set<int>, packages: seq<Package>): (r: Result<Package>)
    requires pool.Valid() && packages != []
    reads pool
    ensures r.Ok? <==> forall q :: q in packages ==> q in pool.added
    ensures r.Ok? ==> r.value in packages
    ensures r.Ok? ==> forall q :: q in packages ==> VersionLeq(q.version, r.value.version)
    ensures r.Ok? ==> forall q :: q in packages && q.version == r.value.version ==>
              (pool.PackageId(q).value in installedIds ==> pool.PackageId(r.value).value in installedIds)
  {
    var ids :- IdsOf(pool, packages);
    var ranks := Ranks(packages, ids, installedIds);
    var i := GreatestIndex(ranks);
    assert forall k :: 0 <= k < |packages| ==> !RankLess(ranks[i], ranks[k]);
    Ok(packages[i])
  }

  /** `set(pool.package_id(p) for p in packages)`. */
  function IdSet(pool: Pool, packages: seq<Package>): (r: Result<set<int>>)
    requires pool.Valid()
    reads pool
    ensures r.Ok? <==> forall q :: q in packages ==> q in pool.added
  {
    var ids :- IdsOf(pool, packages);
    Ok(ElementSet(ids))
  }

  /** The id set holds exactly the ids of the packages. */
  lemma IdSetMeaning(pool: Pool, packages: seq<Package>, id: int)
    requires pool.Valid() && IdSet(pool, packages).Ok?
    ensures id in IdSet(pool, packages).value <==> exists q :: q in packages && pool.PackageId(q) == Ok(id)
  {
    var ids := IdsOf(pool, packages).value;
    if id in ids {
      var i :| 0 <= i < |ids| && ids[i] == id;
      assert packages[i] in packages;
    }
    if exists q :: q in packages && pool.PackageId(q) == Ok(id) {
      var q :| q in packages && pool.PackageId(q) == Ok(id);
      var i :| 0 <= i < |packages| && packages[i] == q;
      assert ids[i] == id;
    }
  }

  /** The ids 1..n a pool of n packages gives out. */
  function AllIds(n: nat): (r: set<int>)
    ensures forall i :: i in r <==> 1 <= i <= n
  {
    if n == 0 then {} else AllIds(n - 1) + {n}
  }

  /** Visiting one more id of the pool leaves fewer to visit. */
  lemma FewerUnvisited(all: set<int>, seen: set<int>, x: int)
    requires x in all && x !in seen
    ensures |all - (seen + {x})| < |all - seen|
  {
    assert all - seen == (all - (seen + {x})) + {x};
  }

  /** Sorting a single literal leaves it alone. */
  lemma SortSingle(x: int)
    ensures SortInts([x]) == [x]
  {
    assert [x][1..] == [];
  }

  // ---------------------------------------------------------------------
  // What a set of rules records
  // ---------------------------------------------------------------------

  /** `pool.what_provides(req)`: the packages of the pool a requirement accepts. */
  ghost function Providers(pool: Pool, req: Requirement): seq<Package>
    reads pool
  {
    Matching(OfName(pool.added, req.name), req)
  }

  /** Every package a pool provides is in the pool. */
  lemma ProvidersInPool(pool: Pool, req: Requirement)
    ensures forall q :: q in Providers(pool, req) ==> q in pool.added && q.name == req.name
  {
  }

  /**
   * The requires clause of one `install_requires` entry of `p`: the entry
   * is a valid constraint tuple, something provides it, and the clause
   * "not p, or one of the providers" is in the set.
   */
  ghost predicate RequiresRecorded(rules: seq<PackageRule>, pool: Pool, versionOf: string -> Result<Version>,
                                   p: Package, t: Value)
    requires pool.Valid()
    reads pool
  {
    var req := FromConstraints(t, versionOf);
    req.Ok? && Providers(pool, req.value) != [] &&
    DependencyLiterals(pool, p, Providers(pool, req.value)).Ok? &&
    HasLiterals(rules, SortInts(DependencyLiterals(pool, p, Providers(pool, req.value)).value))
  }

  /** For each of the first `n` providers other than `p`, the clause "not both" is in the set. */
  ghost predicate ConflictsUpTo(rules: seq<PackageRule>, pool: Pool, p: Package, providers: seq<Package>, n: int)
    requires pool.Valid()
    reads pool
  {
    p in pool.added && 0 <= n <= |providers| &&
    forall k :: 0 <= k < n && providers[k] != p ==>
      providers[k] in pool.added && HasLiterals(rules, ConflictLiterals(pool, p, providers[k]))
  }

  /** For every provider other than `p`, the clause "not both" is in the set. */
  ghost predicate ConflictsRecorded(rules: seq<PackageRule>, pool: Pool, p: Package, providers: seq<Package>)
    requires pool.Valid()
    reads pool
  {
    ConflictsUpTo(rules, pool, p, providers, |providers|)
  }

  /** The conflict clauses of one `conflicts` entry of `p`. */
  ghost predicate ExplicitRecorded(rules: seq<PackageRule>, pool: Pool, versionOf: string -> Result<Version>,
                                   p: Package, t: Value)
    requires pool.Valid()
    reads pool
  {
    var req := FromConstraints(t, versionOf);
    req.Ok? && Providers(pool, req.value) != [] && ConflictsRecorded(rules, pool, p, Providers(pool, req.value))
  }

  /** The requires clauses of the first `n` dependencies of `p`. */
  ghost predicate RequiresUpTo(rules: seq<PackageRule>, pool: Pool, versionOf: string -> Result<Version>, p: Package, n: int)
    requires pool.Valid()
    reads pool
  {
    0 <= n <= |p.installRequires| &&
    forall k :: 0 <= k < n ==> RequiresRecorded(rules, pool, versionOf, p, p.installRequires[k])
  }

  /** The conflict clauses of the first `n` declared conflicts of `p`. */
  ghost predicate ExplicitUpTo(rules: seq<PackageRule>, pool: Pool, versionOf: string -> Result<Version>, p: Package, n: int)
    requires pool.Valid()
    reads pool
  {
    0 <= n <= |p.conflicts| &&
    forall k :: 0 <= k < n ==> ExplicitRecorded(rules, pool, versionOf, p, p.conflicts[k])
  }

  /**
   * All the rules `_add_package_rules` makes for one package: a requires
   * clause per dependency, a conflict with every other package of its name,
   * and the conflicts its metadata declares.
   */
  ghost predicate PackageRecorded(rules: seq<PackageRule>, pool: Pool, versionOf: string -> Result<Version>, p: Package)
    requires pool.Valid()
    reads pool
  {
    RequiresUpTo(rules, pool, versionOf, p, |p.installRequires|)
    && FromString(p.name, versionOf).Ok?
    && ConflictsRecorded(rules, pool, p, Providers(pool, FromString(p.name, versionOf).value))
    && ExplicitUpTo(rules, pool, versionOf, p, |p.conflicts|)
  }

  lemma RequiresGrow(a: seq<PackageRule>, b: seq<PackageRule>, pool: Pool, versionOf: string -> Result<Version>,
                     p: Package, t: Value)
    requires pool.Valid() && a <= b && RequiresRecorded(a, pool, versionOf, p, t)
    ensures RequiresRecorded(b, pool, versionOf, p, t)
  {
    var req := FromConstraints(t, versionOf).value;
    HasLiteralsGrow(a, b, SortInts(DependencyLiterals(pool, p, Providers(pool, req)).value));
  }

  lemma ConflictsGrow(a: seq<PackageRule>, b: seq<PackageRule>, pool: Pool, p: Package, providers: seq<Package>, n: int)
    requires pool.Valid() && a <= b && ConflictsUpTo(a, pool, p, providers, n)
    ensures ConflictsUpTo(b, pool, p, providers, n)
  {
    forall k | 0 <= k < n && providers[k] != p ensures HasLiterals(b, ConflictLiterals(pool, p, providers[k])) {
      HasLiteralsGrow(a, b, ConflictLiterals(pool, p, providers[k]));
    }
  }

  lemma ExplicitGrow(a: seq<PackageRule>, b: seq<PackageRule>, pool: Pool, versionOf: string -> Result<Version>,
                     p: Package, t: Value)
    requires pool.Valid() && a <= b && ExplicitRecorded(a, pool, versionOf, p, t)
    ensures ExplicitRecorded(b, pool, versionOf, p, t)
  {
    var ps := Providers(pool, FromConstraints(t, versionOf).value);
    ConflictsGrow(a, b, pool, p, ps, |ps|);
  }

  /** One more provider handled. */
  lemma ConflictsStep(a: seq<PackageRule>, b: seq<PackageRule>, pool: Pool, p: Package, providers: seq<Package>, i: int)
    requires pool.Valid() && a <= b && ConflictsUpTo(a, pool, p, providers, i) && i < |providers|
    requires providers[i] != p ==> providers[i] in pool.added && HasLiterals(b, ConflictLiterals(pool, p, providers[i]))
    ensures ConflictsUpTo(b, pool, p, providers, i + 1)
  {
    ConflictsGrow(a, b, pool, p, providers, i);
  }

  /** One more dependency handled. */
  lemma RequiresStep(a: seq<PackageRule>, b: seq<PackageRule>, pool: Pool, versionOf: string -> Result<Version>,
                     p: Package, i: int)
    requires pool.Valid() && a <= b && RequiresUpTo(a, pool, versionOf, p, i) && i < |p.installRequires|
    requires RequiresRecorded(b, pool, versionOf, p, p.installRequires[i])
    ensures RequiresUpTo(b, pool, versionOf, p, i + 1)
  {
    RequiresUpToGrow(a, b, pool, versionOf, p, i);
  }

  /** One more declared conflict handled. */
  lemma ExplicitStep(a: seq<PackageRule>, b: seq<PackageRule>, pool: Pool, versionOf: string -> Result<Version>,
                     p: Package, i: int)
    requires pool.Valid() && a <= b && ExplicitUpTo(a, pool, versionOf, p, i) && i < |p.conflicts|
    requires ExplicitRecorded(b, pool, versionOf, p, p.conflicts[i])
    ensures ExplicitUpTo(b, pool, versionOf, p, i + 1)
  {
    ExplicitUpToGrow(a, b, pool, versionOf, p, i);
  }

  lemma RequiresUpToGrow(a: seq<PackageRule>, b: seq<PackageRule>, pool: Pool, versionOf: string -> Result<Version>,
                         p: Package, n: int)
    requires pool.Valid() && a <= b && RequiresUpTo(a, pool, versionOf, p, n)
    ensures RequiresUpTo(b, pool, versionOf, p, n)
  {
    forall k | 0 <= k < n ensures RequiresRecorded(b, pool, versionOf, p, p.installRequires[k]) {
      RequiresGrow(a, b, pool, versionOf, p, p.installRequires[k]);
    }
  }

  lemma ExplicitUpToGrow(a: seq<PackageRule>, b: seq<PackageRule>, pool: Pool, versionOf: string -> Result<Version>,
                         p: Package, n: int)
    requires pool.Valid() && a <= b && ExplicitUpTo(a, pool, versionOf, p, n)
    ensures ExplicitUpTo(b, pool, versionOf, p, n)
  {
    forall k | 0 <= k < n ensures ExplicitRecorded(b, pool, versionOf, p, p.conflicts[k]) {
      ExplicitGrow(a, b, pool, versionOf, p, p.conflicts[k]);
    }
  }

  lemma PackageGrow(a: seq<PackageRule>, b: seq<PackageRule>, pool: Pool, versionOf: string -> Result<Version>, p: Package)
    requires pool.Valid() && a <= b && PackageRecorded(a, pool, versionOf, p)
    ensures PackageRecorded(b, pool, versionOf, p)
  {
    RequiresUpToGrow(a, b, pool, versionOf, p, |p.installRequires|);
    var ps := Providers(pool, FromString(p.name, versionOf).value);
    ConflictsGrow(a, b, pool, p, ps, |ps|);
    ExplicitUpToGrow(a, b, pool, versionOf, p, |p.conflicts|);
  }

  /** The rules of the pool's package with this id are all in the set. */
  ghost predicate IdRecorded(rules: seq<PackageRule>, pool: Pool, versionOf: string -> Result<Version>, id: int)
    requires pool.Valid()
    reads pool
  {
    1 <= id <= |pool.added| && PackageRecorded(rules, pool, versionOf, pool.added[id - 1])
  }

  /** The rules of every package whose id is in `ids`. */
  ghost predicate AllRecorded(rules: seq<PackageRule>, pool: Pool, versionOf: string -> Result<Version>, ids: seq<int>)
    requires pool.Valid()
    reads pool
  {
    forall k :: 0 <= k < |ids| ==> IdRecorded(rules, pool, versionOf, ids[k])
  }

  lemma AllGrow(a: seq<PackageRule>, b: seq<PackageRule>, pool: Pool, versionOf: string -> Result<Version>, ids: seq<int>)
    requires pool.Valid() && a <= b && AllRecorded(a, pool, versionOf, ids)
    ensures AllRecorded(b, pool, versionOf, ids)
  {
    forall k | 0 <= k < |ids| ensures IdRecorded(b, pool, versionOf, ids[k]) {
      PackageGrow(a, b, pool, versionOf, pool.added[ids[k] - 1]);
    }
  }

  /** The pool's package at a package's id is that package. */
  lemma RecordedAt(rules: seq<PackageRule>, pool: Pool, versionOf: string -> Result<Version>, p: Package, id: int)
    requires pool.Valid() && pool.PackageId(p) == Ok(id) && PackageRecorded(rules, pool, versionOf, p)
    ensures IdRecorded(rules, pool, versionOf, id)
  {
    assert pool.added[id - 1] == p;
  }

  /** One more id whose package has all its rules recorded. */
  lemma AllRecordedSnoc(a: seq<PackageRule>, b: seq<PackageRule>, pool: Pool, versionOf: string -> Result<Version>,
                        ids: seq<int>, p: Package, id: int)
    requires pool.Valid() && a <= b && AllRecorded(a, pool, versionOf, ids)
    requires pool.PackageId(p) == Ok(id) && PackageRecorded(b, pool, versionOf, p)
    ensures AllRecorded(b, pool, versionOf, ids + [id])
  {
    AllGrow(a, b, pool, versionOf, ids);
    RecordedAt(b, pool, versionOf, p, id);
    var s := ids + [id];
    forall k | 0 <= k < |s| ensures IdRecorded(b, pool, versionOf, s[k]) {
      if k < |ids| {
        assert s[k] == ids[k];
      }
    }
  }

  /**
   * An id a constrain job forbids: the id of a package the name alone
   * provides and of none the job's requirement provides.
   */
  ghost predicate ConstrainTarget(pool: Pool, nameReq: Requirement, req: Requirement, id: int)
    requires pool.Valid()
    reads pool
  {
    (exists q :: q in Providers(pool, nameReq) && pool.PackageId(q) == Ok(id))
    && !(exists q :: q in Providers(pool, req) && pool.PackageId(q) == Ok(id))
  }

  /** A constrain job: the clause "not p" for every id it forbids. */
  ghost predicate ConstrainRecorded(rules: seq<PackageRule>, pool: Pool, nameReq: Requirement, req: Requirement)
    requires pool.Valid()
    reads pool
  {
    forall id :: ConstrainTarget(pool, nameReq, req, id) ==> HasLiterals(rules, [-id])
  }

  /** For each of the first `n` ids, the clause "not id". */
  predicate NegatedUpTo(rules: seq<PackageRule>, ids: seq<int>, n: int)
  {
    0 <= n <= |ids| && forall k :: 0 <= k < n ==> HasLiterals(rules, [-ids[k]])
  }

  /** Every rule from index `start` on is a single negative literal. */
  predicate NegativeUnitsSince(rules: seq<PackageRule>, start: int)
  {
    0 <= start <= |rules| &&
    forall i :: start <= i < |rules| ==> |rules[i].literals| == 1 && rules[i].literals[0] < 0
  }

  /** The clause "not id" for every id of the set. */
  predicate NegatedAll(rules: seq<PackageRule>, ids: set<int>)
  {
    forall id :: id in ids ==> HasLiterals(rules, [-id])
  }

  /** Going through a set in sorted order visits all of it. */
  lemma NegatedSorted(rules: seq<PackageRule>, ids: set<int>)
    requires NegatedUpTo(rules, SortedSet(ids), |SortedSet(ids)|)
    ensures NegatedAll(rules, ids)
  {
    var sorted := SortedSet(ids);
    forall id | id in ids ensures HasLiterals(rules, [-id]) {
      assert id in sorted;
      var k :| 0 <= k < |sorted| && sorted[k] == id;
    }
  }

  lemma NegatedStep(a: seq<PackageRule>, b: seq<PackageRule>, ids: seq<int>, i: int, start: int, rule: PackageRule)
    requires NegatedUpTo(a, ids, i) && NegativeUnitsSince(a, start) && i < |ids| && ids[i] > 0
    requires rule.literals == [-ids[i]] && b == InsertRule(a, rule)
    ensures NegatedUpTo(b, ids, i + 1) && NegativeUnitsSince(b, start)
  {
    forall k | 0 <= k < i ensures HasLiterals(b, [-ids[k]]) {
      HasLiteralsGrow(a, b, [-ids[k]]);
    }
  }

  /** The ids the constrain loop visits are exactly the forbidden ones. */
  lemma ConstrainIdsMeaning(pool: Pool, nameReq: Requirement, req: Requirement, id: int)
    requires pool.Valid() && IdSet(pool, Providers(pool, nameReq)).Ok? && IdSet(pool, Providers(pool, req)).Ok?
    ensures id in IdSet(pool, Providers(pool, nameReq)).value - IdSet(pool, Providers(pool, req)).value
            <==> ConstrainTarget(pool, nameReq, req, id)
  {
    IdSetMeaning(pool, Providers(pool, nameReq), id);
    IdSetMeaning(pool, Providers(pool, req), id);
  }

  /** The packages of `installed_map`, in its order. */
  function Installed(installedMap: seq<(int, Package)>): (r: seq<Package>)
    ensures |r| == |installedMap| && forall i :: 0 <= i < |r| ==> r[i] == installedMap[i].1
  {
    seq(|installedMap|, i requires 0 <= i < |installedMap| => installedMap[i].1)
  }

  /** The first `n` packages are in the pool and their ids are among `ids`. */
  ghost predicate ReachedUpTo(pool: Pool, ids: set<int>, ps: seq<Package>, n: int)
    requires pool.Valid()
    reads pool
  {
    0 <= n <= |ps| && forall k :: 0 <= k < n ==> ps[k] in pool.added && pool.PackageId(ps[k]).value in ids
  }

  /** One more package reached, the earlier ones kept as the id set grows. */
  lemma ReachedStep(pool: Pool, a: set<int>, b: set<int>, ps: seq<Package>, i: int)
    requires pool.Valid() && a <= b && ReachedUpTo(pool, a, ps, i) && i < |ps|
    requires ps[i] in pool.added && pool.PackageId(ps[i]).value in b
    ensures ReachedUpTo(pool, b, ps, i + 1)
  {
  }

  /** Two walks whose rules are recorded make one. */
  lemma AllRecordedConcat(rules: seq<PackageRule>, pool: Pool, versionOf: string -> Result<Version>,
                          ids: seq<int>, more: seq<int>)
    requires pool.Valid() && AllRecorded(rules, pool, versionOf, ids) && AllRecorded(rules, pool, versionOf, more)
    ensures AllRecorded(rules, pool, versionOf, ids + more)
  {
    var s := ids + more;
    forall k | 0 <= k < |s| ensures IdRecorded(rules, pool, versionOf, s[k]) {
      if k < |ids| {
        assert s[k] == ids[k];
      } else {
        assert s[k] == more[k - |ids|];
      }
    }
  }

  /**
   * The providers of each dependency in `ts`, concatenated in order: what
   * `_add_install_requires_rules` hands back to the work queue. An entry
   * that does not parse contributes nothing.
   */
  ghost function DependencyProviders(pool: Pool, versionOf: string -> Result<Version>, ts: seq<Value>): seq<Package>
    reads pool
  {
    if ts == [] then []
    else
      var req := FromConstraints(ts[|ts| - 1], versionOf);
      DependencyProviders(pool, versionOf, ts[..|ts| - 1]) + (if req.Ok? then Providers(pool, req.value) else [])
  }

  /** One more dependency: its providers follow those of the earlier ones. */
  lemma DependencyProvidersSnoc(pool: Pool, versionOf: string -> Result<Version>, ts: seq<Value>, i: int,
                                req: Requirement)
    requires 0 <= i < |ts| && FromConstraints(ts[i], versionOf) == Ok(req)
    ensures DependencyProviders(pool, versionOf, ts[..i + 1]) ==
            DependencyProviders(pool, versionOf, ts[..i]) + Providers(pool, req)
  {
    assert ts[..i + 1][..i] == ts[..i];
  }

  /** Every package a dependency list pulls in is in the pool. */
  lemma {:induction false} DependencyProvidersInPool(pool: Pool, versionOf: string -> Result<Version>, ts: seq<Value>)
    ensures forall q :: q in DependencyProviders(pool, versionOf, ts) ==> q in pool.added
  {
    if ts != [] {
      DependencyProvidersInPool(pool, versionOf, ts[..|ts| - 1]);
      var req := FromConstraints(ts[|ts| - 1], versionOf);
      if req.Ok? {
        ProvidersInPool(pool, req.value);
      }
    }
  }

  /**
   * Every provider of every dependency of a package whose id is in `ids`
   * is in the pool, and it still waits in `queue` or its id is in `taken`.
   */
  ghost predicate ProvidersTaken(pool: Pool, versionOf: string -> Result<Version>, ids: seq<int>, taken: set<int>,
                                 queue: seq<Package>)
    requires pool.Valid()
    reads pool
  {
    forall k :: 0 <= k < |ids| ==> IdProvidersTaken(pool, versionOf, ids[k], taken, queue)
  }

  /** The same for the package of one id. */
  ghost predicate IdProvidersTaken(pool: Pool, versionOf: string -> Result<Version>, id: int, taken: set<int>,
                                   queue: seq<Package>)
    requires pool.Valid()
    reads pool
  {
    1 <= id <= |pool.added| &&
    forall q :: q in DependencyProviders(pool, versionOf, pool.added[id - 1].installRequires) ==>
      q in pool.added && (q in queue || pool.PackageId(q).value in taken)
  }

  /**
   * The head of the queue leaves it once its id is taken up; what is
   * appended at the back changes nothing already established.
   */
  lemma ProvidersTakenPop(pool: Pool, versionOf: string -> Result<Version>, ids: seq<int>, a: set<int>, b: set<int>,
                          queue: seq<Package>, extra: seq<Package>)
    requires pool.Valid() && ProvidersTaken(pool, versionOf, ids, a, queue) && a <= b && queue != []
    requires queue[0] in pool.added && pool.PackageId(queue[0]).value in b
    ensures ProvidersTaken(pool, versionOf, ids, b, queue[1..] + extra)
  {
    forall k | 0 <= k < |ids| ensures IdProvidersTaken(pool, versionOf, ids[k], b, queue[1..] + extra) {
      IdProvidersTakenPop(pool, versionOf, ids[k], a, b, queue, extra);
    }
  }

  /** `ProvidersTakenPop` for the package of one id. */
  lemma IdProvidersTakenPop(pool: Pool, versionOf: string -> Result<Version>, id: int, a: set<int>, b: set<int>,
                            queue: seq<Package>, extra: seq<Package>)
    requires pool.Valid() && IdProvidersTaken(pool, versionOf, id, a, queue) && a <= b && queue != []
    requires queue[0] in pool.added && pool.PackageId(queue[0]).value in b
    ensures IdProvidersTaken(pool, versionOf, id, b, queue[1..] + extra)
  {
    forall q | q in DependencyProviders(pool, versionOf, pool.added[id - 1].installRequires)
      ensures q in queue[1..] + extra || pool.PackageId(q).value in b
    {
      if q in queue && q != queue[0] {
        StillQueued(queue, extra, q);
      }
    }
  }

  /** A queued package other than the head is still queued after the pop. */
  lemma StillQueued(queue: seq<Package>, extra: seq<Package>, q: Package)
    requires q in queue && q != queue[0]
    ensures q in queue[1..] + extra
  {
    var j :| 0 <= j < |queue| && queue[j] == q;
    assert (queue[1..] + extra)[j - 1] == q;
  }

  /** A new id whose dependencies' providers are all queued. */
  lemma ProvidersTakenSnoc(pool: Pool, versionOf: string -> Result<Version>, ids: seq<int>, taken: set<int>,
                           queue: seq<Package>, id: int)
    requires pool.Valid() && ProvidersTaken(pool, versionOf, ids, taken, queue) && 1 <= id <= |pool.added|
    requires forall q :: q in DependencyProviders(pool, versionOf, pool.added[id - 1].installRequires) ==> q in queue
    ensures ProvidersTaken(pool, versionOf, ids + [id], taken, queue)
  {
    DependencyProvidersInPool(pool, versionOf, pool.added[id - 1].installRequires);
    assert IdProvidersTaken(pool, versionOf, id, taken, queue);
    var s := ids + [id];
    forall k | 0 <= k < |s| ensures IdProvidersTaken(pool, versionOf, s[k], taken, queue) {
      if k < |ids| {
        assert s[k] == ids[k];
      }
    }
  }

  /**
   * One turn of the work queue that takes up a new id: its head leaves,
   * the providers of its package's dependencies join at the back.
   */
  lemma ProvidersTakenVisit(pool: Pool, versionOf: string -> Result<Version>, ids: seq<int>, a: set<int>, b: set<int>,
                            queue: seq<Package>, queued: seq<Package>, id: int)
    requires pool.Valid() && ProvidersTaken(pool, versionOf, ids, a, queue) && a <= b && queue != []
    requires pool.PackageId(queue[0]) == Ok(id) && id in b
    requires queued == DependencyProviders(pool, versionOf, queue[0].installRequires)
    ensures ProvidersTaken(pool, versionOf, ids + [id], b, queue[1..] + queued)
  {
    ProvidersTakenPop(pool, versionOf, ids, a, b, queue, queued);
    assert pool.added[id - 1] == queue[0];
    ProvidersTakenSnoc(pool, versionOf, ids, b, queue[1..] + queued, id);
  }

  /** An earlier walk, closed against fewer ids, joined to a new closed walk. */
  lemma ProvidersTakenConcat(pool: Pool, versionOf: string -> Result<Version>, ids: seq<int>, more: seq<int>,
                             a: set<int>, b: set<int>)
    requires pool.Valid() && a <= b
    requires ProvidersTaken(pool, versionOf, ids, a, []) && ProvidersTaken(pool, versionOf, more, b, [])
    ensures ProvidersTaken(pool, versionOf, ids + more, b, [])
  {
    var s := ids + more;
    forall k | 0 <= k < |s| ensures IdProvidersTaken(pool, versionOf, s[k], b, []) {
      if k < |ids| {
        assert s[k] == ids[k] && IdProvidersTaken(pool, versionOf, ids[k], a, []);
      } else {
        assert s[k] == more[k - |ids|];
      }
    }
  }

  /** The ids walked so far have their rules recorded and their dependencies taken up. */
  ghost predicate WalkClosed(rules: seq<PackageRule>, pool: Pool, versionOf: string -> Result<Version>,
                             handled: seq<int>, taken: set<int>)
    requires pool.Valid()
    reads pool
  {
    AllRecorded(rules, pool, versionOf, handled) && ProvidersTaken(pool, versionOf, handled, taken, [])
  }

  /**
   * The closure `_add_package_rules` computes: every id taken up has all
   * its rules recorded, and every provider of each of its package's
   * dependencies has been taken up too, its rules recorded in turn.
   */
  ghost predicate DependencyClosed(rules: seq<PackageRule>, pool: Pool, versionOf: string -> Result<Version>,
                                   taken: set<int>)
    requires pool.Valid()
    reads pool
  {
    forall id :: id in taken ==> IdClosed(rules, pool, versionOf, id, taken)
  }

  /** The package of `id` has its rules, and each provider of its dependencies is taken up with its rules. */
  ghost predicate IdClosed(rules: seq<PackageRule>, pool: Pool, versionOf: string -> Result<Version>,
                           id: int, taken: set<int>)
    requires pool.Valid()
    reads pool
  {
    IdRecorded(rules, pool, versionOf, id) &&
    forall q :: q in DependencyProviders(pool, versionOf, pool.added[id - 1].installRequires) ==>
      q in pool.added && pool.PackageId(q).value in taken &&
      IdRecorded(rules, pool, versionOf, pool.PackageId(q).value)
  }

  /** A closed walk stays closed as rules are added. */
  lemma WalkClosedGrow(a: seq<PackageRule>, b: seq<PackageRule>, pool: Pool, versionOf: string -> Result<Version>,
                       handled: seq<int>, taken: set<int>)
    requires pool.Valid() && a <= b && WalkClosed(a, pool, versionOf, handled, taken)
    ensures WalkClosed(b, pool, versionOf, handled, taken)
  {
    AllGrow(a, b, pool, versionOf, handled);
  }

  /** A closed walk over exactly the ids taken up is the closure. */
  lemma WalkClosedMeaning(rules: seq<PackageRule>, pool: Pool, versionOf: string -> Result<Version>,
                          handled: seq<int>, taken: set<int>)
    requires pool.Valid() && WalkClosed(rules, pool, versionOf, handled, taken)
    requires forall id :: id in handled <==> id in taken
    ensures DependencyClosed(rules, pool, versionOf, taken)
  {
    forall id | id in taken ensures IdClosed(rules, pool, versionOf, id, taken) {
      var k :| 0 <= k < |handled| && handled[k] == id;
      assert IdRecorded(rules, pool, versionOf, handled[k]);
      assert IdProvidersTaken(pool, versionOf, handled[k], taken, []);
      WalkClosedAt(rules, pool, versionOf, handled, taken, id);
    }
  }

  /** The closure at one id of a closed walk. */
  lemma WalkClosedAt(rules: seq<PackageRule>, pool: Pool, versionOf: string -> Result<Version>,
                     handled: seq<int>, taken: set<int>, id: int)
    requires pool.Valid() && AllRecorded(rules, pool, versionOf, handled)
    requires forall x :: x in taken ==> x in handled
    requires IdRecorded(rules, pool, versionOf, id) && IdProvidersTaken(pool, versionOf, id, taken, [])
    ensures IdClosed(rules, pool, versionOf, id, taken)
  {
    var deps := DependencyProviders(pool, versionOf, pool.added[id - 1].installRequires);
    forall q | q in deps
      ensures q in pool.added && pool.PackageId(q).value in taken &&
              IdRecorded(rules, pool, versionOf, pool.PackageId(q).value)
    {
      RecordedInWalk(rules, pool, versionOf, handled, pool.PackageId(q).value);
    }
  }

  /** An id of a walk whose rules are recorded has its rules recorded. */
  lemma RecordedInWalk(rules: seq<PackageRule>, pool: Pool, versionOf: string -> Result<Version>,
                       handled: seq<int>, id: int)
    requires pool.Valid() && AllRecorded(rules, pool, versionOf, handled) && id in handled
    ensures IdRecorded(rules, pool, versionOf, id)
  {
    var j :| 0 <= j < |handled| && handled[j] == id;
  }

  /** An install job: the clause "one of the providers", when there is one. */
  ghost predicate InstallRecorded(rules: seq<PackageRule>, pool: Pool, req: Requirement)
    requires pool.Valid()
    reads pool
  {
    var ps := Providers(pool, req);
    ProvidersInPool(pool, req);
    ps != [] ==> HasLiterals(rules, SortInts(IdsOf(pool, ps).value))
  }

  /** For each of the first `n` packages, the clause "not p". */
  ghost predicate RemovedUpTo(rules: seq<PackageRule>, pool: Pool, ps: seq<Package>, n: int)
    requires pool.Valid()
    reads pool
  {
    0 <= n <= |ps| &&
    forall k :: 0 <= k < n ==> ps[k] in pool.added && HasLiterals(rules, [-pool.PackageId(ps[k]).value])
  }

  /** A remove job: the clause "not p" for every provider. */
  ghost predicate RemoveRecorded(rules: seq<PackageRule>, pool: Pool, req: Requirement)
    requires pool.Valid()
    reads pool
  {
    RemovedUpTo(rules, pool, Providers(pool, req), |Providers(pool, req)|)
  }

  /** Each rule from index `start` on is the clause "not p" of one of the packages. */
  ghost predicate RemovalsSince(rules: seq<PackageRule>, start: int, pool: Pool, ps: seq<Package>)
    requires pool.Valid()
    reads pool
  {
    0 <= start <= |rules| &&
    forall i :: start <= i < |rules| ==>
      exists q :: q in ps && q in pool.added && rules[i].literals == [-pool.PackageId(q).value]
  }

  /** An update job: the unit clause of its target, when there is a provider. */
  ghost predicate UpdateRecorded(rules: seq<PackageRule>, pool: Pool, installedIds: set<int>, req: Requirement)
    requires pool.Valid()
    reads pool
  {
    var ps := Providers(pool, req);
    ProvidersInPool(pool, req);
    ps != [] ==> HasLiterals(rules, [pool.PackageId(UpdateTarget(pool, installedIds, ps).value).value])
  }

  /**
   * What a job leaves in the set. A constrain job is not a kind a request
   * can hold.
   */
  ghost predicate JobRecorded(rules: seq<PackageRule>, pool: Pool, installedIds: set<int>, job: Job)
    requires pool.Valid()
    reads pool
  {
    match job.kind
    case Install => InstallRecorded(rules, pool, job.requirement)
    case Remove => RemoveRecorded(rules, pool, job.requirement)
    case Update => UpdateRecorded(rules, pool, installedIds, job.requirement)
  }

  /** The first `n` jobs are recorded. */
  ghost predicate JobsUpTo(rules: seq<PackageRule>, pool: Pool, installedIds: set<int>, jobs: seq<Job>, n: int)
    requires pool.Valid()
    reads pool
  {
    0 <= n <= |jobs| && forall k :: 0 <= k < n ==> JobRecorded(rules, pool, installedIds, jobs[k])
  }

  lemma RemovedGrow(a: seq<PackageRule>, b: seq<PackageRule>, pool: Pool, ps: seq<Package>, n: int)
    requires pool.Valid() && a <= b && RemovedUpTo(a, pool, ps, n)
    ensures RemovedUpTo(b, pool, ps, n)
  {
    forall k | 0 <= k < n ensures HasLiterals(b, [-pool.PackageId(ps[k]).value]) {
      HasLiteralsGrow(a, b, [-pool.PackageId(ps[k]).value]);
    }
  }

  lemma JobGrow(a: seq<PackageRule>, b: seq<PackageRule>, pool: Pool, installedIds: set<int>, job: Job)
    requires pool.Valid() && a <= b && JobRecorded(a, pool, installedIds, job)
    ensures JobRecorded(b, pool, installedIds, job)
  {
    var ps := Providers(pool, job.requirement);
    ProvidersInPool(pool, job.requirement);
    match job.kind
    case Install =>
      if ps != [] { HasLiteralsGrow(a, b, SortInts(IdsOf(pool, ps).value)); }
    case Remove =>
      RemovedGrow(a, b, pool, ps, |ps|);
    case Update =>
      if ps != [] {
        HasLiteralsGrow(a, b, [pool.PackageId(UpdateTarget(pool, installedIds, ps).value).value]);
      }
  }

  lemma JobsGrow(a: seq<PackageRule>, b: seq<PackageRule>, pool: Pool, installedIds: set<int>, jobs: seq<Job>, n: int)
    requires pool.Valid() && a <= b && JobsUpTo(a, pool, installedIds, jobs, n)
    ensures JobsUpTo(b, pool, installedIds, jobs, n)
  {
    forall k | 0 <= k < n ensures JobRecorded(b, pool, installedIds, jobs[k]) {
      JobGrow(a, b, pool, installedIds, jobs[k]);
    }
  }

  lemma JobsStep(a: seq<PackageRule>, b: seq<PackageRule>, pool: Pool, installedIds: set<int>, jobs: seq<Job>, i: int)
    requires pool.Valid() && a <= b && JobsUpTo(a, pool, installedIds, jobs, i) && i < |jobs|
    requires JobRecorded(b, pool, installedIds, jobs[i])
    ensures JobsUpTo(b, pool, installedIds, jobs, i + 1)
  {
    JobsGrow(a, b, pool, installedIds, jobs, i);
  }

  /** The clause "not p" of one more package. */
  lemma RemoveStep(a: seq<PackageRule>, b: seq<PackageRule>, pool: Pool, ps: seq<Package>, i: int, start: int,
                    rule: PackageRule)
    requires pool.Valid() && RemovedUpTo(a, pool, ps, i) && RemovalsSince(a, start, pool, ps)
    requires i < |ps| && ps[i] in pool.added && rule.literals == [-pool.PackageId(ps[i]).value]
    requires b == InsertRule(a, rule)
    ensures RemovedUpTo(b, pool, ps, i + 1) && RemovalsSince(b, start, pool, ps)
  {
    assert a <= b && HasLiterals(b, rule.literals);
    RemovedGrow(a, b, pool, ps, i);
    RemovedSnoc(b, pool, ps, i);
    RemovalsSinceStep(a, b, pool, ps, i, start, rule);
  }

  /** The `i`-th clause "not p" extends what was removed up to `i`. */
  lemma RemovedSnoc(rules: seq<PackageRule>, pool: Pool, ps: seq<Package>, i: int)
    requires pool.Valid() && RemovedUpTo(rules, pool, ps, i) && i < |ps| && ps[i] in pool.added
    requires HasLiterals(rules, [-pool.PackageId(ps[i]).value])
    ensures RemovedUpTo(rules, pool, ps, i + 1)
  {
  }

  lemma RemovalsSinceStep(a: seq<PackageRule>, b: seq<PackageRule>, pool: Pool, ps: seq<Package>, i: int, start: int,
                          rule: PackageRule)
    requires pool.Valid() && RemovalsSince(a, start, pool, ps)
    requires 0 <= i < |ps| && ps[i] in pool.added && rule.literals == [-pool.PackageId(ps[i]).value]
    requires b == InsertRule(a, rule)
    ensures RemovalsSince(b, start, pool, ps)
  {
    if b != a {
      forall k | start <= k < |b|
        ensures exists q :: q in ps && q in pool.added && b[k].literals == [-pool.PackageId(q).value]
      {
        if k == |a| {
          assert ps[i] in ps && b[k] == rule;
        } else {
          assert b[k] == a[k];
        }
      }
    }
  }

  lemma WithoutSnoc(ps: seq<Package>, i: nat, x: Package)
    requires i < |ps|
    ensures Without(ps[..i + 1], x) == Without(ps[..i], x) + (if ps[i] != x then [ps[i]] else [])
  {
    assert ps[..i + 1][..i] == ps[..i];
  }

  lemma IdsOfSnoc(pool: Pool, ps: seq<Package>, q: Package)
    requires pool.Valid() && IdsOf(pool, ps).Ok? && q in pool.added
    ensures IdsOf(pool, ps + [q]) == Ok(IdsOf(pool, ps).value + [pool.PackageId(q).value])
  {
    assert (ps + [q])[..|ps|] == ps;
  }

  /** The loop of `_create_dependency_rule`: the id of each candidate that is not the package, in order. */
  method CandidateIds(pool: Pool, package: Package, candidates: seq<Package>) returns (r: Result<seq<int>>)
    requires pool.Valid()
    ensures r == IdsOf(pool, Without(candidates, package))
  {
    var ids := [];
    for i := 0 to |candidates|
      invariant IdsOf(pool, Without(candidates[..i], package)) == Ok(ids)
    {
      ghost var w := Without(candidates[..i], package);
      WithoutSnoc(candidates, i, package);
      if candidates[i] != package {
        var d := pool.PackageId(candidates[i]);
        if d.Err? {
          assert candidates[i] in Without(candidates, package);
          return Err(d.error);
        }
        IdsOfSnoc(pool, w, candidates[i]);
        ids := ids + [d.value];
        assert Without(candidates[..i + 1], package) == w + [candidates[i]];
      } else {
        assert Without(candidates[..i + 1], package) == w;
      }
    }
    assert candidates[..|candidates|] == candidates;
    return Ok(ids);
  }

  /**
   * `_create_dependency_rule`: the package's id negated, then the ids of
   * the candidates other than the package; ValueError for a package not
   * in the pool.
   */
  method CreateDependencyRule(pool: Pool, package: Package, candidates: seq<Package>, reason: RuleType,
                              requirements: Option<seq<Requirement>>) returns (r: Result<PackageRule>)
    requires pool.Valid()
    ensures r == DependencyRule(pool, package, candidates, reason, requirements)
  {
    var id := pool.PackageId(package);
    if id.Err? {
      return Err(id.error);
    }
    var ids := CandidateIds(pool, package, candidates);
    if ids.Err? {
      return Err(ids.error);
    }
    return Ok(NewRule([-id.value] + ids.value, reason, requirements));
  }

  // ---------------------------------------------------------------------
  // The generator
  // ---------------------------------------------------------------------

  /**
   * `RulesGenerator`: the rules made so far, in insertion order and without
   * two equal rules, and the ids of the packages whose rules it has added.
   */
  class RulesGenerator {
    var rules: seq<PackageRule>
    var addedPackageIds: set<int>
    /** The ids `_add_package_rules` took up, in order. */
    ghost var handled: seq<int>
    const pool: Pool
    const request: Request
    /** `installed_map`: (id, package) entries in insertion order. */
    const installedMap: seq<(int, Package)>
    /** How constraint strings read version numbers. */
    const versionOf: string -> Result<Version>

    /**
     * No rule twice, and every id taken up exactly once, in the pool's
     * range.
     */
    ghost predicate Valid()
      reads this, pool
    {
      pool.Valid() && Distinct(rules) && NoDup(handled)
      && (forall id :: id in handled <==> id in addedPackageIds)
      && (forall id :: id in addedPackageIds ==> 1 <= id <= |pool.added|)
    }

    /** The ids taken up since the last reset are a closed walk. */
    ghost predicate Closed()
      reads this, pool
    {
      pool.Valid() && WalkClosed(rules, pool, versionOf, handled, addedPackageIds)
    }

    /** The ids of the installed packages (the keys of `installed_map`). */
    function InstalledIds(): set<int>
    {
      set e | e in installedMap :: e.0
    }

    constructor (pool: Pool, request: Request, installedMap: seq<(int, Package)>, versionOf: string -> Result<Version>)
      requires pool.Valid()
      ensures Valid() && rules == [] && addedPackageIds == {} && handled == []
      ensures this.pool == pool && this.request == request && this.installedMap == installedMap
      ensures this.versionOf == versionOf
    {
      rules := [];
      addedPackageIds := {};
      handled := [];
      this.pool := pool;
      this.request := request;
      this.installedMap := installedMap;
      this.versionOf := versionOf;
    }

    /** `_add_rule`: a rule not yet in the set is added at the end; nothing is a no-op. */
    method AddRule(rule: Option<PackageRule>)
      requires Valid()
      modifies this`rules
      ensures Valid()
      ensures rules == if rule.Some? then InsertRule(old(rules), rule.value) else old(rules)
      ensures old(rules) <= rules && (rule.Some? ==> HasLiterals(rules, rule.value.literals))
    {
      if rule.Some? {
        rules := InsertRule(rules, rule.value);
      }
    }

    /** The requires clause of one `install_requires` entry; its providers go on the work queue. */
    method AddRequiresRule(p: Package, t: Value, requirements: Option<seq<Requirement>>)
      returns (queued: seq<Package>, error: Option<Error>)
      requires Valid() && p in pool.added
      modifies this`rules
      ensures Valid() && old(rules) <= rules
      ensures error.None? ==> RequiresRecorded(rules, pool, versionOf, p, t)
      ensures error.None? ==> queued == Providers(pool, FromConstraints(t, versionOf).value)
      ensures error.Some? ==> FromConstraints(t, versionOf).Err? ||
                              (FromConstraints(t, versionOf).Ok? && Providers(pool, FromConstraints(t, versionOf).value) == [])
      ensures FromConstraints(t, versionOf).Err? ==> error == Some(FromConstraints(t, versionOf).error)
      ensures FromConstraints(t, versionOf).Ok? ==>
                (error == Some(NoPackageFound) <==> Providers(pool, FromConstraints(t, versionOf).value) == []) &&
                (error.None? <==> Providers(pool, FromConstraints(t, versionOf).value) != [])
    {
      var req := FromConstraints(t, versionOf);
      if req.Err? {
        return [], Some(req.error);
      }
      var candidates := pool.WhatProvides(req.value);
      var combined := if requirements.Some? then Some([req.value] + requirements.value) else None;
      if candidates == [] {
        return [], Some(NoPackageFound);
      }
      ProvidersInPool(pool, req.value);
      var rule := CreateDependencyRule(pool, p, candidates, PackageRequires, combined);
      assert rule.Ok?;
      AddRule(Some(rule.value));
      return candidates, None;
    }
  
    /** `_add_install_requires_rules`: a requires clause per dependency, in order; the providers to visit next. */
    method AddInstallRequiresRules(p: Package, requirements: Option<seq<Requirement>>)
      returns (queued: seq<Package>, error: Option<Error>)
      requires Valid() && p in pool.added
      modifies this`rules
      ensures Valid() && old(rules) <= rules
      ensures error.None? ==> RequiresUpTo(rules, pool, versionOf, p, |p.installRequires|)
      ensures error.None? ==> queued == DependencyProviders(pool, versionOf, p.installRequires)
      ensures forall q :: q in queued ==> q in pool.added
    {
      queued := [];
      for i := 0 to |p.installRequires|
        invariant Valid() && old(rules) <= rules
        invariant RequiresUpTo(rules, pool, versionOf, p, i)
        invariant queued == DependencyProviders(pool, versionOf, p.installRequires[..i])
        invariant forall q :: q in queued ==> q in pool.added
      {
        ghost var before := rules;
        var candidates, e := AddRequiresRule(p, p.installRequires[i], requirements);
        if e.Some? {
          return queued, e;
        }
        RequiresStep(before, rules, pool, versionOf, p, i);
        ProvidersInPool(pool, FromConstraints(p.installRequires[i], versionOf).value);
        DependencyProvidersSnoc(pool, versionOf, p.installRequires, i, FromConstraints(p.installRequires[i], versionOf).value);
        queued := queued + candidates;
      }
      assert p.installRequires[..|p.installRequires|] == p.installRequires;
      return queued, None;
    }

    /**
     * A conflict clause between `p` and each provider other than itself:
     * the explicit kind, or same-name / implicit-obsoletes by the
     * provider's name.
     */
    method AddConflictsWith(p: Package, providers: seq<Package>, explicit: bool, requirements: Option<seq<Requirement>>)
      requires Valid() && p in pool.added && forall q :: q in providers ==> q in pool.added
      modifies this`rules
      ensures Valid() && old(rules) <= rules
      ensures ConflictsRecorded(rules, pool, p, providers)
    {
      for i := 0 to |providers|
        invariant Valid() && old(rules) <= rules
        invariant ConflictsUpTo(rules, pool, p, providers, i)
      {
        ghost var before := rules;
        AddConflictWith(p, providers[i], explicit, requirements);
        ConflictsStep(before, rules, pool, p, providers, i);
      }
    }

    /** The conflict clause between `p` and one provider, unless it is `p` itself. */
    method AddConflictWith(p: Package, provider: Package, explicit: bool, requirements: Option<seq<Requirement>>)
      requires Valid() && p in pool.added && provider in pool.added
      modifies this`rules
      ensures Valid() && old(rules) <= rules
      ensures provider != p ==> HasLiterals(rules, ConflictLiterals(pool, p, provider))
    {
      var reason := if explicit then PackageConflicts
                    else if provider.name == p.name then PackageSameName
                    else PackageImplicitObsoletes;
      var rule := ConflictRule(pool, p, provider, reason, requirements);
      if provider != p {
        ConflictRuleMeaning(pool, p, provider, reason, requirements);
      }
      AddRule(rule.value);
    }

    /** The conflicts of one `conflicts` entry: NoPackageFound when nothing provides it. */
    method AddExplicitConflicts(p: Package, t: Value, requirements: Option<seq<Requirement>>) returns (error: Option<Error>)
      requires Valid() && p in pool.added
      modifies this`rules
      ensures Valid() && old(rules) <= rules
      ensures error.None? ==> ExplicitRecorded(rules, pool, versionOf, p, t)
      ensures FromConstraints(t, versionOf).Err? ==> error == Some(FromConstraints(t, versionOf).error)
      ensures FromConstraints(t, versionOf).Ok? ==>
                (error == Some(NoPackageFound) <==> Providers(pool, FromConstraints(t, versionOf).value) == []) &&
                (error.None? <==> Providers(pool, FromConstraints(t, versionOf).value) != [])
    {
      var req := FromConstraints(t, versionOf);
      if req.Err? {
        return Some(req.error);
      }
      var combined := if requirements.Some? then Some([req.value] + requirements.value) else None;
      var providers := pool.WhatProvides(req.value);
      if providers == [] {
        return Some(NoPackageFound);
      }
      ProvidersInPool(pool, req.value);
      AddConflictsWith(p, providers, true, combined);
      return None;
    }

    /**
     * `_add_conflicts_rules`: a conflict with every other package the
     * package's bare name provides, then the conflicts its metadata
     * declares.
     */
    method AddConflictsRules(p: Package, requirements: Option<seq<Requirement>>) returns (error: Option<Error>)
      requires Valid() && p in pool.added
      modifies this`rules
      ensures Valid() && old(rules) <= rules
      ensures error.None? ==> FromString(p.name, versionOf).Ok? &&
                              ConflictsRecorded(rules, pool, p, Providers(pool, FromString(p.name, versionOf).value))
      ensures error.None? ==> ExplicitUpTo(rules, pool, versionOf, p, |p.conflicts|)
    {
      var req := FromString(p.name, versionOf);
      if req.Err? {
        return Some(req.error);
      }
      var obsolete := pool.WhatProvides(req.value);
      var combined := if requirements.Some? then Some([req.value] + requirements.value) else None;
      ProvidersInPool(pool, req.value);
      AddConflictsWith(p, obsolete, false, combined);
      for i := 0 to |p.conflicts|
        invariant Valid() && old(rules) <= rules
        invariant ConflictsRecorded(rules, pool, p, obsolete)
        invariant ExplicitUpTo(rules, pool, versionOf, p, i)
      {
        ghost var before := rules;
        error := AddExplicitConflicts(p, p.conflicts[i], requirements);
        if error.Some? {
          return;
        }
        ConflictsGrow(before, rules, pool, p, obsolete, |obsolete|);
        ExplicitStep(before, rules, pool, versionOf, p, i);
      }
      return None;
    }
  
    /**
     * The rules of one package taken up by the work queue; the providers of
     * its dependencies, in order, come back to be queued.
     */
    method ProcessPackage(p: Package, requirements: Option<seq<Requirement>>) returns (queued: seq<Package>, error: Option<Error>)
      requires Valid() && p in pool.added
      modifies this`rules
      ensures Valid() && old(rules) <= rules
      ensures error.None? ==> PackageRecorded(rules, pool, versionOf, p)
      ensures error.None? ==> queued == DependencyProviders(pool, versionOf, p.installRequires)
      ensures forall q :: q in queued ==> q in pool.added
    {
      queued, error := AddInstallRequiresRules(p, requirements);
      if error.Some? {
        return;
      }
      ghost var before := rules;
      error := AddConflictsRules(p, requirements);
      if error.None? {
        RequiresUpToGrow(before, rules, pool, versionOf, p, |p.installRequires|);
      }
    }

    /**
     * `_add_package_rules`: the package and everything its dependencies
     * can pull in, through a work queue. A package whose id was already
     * taken up is skipped, so each id is handled at most once (`handled`
     * has no repeats) and the walk ends on dependency cycles: every new id
     * leaves fewer ids of the pool to take up. `walk` is the ids this call
     * took up, each with all its rules recorded.
     */
    method AddPackageRules(package: Package, requirements: Option<seq<Requirement>>)
      returns (error: Option<Error>, ghost walk: seq<int>)
      requires Valid() && Closed()
      modifies this`rules, this`addedPackageIds, this`handled
      ensures Valid() && old(rules) <= rules && handled == old(handled) + walk
      ensures old(addedPackageIds) <= addedPackageIds
      ensures error.None? ==> package in pool.added && pool.PackageId(package).value in addedPackageIds
      ensures error.None? ==> AllRecorded(rules, pool, versionOf, walk)
      ensures error.None? ==> ProvidersTaken(pool, versionOf, walk, addedPackageIds, [])
      ensures error.None? ==> Closed() && DependencyClosed(rules, pool, versionOf, addedPackageIds)
    {
      walk := [];
      var queue := [package];
      while queue != []
        invariant Valid() && Since(old(rules), old(handled), old(addedPackageIds), walk)
        invariant queue == [package] || Reached(package)
        invariant AllRecorded(rules, pool, versionOf, walk)
        invariant ProvidersTaken(pool, versionOf, walk, addedPackageIds, queue)
        decreases Unvisited(), |queue|
      {
        queue, error, walk := Visit(package, requirements, queue, old(rules), old(handled), old(addedPackageIds), walk);
        if error.Some? {
          return;
        }
      }
      AllGrow(old(rules), rules, pool, versionOf, old(handled));
      AllRecordedConcat(rules, pool, versionOf, old(handled), walk);
      ProvidersTakenConcat(pool, versionOf, old(handled), walk, old(addedPackageIds), addedPackageIds);
      WalkClosedMeaning(rules, pool, versionOf, handled, addedPackageIds);
      return None, walk;
    }

    /** The rules added, the ids taken up and the walk since the anchors. */
    ghost predicate Since(rules0: seq<PackageRule>, handled0: seq<int>, added0: set<int>, walk: seq<int>)
      reads this
    {
      rules0 <= rules && handled == handled0 + walk && added0 <= addedPackageIds
    }

    /** The package's id has been taken up. */
    ghost predicate Reached(package: Package)
      reads this, pool
      requires pool.Valid()
    {
      package in pool.added && pool.PackageId(package).value in addedPackageIds
    }

    /** How many ids of the pool are still to be taken up. */
    ghost function Unvisited(): nat
      reads this, pool
    {
      |AllIds(|pool.added|) - addedPackageIds|
    }

    /**
     * One turn of the work queue: the head is taken off, and when its id is
     * new it is marked and its rules are added, its dependencies' providers
     * going to the back of the queue.
     */
    method Visit(package: Package, requirements: Option<seq<Requirement>>, queue0: seq<Package>,
                 ghost rules0: seq<PackageRule>, ghost handled0: seq<int>, ghost added0: set<int>, ghost walk0: seq<int>)
      returns (queue: seq<Package>, error: Option<Error>, ghost walk: seq<int>)
      requires Valid() && Since(rules0, handled0, added0, walk0) && queue0 != []
      requires queue0 == [package] || Reached(package)
      requires AllRecorded(rules, pool, versionOf, walk0)
      requires ProvidersTaken(pool, versionOf, walk0, addedPackageIds, queue0)
      modifies this`rules, this`addedPackageIds, this`handled
      ensures Valid() && Since(rules0, handled0, added0, walk)
      ensures error.None? ==> queue == [package] || Reached(package)
      ensures error.None? ==> AllRecorded(rules, pool, versionOf, walk)
      ensures error.None? ==> ProvidersTaken(pool, versionOf, walk, addedPackageIds, queue)
      ensures error.None? ==> Unvisited() < old(Unvisited()) || (Unvisited() == old(Unvisited()) && |queue| < |queue0|)
    {
      var p := queue0[0];
      queue, error, walk := queue0[1..], None, walk0;
      var id := pool.PackageId(p);
      if id.Err? {
        return queue, Some(id.error), walk;
      }
      if id.value !in addedPackageIds {
        queue, error, walk := VisitNew(package, requirements, queue0, id.value, rules0, handled0, added0, walk0);
      } else {
        ProvidersTakenPop(pool, versionOf, walk0, addedPackageIds, addedPackageIds, queue0, []);
        assert queue0[1..] + [] == queue;
      }
    }

    /** The turn of `Visit` whose head has a new id: it is taken up and its providers queued. */
    method VisitNew(package: Package, requirements: Option<seq<Requirement>>, queue0: seq<Package>, id: int,
                    ghost rules0: seq<PackageRule>, ghost handled0: seq<int>, ghost added0: set<int>, ghost walk0: seq<int>)
      returns (queue: seq<Package>, error: Option<Error>, ghost walk: seq<int>)
      requires Valid() && Since(rules0, handled0, added0, walk0) && queue0 != []
      requires queue0 == [package] || Reached(package)
      requires AllRecorded(rules, pool, versionOf, walk0)
      requires ProvidersTaken(pool, versionOf, walk0, addedPackageIds, queue0)
      requires pool.PackageId(queue0[0]) == Ok(id) && id !in addedPackageIds
      modifies this`rules, this`addedPackageIds, this`handled
      ensures Valid() && Since(rules0, handled0, added0, walk)
      ensures error.None? ==> queue == [package] || Reached(package)
      ensures error.None? ==> AllRecorded(rules, pool, versionOf, walk)
      ensures error.None? ==> ProvidersTaken(pool, versionOf, walk, addedPackageIds, queue)
      ensures error.None? ==> Unvisited() < old(Unvisited())
    {
      var p := queue0[0];
      assert p in pool.added;
      FewerUnvisited(AllIds(|pool.added|), addedPackageIds, id);
      ghost var before := addedPackageIds;
      var queued;
      queued, error := TakeUp(p, id, requirements, rules0, handled0, added0, walk0);
      walk := walk0 + [id];
      queue := queue0[1..];
      if error.Some? {
        return;
      }
      ProvidersTakenVisit(pool, versionOf, walk0, before, addedPackageIds, queue0, queued, id);
      queue := queue + queued;
    }

    /** A package whose id is new: the id is marked and the package's rules are added. */
    method TakeUp(p: Package, id: int, requirements: Option<seq<Requirement>>, ghost rules0: seq<PackageRule>,
                  ghost handled0: seq<int>, ghost added0: set<int>, ghost walk0: seq<int>)
      returns (queued: seq<Package>, error: Option<Error>)
      requires Valid() && Since(rules0, handled0, added0, walk0) && AllRecorded(rules, pool, versionOf, walk0)
      requires p in pool.added && pool.PackageId(p) == Ok(id) && id !in addedPackageIds
      modifies this`rules, this`addedPackageIds, this`handled
      ensures Valid() && Since(rules0, handled0, added0, walk0 + [id])
      ensures addedPackageIds == old(addedPackageIds) + {id}
      ensures error.None? ==> AllRecorded(rules, pool, versionOf, walk0 + [id])
      ensures error.None? ==> queued == DependencyProviders(pool, versionOf, p.installRequires)
      ensures forall q :: q in queued ==> q in pool.added
    {
      Mark(id);
      ghost var before := rules;
      queued, error := ProcessPackage(p, requirements);
      if error.None? {
        AllRecordedSnoc(before, rules, pool, versionOf, walk0, p, id);
      }
    }

    /** `added_package_ids.add(id)`: the id is taken up, once. */
    method Mark(id: int)
      requires Valid() && 1 <= id <= |pool.added| && id !in addedPackageIds
      modifies this`addedPackageIds, this`handled
      ensures Valid() && addedPackageIds == old(addedPackageIds) + {id} && handled == old(handled) + [id]
    {
      addedPackageIds := addedPackageIds + {id};
      handled := handled + [id];
    }

    /** `_add_package_rules` for each package in turn. */
    method AddEachPackageRules(packages: seq<Package>, requirements: Option<seq<Requirement>>)
      returns (error: Option<Error>)
      requires Valid() && Closed()
      modifies this`rules, this`addedPackageIds, this`handled
      ensures Valid() && old(rules) <= rules && old(addedPackageIds) <= addedPackageIds
      ensures error.None? ==> ReachedUpTo(pool, addedPackageIds, packages, |packages|)
      ensures error.None? ==> Closed()
    {
      for i := 0 to |packages|
        invariant Valid() && Closed() && old(rules) <= rules && old(addedPackageIds) <= addedPackageIds
        invariant ReachedUpTo(pool, addedPackageIds, packages, i)
      {
        ghost var before := addedPackageIds;
        ghost var walk;
        error, walk := AddPackageRules(packages[i], requirements);
        if error.Some? {
          return;
        }
        ReachedStep(pool, before, addedPackageIds, packages, i);
      }
      return None;
    }

    /**
     * `_add_install_job_rules`: the package rules of every provider, then
     * the clause "one of the providers"; nothing at all when there is no
     * provider. The source skips providers found in `installed_map`, but
     * it looks a package up among the map's integer ids, so it never
     * skips one; the model takes every provider.
     */
    method AddInstallJobRules(job: Job) returns (error: Option<Error>)
      requires Valid() && Closed()
      modifies this`rules, this`addedPackageIds, this`handled
      ensures Valid() && old(rules) <= rules && old(addedPackageIds) <= addedPackageIds
      ensures Providers(pool, job.requirement) == [] ==> rules == old(rules) && addedPackageIds == old(addedPackageIds)
      ensures error.None? ==> InstallRecorded(rules, pool, job.requirement)
      ensures error.None? ==> ReachedUpTo(pool, addedPackageIds, Providers(pool, job.requirement), |Providers(pool, job.requirement)|)
      ensures error.None? ==> Closed()
    {
      var packages := pool.WhatProvides(job.requirement);
      error := None;
      if packages != [] {
        error := AddInstallProviders(packages, job.requirement);
      }
    }

    /** The package rules of every provider, then the clause "one of the providers". */
    method AddInstallProviders(packages: seq<Package>, req: Requirement) returns (error: Option<Error>)
      requires Valid() && Closed() && packages == Providers(pool, req)
      modifies this`rules, this`addedPackageIds, this`handled
      ensures Valid() && old(rules) <= rules && old(addedPackageIds) <= addedPackageIds
      ensures error.None? ==> InstallRecorded(rules, pool, req)
      ensures error.None? ==> ReachedUpTo(pool, addedPackageIds, packages, |packages|)
      ensures error.None? ==> Closed()
    {
      error := AddEachPackageRules(packages, Some([req]));
      if error.None? {
        ghost var before := rules;
        AddInstallOneOfRule(packages, req);
        AllGrow(before, rules, pool, versionOf, handled);
      }
    }

    /** The clause "one of the providers" of an install job. */
    method AddInstallOneOfRule(packages: seq<Package>, req: Requirement)
      requires Valid() && packages == Providers(pool, req)
      modifies this`rules
      ensures Valid() && old(rules) <= rules && InstallRecorded(rules, pool, req)
    {
      ProvidersInPool(pool, req);
      var rule := InstallOneOfRule(pool, packages, JobInstall, Some([req]));
      assert rule.value.literals == SortInts(IdsOf(pool, packages).value);
      AddRule(Some(rule.value));
    }

    /**
     * `_add_remove_job_rules`: the clause "not p" for every provider, and
     * no other new rule.
     */
    method AddRemoveJobRules(job: Job)
      requires Valid()
      modifies this`rules
      ensures Valid() && old(rules) <= rules
      ensures RemoveRecorded(rules, pool, job.requirement)
      ensures RemovalsSince(rules, |old(rules)|, pool, Providers(pool, job.requirement))
    {
      var packages := pool.WhatProvides(job.requirement);
      ProvidersInPool(pool, job.requirement);
      for i := 0 to |packages|
        invariant Valid() && old(rules) <= rules
        invariant RemovedUpTo(rules, pool, packages, i) && RemovalsSince(rules, |old(rules)|, pool, packages)
      {
        AddRemoveRule(packages, i, job.requirement, |old(rules)|);
      }
    }

    /** The clause "not p" of the `i`-th provider of a remove job. */
    method AddRemoveRule(packages: seq<Package>, i: int, req: Requirement, ghost start: int)
      requires Valid() && 0 <= i < |packages| && packages[i] in pool.added
      requires RemovedUpTo(rules, pool, packages, i) && RemovalsSince(rules, start, pool, packages)
      modifies this`rules
      ensures Valid() && old(rules) <= rules
      ensures RemovedUpTo(rules, pool, packages, i + 1) && RemovalsSince(rules, start, pool, packages)
    {
      var rule := RemoveRule(pool, packages[i], JobRemove, Some([req]));
      RemoveStep(rules, InsertRule(rules, rule.value), pool, packages, i, start, rule.value);
      AddRule(Some(rule.value));
    }

    /**
     * `_add_update_job_rules`: the package rules of the update target (the
     * newest provider, an installed one first among equal versions) and its
     * unit clause; nothing when there is no provider.
     */
    method AddUpdateJobRules(job: Job) returns (error: Option<Error>)
      requires Valid() && Closed()
      modifies this`rules, this`addedPackageIds, this`handled
      ensures Valid() && old(rules) <= rules && old(addedPackageIds) <= addedPackageIds
      ensures Providers(pool, job.requirement) == [] ==> rules == old(rules) && addedPackageIds == old(addedPackageIds)
      ensures error.None? ==> UpdateRecorded(rules, pool, InstalledIds(), job.requirement)
      ensures error.None? && Providers(pool, job.requirement) != [] ==>
                Reached(UpdateTarget(pool, InstalledIds(), Providers(pool, job.requirement)).value)
      ensures error.None? ==> Closed()
    {
      var packages := pool.WhatProvides(job.requirement);
      if packages == [] {
        return None;
      }
      error := AddUpdateTargetRules(job, packages);
    }

    /** The update job's rules when the requirement has providers. */
    method AddUpdateTargetRules(job: Job, packages: seq<Package>) returns (error: Option<Error>)
      requires Valid() && Closed() && packages == Providers(pool, job.requirement) && packages != []
      modifies this`rules, this`addedPackageIds, this`handled
      ensures Valid() && old(rules) <= rules && old(addedPackageIds) <= addedPackageIds
      ensures error.None? ==>
                HasLiterals(rules, [pool.PackageId(UpdateTarget(pool, InstalledIds(), packages).value).value])
      ensures error.None? ==> Reached(UpdateTarget(pool, InstalledIds(), packages).value)
      ensures error.None? ==> Closed()
    {
      ProvidersInPool(pool, job.requirement);
      var package := UpdateTarget(pool, InstalledIds(), packages).value;
      error := AddTargetRules(package, job.requirement);
      if error.None? {
        ghost var before := rules;
        AddUpdateUnit(package, job.requirement);
        WalkClosedGrow(before, rules, pool, versionOf, handled, addedPackageIds);
      }
    }

    /** The package rules of one package, its id taken up when nothing fails. */
    method AddTargetRules(package: Package, req: Requirement) returns (error: Option<Error>)
      requires Valid() && Closed()
      modifies this`rules, this`addedPackageIds, this`handled
      ensures Valid() && old(rules) <= rules && old(addedPackageIds) <= addedPackageIds
      ensures error.None? ==> Reached(package)
      ensures error.None? ==> Closed()
    {
      ghost var walk;
      error, walk := AddPackageRules(package, Some([req]));
    }

    /** The unit clause of the update target. */
    method AddUpdateUnit(package: Package, req: Requirement)
      requires Valid() && package in pool.added
      modifies this`rules
      ensures Valid() && old(rules) <= rules && HasLiterals(rules, [pool.PackageId(package).value])
    {
      var id := pool.PackageId(package).value;
      SortSingle(id);
      AddRule(Some(NewRule([id], JobUpdate, Some([req]))));
    }

    /**
     * `_add_constrain_job_rules`: "not p" for every package of the job's
     * name that the job's requirement does not accept, in id order, and no
     * other rule. The name is read as a requirement of its own, which can
     * fail. No job kind of a request leads here.
     */
    method AddConstrainJobRules(job: Job) returns (error: Option<Error>)
      requires Valid()
      modifies this`rules
      ensures Valid() && old(rules) <= rules && NegativeUnitsSince(rules, |old(rules)|)
      ensures error.None? <==> FromString(job.requirement.name, versionOf).Ok?
      ensures error.None? ==>
                ConstrainRecorded(rules, pool, FromString(job.requirement.name, versionOf).value, job.requirement)
    {
      var nameReq := FromString(job.requirement.name, versionOf);
      if nameReq.Err? {
        return Some(nameReq.error);
      }
      var named := pool.WhatProvides(nameReq.value);
      var matched := pool.WhatProvides(job.requirement);
      ProvidersInPool(pool, nameReq.value);
      ProvidersInPool(pool, job.requirement);
      var forbidden := IdSet(pool, named).value - IdSet(pool, matched).value;
      forall id | id in forbidden ensures id > 0 {
        IdSetMeaning(pool, named, id);
      }
      AddNegatedRules(forbidden, job.requirement);
      forall id | ConstrainTarget(pool, nameReq.value, job.requirement, id)
        ensures HasLiterals(rules, [-id])
      {
        ConstrainIdsMeaning(pool, nameReq.value, job.requirement, id);
      }
      return None;
    }

    /** The clause "not id" for each id, in increasing order. */
    method AddNegatedRules(forbidden: set<int>, req: Requirement)
      requires Valid() && forall id :: id in forbidden ==> id > 0
      modifies this`rules
      ensures Valid() && old(rules) <= rules && NegativeUnitsSince(rules, |old(rules)|)
      ensures NegatedAll(rules, forbidden)
    {
      var ids := SortedSet(forbidden);
      for i := 0 to |ids|
        invariant Valid() && old(rules) <= rules
        invariant NegatedUpTo(rules, ids, i) && NegativeUnitsSince(rules, |old(rules)|)
      {
        AddNegatedRule(ids, i, req, |old(rules)|);
      }
      NegatedSorted(rules, forbidden);
    }

    /** The clause "not ids[i]". */
    method AddNegatedRule(ids: seq<int>, i: int, req: Requirement, ghost start: int)
      requires Valid() && NegatedUpTo(rules, ids, i) && NegativeUnitsSince(rules, start)
      requires i < |ids| && ids[i] > 0
      modifies this`rules
      ensures Valid() && old(rules) <= rules && NegatedUpTo(rules, ids, i + 1) && NegativeUnitsSince(rules, start)
    {
      ghost var before := rules;
      var rule := NewRule([-ids[i]], JobConstrain, Some([req]));
      SortSingle(-ids[i]);
      AddRule(Some(rule));
      NegatedStep(before, rules, ids, i, start, rule);
    }

    /** One job, by its kind (`_add_job_rules`' dispatch). */
    method AddJob(job: Job) returns (error: Option<Error>)
      requires Valid() && Closed()
      modifies this`rules, this`addedPackageIds, this`handled
      ensures Valid() && old(rules) <= rules && old(addedPackageIds) <= addedPackageIds
      ensures error.None? ==> JobRecorded(rules, pool, InstalledIds(), job)
      ensures error.None? ==> Closed()
    {
      match job.kind
      case Install =>
        error := AddInstallJobRules(job);
      case Remove =>
        ghost var before := rules;
        AddRemoveJobRules(job);
        AllGrow(before, rules, pool, versionOf, handled);
        error := None;
      case Update =>
        error := AddUpdateJobRules(job);
    }

    /** `_add_job_rules`: the rules of every job of the request, in order. */
    method AddJobRules() returns (error: Option<Error>)
      requires Valid() && Closed()
      modifies this`rules, this`addedPackageIds, this`handled
      ensures Valid() && old(rules) <= rules && old(addedPackageIds) <= addedPackageIds
      ensures error.None? ==> JobsUpTo(rules, pool, InstalledIds(), request.jobs, |request.jobs|)
      ensures error.None? ==> Closed()
    {
      var jobs := request.jobs;
      for i := 0 to |jobs|
        invariant Valid() && Closed() && old(rules) <= rules && old(addedPackageIds) <= addedPackageIds
        invariant JobsUpTo(rules, pool, InstalledIds(), jobs, i)
      {
        ghost var before := rules;
        error := AddJob(jobs[i]);
        if error.Some? {
          return;
        }
        JobsStep(before, rules, pool, InstalledIds(), jobs, i);
      }
      return None;
    }

    /**
     * `_add_installed_package_rules`: the package rules of every package of
     * the installed package's name. The pool defines no `name_to_packages`;
     * the call is taken to read the pool's by-name index.
     */
    method AddInstalledPackageRules(package: Package) returns (error: Option<Error>)
      requires Valid() && Closed()
      modifies this`rules, this`addedPackageIds, this`handled
      ensures Valid() && old(rules) <= rules && old(addedPackageIds) <= addedPackageIds
      ensures error.None? ==> forall q :: q in pool.added && q.name == package.name ==> Reached(q)
      ensures error.None? ==> Closed()
    {
      var packages := Lookup(pool.packagesByName, package.name);
      if package.name !in pool.packagesByName {
        OfNameEmpty(pool.added, package.name);
      }
      error := AddEachPackageRules(packages, None);
    }

    /**
     * `iter_rules`: the taken-up ids are reset, the job rules come first
     * (so a rule a job shares with a package keeps the job's reason), then
     * for every installed package the rules of its whole name and its own.
     * The set comes back, or the first error raised.
     */
    method IterRules() returns (r: Result<seq<PackageRule>>)
      requires Valid()
      modifies this`rules, this`addedPackageIds, this`handled
      ensures Valid() && old(rules) <= rules
      ensures r.Ok? ==> r.value == rules && Distinct(r.value)
      ensures r.Ok? ==> JobsUpTo(rules, pool, InstalledIds(), request.jobs, |request.jobs|)
      ensures r.Ok? ==> ReachedUpTo(pool, addedPackageIds, Installed(installedMap), |installedMap|)
      ensures r.Ok? ==> DependencyClosed(rules, pool, versionOf, addedPackageIds)
    {
      addedPackageIds := {};
      handled := [];
      var error := AddJobRules();
      if error.Some? {
        return Err(error.value);
      }
      ghost var jobs := request.jobs;
      ghost var installed := Installed(installedMap);
      for i := 0 to |installedMap|
        invariant Valid() && Closed() && old(rules) <= rules
        invariant JobsUpTo(rules, pool, InstalledIds(), jobs, |jobs|)
        invariant ReachedUpTo(pool, addedPackageIds, installed, i)
      {
        ghost var before, beforeIds := rules, addedPackageIds;
        error := InstalledStep(installedMap[i].1);
        if error.Some? {
          return Err(error.value);
        }
        JobsGrow(before, rules, pool, InstalledIds(), jobs, |jobs|);
        ReachedStep(pool, beforeIds, addedPackageIds, installed, i);
      }
      WalkClosedMeaning(rules, pool, versionOf, handled, addedPackageIds);
      return Ok(rules);
    }

    /** The loop body of `iter_rules` for one installed package. */
    method InstalledStep(package: Package) returns (error: Option<Error>)
      requires Valid() && Closed()
      modifies this`rules, this`addedPackageIds, this`handled
      ensures Valid() && old(rules) <= rules && old(addedPackageIds) <= addedPackageIds
      ensures error.None? ==> package in pool.added && pool.PackageId(package).value in addedPackageIds
      ensures error.None? ==> Closed()
    {
      error := AddInstalledPackageRules(package);
      if error.None? {
        ghost var walk;
        error, walk := AddPackageRules(package, None);
      }
    }
  }
}
