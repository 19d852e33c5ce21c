/**
 * Constraint modifiers (simplesat/constraints/constraint_modifiers.py):
 * the allow-older, allow-newer and allow-any rewrites of a requirement's
 * constraints, applied to the distributions named in a modifier set.
 */
module ConstraintModifiersModel {
  import opened Wrappers
  import opened Kinds
  import opened SeqUtil
  import opened Requirements

  /** `MAX_BUILD`: the build number of the least upper bound of an upstream version. */
  const MaxBuild: nat := 999999999

  /** The three rewrite tables. */
  datatype Modifier = AllowOlder | AllowNewer | AllowAny

  /** `LEQ_LEAST_UPPER_BOUND(version)`: at most the last build of that upstream version. */
  function LeqLeastUpperBound(v: Version): (c: Constraint)
    ensures c.LEQ? && c.version.upstream == v.upstream
    ensures forall w: Version :: w.upstream == v.upstream && w.build <= MaxBuild ==> ConstraintMatches(c, w)
  {
    LEQ(Version(v.upstream, MaxBuild))
  }

  /** `type_map[type(c)](c.version)` for one of the three tables. */
  function Modify(m: Modifier, c: Constraint): Constraint
  {
    match m
    case AllowNewer =>
      (match c
       case Any => Any
       case Equal(v) => GEQ(v)
       case Not(v) => Not(v)
       case GEQ(v) => GEQ(v)
       case GT(v) => GT(v)
       case LEQ(_) => Any
       case LT(_) => Any
       case EnpkgUpstreamMatch(v) => GEQ(v))
    case AllowOlder =>
      (match c
       case Any => Any
       case Equal(v) => LEQ(v)
       case Not(v) => Not(v)
       case GEQ(_) => Any
       case GT(_) => Any
       case LEQ(v) => LEQ(v)
       case LT(v) => LT(v)
       case EnpkgUpstreamMatch(v) => LeqLeastUpperBound(v))
    case AllowAny =>
      (match c
       case Not(v) => Not(v)
       case _ => Any)
  }

  /** The version ranges this model's rewrites are exact on. */
  predicate InRange(c: Constraint, w: Version)
  {
    (c.EnpkgUpstreamMatch? ==> c.version.build == 0) && w.build <= MaxBuild
  }

  /**
   * Every rewrite only widens a constraint: a version it admitted is still
   * admitted, for upstream matches written without a build and builds up to
   * `MAX_BUILD`.
   */
  lemma ModifyRelaxes(m: Modifier, c: Constraint, w: Version)
    requires InRange(c, w) && ConstraintMatches(c, w)
    ensures ConstraintMatches(Modify(m, c), w)
  {
  }

  /** No rewrite produces an upstream match, and `!=` survives every one of them. */
  lemma ModifyShape(m: Modifier, c: Constraint)
    ensures !Modify(m, c).EnpkgUpstreamMatch?
    ensures c.Not? <==> Modify(m, c).Not?
    ensures c.Not? ==> Modify(m, c) == c
  {
  }

  /** After allow-newer no constraint bounds a version from above: what it admits, it admits newer too, barring `!=`. */
  lemma AllowNewerNoUpperBound(c: Constraint, w: Version, w': Version)
    requires ConstraintMatches(Modify(AllowNewer, c), w) && VersionLeq(w, w')
    requires c.Not? ==> w' != c.version
    ensures ConstraintMatches(Modify(AllowNewer, c), w')
  {
  }

  /** After allow-older no constraint bounds a version from below: what it admits, it admits older too, barring `!=`. */
  lemma AllowOlderNoLowerBound(c: Constraint, w: Version, w': Version)
    requires ConstraintMatches(Modify(AllowOlder, c), w) && VersionLeq(w', w)
    requires c.Not? ==> w' != c.version
    ensures ConstraintMatches(Modify(AllowOlder, c), w')
  {
  }

  /** After allow-any only a `!=` constraint rejects anything. */
  lemma AllowAnyOnlyNot(c: Constraint, w: Version)
    ensures ConstraintMatches(Modify(AllowAny, c), w) <==> (c.Not? ==> w != c.version)
  {
  }

  /** `_transform_constraints(constraints, type_map)`. */
  function ModifyAll(cs: seq<Constraint>, m: Modifier): (r: seq<Constraint>)
    ensures |r| == |cs| && forall i :: 0 <= i < |cs| ==> r[i] == Modify(m, cs[i])
  {
    seq(|cs|, i requires 0 <= i < |cs| => Modify(m, cs[i]))
  }

  /** One constraint through several tables, in order. */
  function ModifyChain(c: Constraint, ms: seq<Modifier>): Constraint
    decreases |ms|
  {
    if ms == [] then c else Modify(ms[|ms| - 1], ModifyChain(c, ms[..|ms| - 1]))
  }

  /** The constraints through several tables, in order. */
  function ModifyAllChain(cs: seq<Constraint>, ms: seq<Modifier>): (r: seq<Constraint>)
    ensures |r| == |cs| && forall i :: 0 <= i < |cs| ==> r[i] == ModifyChain(cs[i], ms)
    decreases |ms|
  {
    if ms == [] then cs else ModifyAll(ModifyAllChain(cs, ms[..|ms| - 1]), ms[|ms| - 1])
  }

  /** A chain of rewrites only widens a constraint, as each rewrite does. */
  lemma {:induction false} ModifyChainRelaxes(c: Constraint, ms: seq<Modifier>, w: Version)
    requires InRange(c, w) && ConstraintMatches(c, w)
    ensures ConstraintMatches(ModifyChain(c, ms), w)
    ensures ms != [] ==> !ModifyChain(c, ms).EnpkgUpstreamMatch?
    decreases |ms|
  {
    if ms != [] {
      var init := ms[..|ms| - 1];
      ModifyChainRelaxes(c, init, w);
      var d := ModifyChain(c, init);
      assert InRange(d, w);
      ModifyRelaxes(ms[|ms| - 1], d, w);
      ModifyShape(ms[|ms| - 1], d);
    }
  }

  /** The tables that apply to a name, in the order older, newer, any. */
  function ActiveModifiers(name: string, older: set<string>, newer: set<string>, anyNames: set<string>): (ms: seq<Modifier>)
    ensures ms == [] <==> name !in older && name !in newer && name !in anyNames
  {
    (if name in older then [AllowOlder] else []) +
    (if name in newer then [AllowNewer] else []) +
    (if name in anyNames then [AllowAny] else [])
  }

  /**
   * The new constraints `_transform_requirement` builds, or None when it
   * returns the requirement itself: when no table applies to the name, or
   * the rewritten constraints equal the original ones. `order` is the order
   * in which the requirement's constraint container yields its
   * constraints. The new constraints hold every rewritten constraint once,
   * in the order of first occurrence.
   */
  function TransformedConstraints(name: string, order: seq<Constraint>, older: set<string>, newer: set<string>, anyNames: set<string>): (r: Option<seq<Constraint>>)
    ensures ActiveModifiers(name, older, newer, anyNames) == [] ==> r.None?
    ensures r.Some? ==> var out := ModifyAllChain(order, ActiveModifiers(name, older, newer, anyNames));
      out != order && NoDup(r.value) &&
      (forall i :: 0 <= i < |out| ==> out[i] in r.value) &&
      (forall i :: 0 <= i < |r.value| ==> r.value[i] in out) &&
      (forall i, j :: 0 <= i < j < |r.value| ==> FirstIndex(out, r.value[i]) < FirstIndex(out, r.value[j]))
  {
    var ms := ActiveModifiers(name, older, newer, anyNames);
    var out := ModifyAllChain(order, ms);
    if ms != [] && out != order then
      var cs := Dedup(out);
      assert forall i, j :: 0 <= i < j < |cs| ==> FirstIndex(out, cs[i]) < FirstIndex(out, cs[j]) by {
        forall i, j | 0 <= i < j < |cs| ensures FirstIndex(out, cs[i]) < FirstIndex(out, cs[j]) {
          DedupOrder(out, i, j);
        }
      }
      Some(cs)
    else None
  }

  /** The value `_transform_requirement` returns. */
  function TransformedRequirement(req: Requirement, order: seq<Constraint>, older: set<string>, newer: set<string>, anyNames: set<string>): Requirement
  {
    match TransformedConstraints(req.name, order, older, newer, anyNames)
    case None => req
    case Some(cs) => Requirement(req.name, ElementSet(cs))
  }

  /** `_transform_requirement(requirement, allow_newer, allow_any, allow_older)`. */
  method TransformRequirement(req: Requirement, order: seq<Constraint>, older: set<string>, newer: set<string>, anyNames: set<string>)
    returns (r: Requirement)
    ensures r == TransformedRequirement(req, order, older, newer, anyNames)
  {
    var transformers := [(older, AllowOlder), (newer, AllowNewer), (anyNames, AllowAny)];
    ghost var applied: seq<Modifier> := [];
    var modified := false;
    var constraints := order;
    var i := 0;
    while i < |transformers|
      invariant i <= |transformers|
      invariant applied == ActivePrefix(req.name, transformers[..i])
      invariant modified <==> applied != []
      invariant constraints == ModifyAllChain(order, applied)
    {
      var (names, m) := transformers[i];
      assert transformers[..i + 1] == transformers[..i] + [transformers[i]];
      if req.name in names {
        assert (applied + [m])[..|applied|] == applied;
        modified := true;
        constraints := ModifyAll(constraints, m);
        applied := applied + [m];
      }
      i := i + 1;
    }
    assert transformers[..i] == transformers;
    assert applied == ActiveModifiers(req.name, older, newer, anyNames) by {
      ActivePrefixAll(req.name, older, newer, anyNames);
    }
    if modified && constraints != order {
      r := Requirement(req.name, ElementSet(Dedup(constraints)));
    } else {
      r := req;
    }
  }

  /** The tables among `ts` whose name set holds `name`, in order. */
  function ActivePrefix(name: string, ts: seq<(set<string>, Modifier)>): seq<Modifier>
    decreases |ts|
  {
    if ts == [] then []
    else ActivePrefix(name, ts[..|ts| - 1]) + (if name in ts[|ts| - 1].0 then [ts[|ts| - 1].1] else [])
  }

  lemma ActivePrefixAll(name: string, older: set<string>, newer: set<string>, anyNames: set<string>)
    ensures ActivePrefix(name, [(older, AllowOlder), (newer, AllowNewer), (anyNames, AllowAny)]) == ActiveModifiers(name, older, newer, anyNames)
  {
    var ts := [(older, AllowOlder), (newer, AllowNewer), (anyNames, AllowAny)];
    var one := [(older, AllowOlder)];
    var two := [(older, AllowOlder), (newer, AllowNewer)];
    assert one[..0] == [];
    assert ActivePrefix(name, one) == if name in older then [AllowOlder] else [];
    assert two[..1] == one;
    assert ActivePrefix(name, two) == ActivePrefix(name, one) + (if name in newer then [AllowNewer] else []);
    assert ts[..2] == two;
    assert ActivePrefix(name, ts) == ActivePrefix(name, two) + (if name in anyNames then [AllowAny] else []);
  }

  /** A requirement whose name is in no modifier set comes back unchanged. */
  lemma UntargetedUnchanged(req: Requirement, order: seq<Constraint>, older: set<string>, newer: set<string>, anyNames: set<string>)
    requires req.name !in older && req.name !in newer && req.name !in anyNames
    ensures TransformedRequirement(req, order, older, newer, anyNames) == req
  {
  }

  /**
   * Transforming only widens a requirement: every version the original
   * admitted is still admitted, for upstream matches written without a
   * build and builds up to `MAX_BUILD`.
   */
  lemma TransformRelaxes(req: Requirement, order: seq<Constraint>, older: set<string>, newer: set<string>, anyNames: set<string>, w: Version)
    requires ElementSet(order) == req.constraints
    requires forall c :: c in req.constraints ==> InRange(c, w)
    requires Matches(req, w)
    ensures Matches(TransformedRequirement(req, order, older, newer, anyNames), w)
  {
    var ms := ActiveModifiers(req.name, older, newer, anyNames);
    var out := ModifyAllChain(order, ms);
    var r := TransformedRequirement(req, order, older, newer, anyNames);
    var t := TransformedConstraints(req.name, order, older, newer, anyNames);
    if t.Some? {
      assert r.constraints == ElementSet(t.value);
      forall c | c in r.constraints ensures ConstraintMatches(c, w) {
        var j :| 0 <= j < |t.value| && t.value[j] == c;
        var k :| 0 <= k < |out| && out[k] == c;
        assert order[k] in req.constraints;
        ModifyChainRelaxes(order[k], ms, w);
      }
    }
  }

  /**
   * The names a modifier option is given as: a single string stands for
   * itself, any other iterable for its elements.
   */
  datatype NameOption = OneName(name: string) | NameList(names: seq<string>)

  /** `iterable_to_set(container)`: a string is wrapped, not split into characters. */
  function IterableToSet(c: NameOption): (r: set<string>)
    ensures c.OneName? ==> r == {c.name}
    ensures c.NameList? ==> forall x :: x in r <==> x in c.names
  {
    match c
    case OneName(n) => {n}
    case NameList(ns) => set x | x in ns
  }

  /** `ConstraintModifiers`: the three name sets. */
  datatype ConstraintModifiers = ConstraintModifiers(allowNewer: set<string>, allowAny: set<string>, allowOlder: set<string>)

  function MakeModifiers(newer: NameOption, anyNames: NameOption, older: NameOption): ConstraintModifiers
  {
    ConstraintModifiers(IterableToSet(newer), IterableToSet(anyNames), IterableToSet(older))
  }

  /** `targets`: every name some modifier applies to. */
  function Targets(m: ConstraintModifiers): (r: set<string>)
    ensures forall x :: x in r <==> x in m.allowNewer || x in m.allowAny || x in m.allowOlder
  {
    m.allowNewer + m.allowAny + m.allowOlder
  }

  /** `_TransformInstallRequires.with_modifiers(requirement, modifiers)`. */
  function WithModifiers(req: Requirement, order: seq<Constraint>, m: ConstraintModifiers): Requirement
  {
    TransformedRequirement(req, order, m.allowOlder, m.allowNewer, m.allowAny)
  }

  /** Only the targets of the modifiers are ever rewritten. */
  lemma NonTargetUnchanged(req: Requirement, order: seq<Constraint>, m: ConstraintModifiers)
    requires req.name !in Targets(m)
    ensures WithModifiers(req, order, m) == req
  {
    UntargetedUnchanged(req, order, m.allowOlder, m.allowNewer, m.allowAny);
  }
}
