/**
 * Package requirements (simplesat/constraints/requirement.py): a
 * distribution name with a set of version constraints, built from a
 * requirement string, a constraint tuple or a package full name.
 */
module Requirements {
  import opened Wrappers
  import opened Kinds
  import opened SeqUtil
  import opened PyText
  import opened ConstraintParser

  // ---------------------------------------------------------------------
  // parse_package_full_name
  // ---------------------------------------------------------------------

  /** Where the name part stops: the first '-' or '.', or the end. */
  function NameEnd(s: string): (k: nat)
    ensures k <= |s|
    ensures forall i :: 0 <= i < k ==> s[i] != '-' && s[i] != '.'
    ensures k < |s| ==> s[k] == '-' || s[k] == '.'
  {
    if s == [] || s[0] == '-' || s[0] == '.' then 0 else 1 + NameEnd(s[1..])
  }

  /** Where the first line stops: the first newline, or the end. */
  function LineEnd(s: string): (k: nat)
    ensures k <= |s|
    ensures forall i :: 0 <= i < k ==> s[i] != '\n'
    ensures k < |s| ==> s[k] == '\n'
  {
    if s == [] || s[0] == '\n' then 0 else 1 + LineEnd(s[1..])
  }

  /** `[^-.]+`: a non-empty name without '-' or '.'. */
  predicate IsPackageName(name: string)
  {
    name != [] && forall i :: 0 <= i < |name| ==> name[i] != '-' && name[i] != '.'
  }

  /** `.*`: text without a newline. */
  predicate IsOneLine(text: string)
  {
    forall i :: 0 <= i < |text| ==> text[i] != '\n'
  }

  /**
   * `full` is `name-version`, where `$` also accepts one newline at the
   * very end.
   */
  predicate IsFullName(full: string, name: string, version: string)
  {
    IsPackageName(name) && IsOneLine(version) &&
    (full == name + "-" + version || full == name + "-" + version + "\n")
  }

  /**
   * `parse_package_full_name(full_name)`: the name up to the first '-', and
   * the rest as the version string; SolverException when the pattern does
   * not match.
   */
  function ParsePackageFullName(full: string): (r: Result<(string, string)>)
    ensures r.Ok? ==> IsFullName(full, r.value.0, r.value.1)
    ensures r.Err? ==> r.error == SolverException
  {
    var k := NameEnd(full);
    if k == 0 || k == |full| || full[k] != '-' then Err(SolverException)
    else
      var rest := full[k + 1..];
      var j := LineEnd(rest);
      if j == |rest| then
        assert full == full[..k] + "-" + rest;
        Ok((full[..k], rest))
      else if j == |rest| - 1 then
        assert rest == rest[..j] + "\n";
        assert full == full[..k] + "-" + rest[..j] + "\n";
        Ok((full[..k], rest[..j]))
      else Err(SolverException)
  }

  lemma {:induction false} NameEndOf(name: string, rest: string)
    requires forall i :: 0 <= i < |name| ==> name[i] != '-' && name[i] != '.'
    requires rest != [] && rest[0] == '-'
    ensures NameEnd(name + rest) == |name|
    decreases |name|
  {
    if name != [] {
      assert (name + rest)[1..] == name[1..] + rest;
      NameEndOf(name[1..], rest);
    } else {
      assert name + rest == rest;
    }
  }

  lemma {:induction false} LineEndOf(line: string, tail: string)
    requires IsOneLine(line)
    requires tail == [] || tail[0] == '\n'
    ensures LineEnd(line + tail) == |line|
    decreases |line|
  {
    if line != [] {
      assert (line + tail)[1..] == line[1..] + tail;
      LineEndOf(line[1..], tail);
    } else {
      assert line + tail == tail;
    }
  }

  /**
   * Every way of reading `full` as a name and a version is the one the
   * parser finds: it never fails on a well-formed full name, and the split
   * at the first '-' is the only one.
   */
  lemma ParsePackageFullNameComplete(full: string, name: string, version: string)
    requires IsFullName(full, name, version)
    ensures ParsePackageFullName(full) == Ok((name, version))
  {
    var tail: string := if full == name + "-" + version then [] else "\n";
    assert full == name + ("-" + version + tail);
    NameEndOf(name, "-" + version + tail);
    var k := |name|;
    assert full[..k] == name;
    assert full[k + 1..] == version + tail;
    LineEndOf(version, tail);
    if tail != [] {
      assert (version + tail)[..|version|] == version;
    }
  }

  /** Round trip: joining a name and a version with '-' and parsing gives them back. */
  lemma ParsePackageFullNameRoundTrip(name: string, version: string)
    requires IsPackageName(name) && IsOneLine(version)
    ensures ParsePackageFullName(name + "-" + version) == Ok((name, version))
  {
    ParsePackageFullNameComplete(name + "-" + version, name, version);
  }

  // ---------------------------------------------------------------------
  // Requirement
  // ---------------------------------------------------------------------

  /**
   * A requirement: a distribution name and the set of constraints every
   * candidate version must satisfy. Two requirements are equal when their
   * names and constraint sets are; the hash is a function of the same two.
   */
  datatype Requirement = Requirement(name: string, constraints: set<Constraint>)

  /** `matches(version_candidate)`: the candidate satisfies every constraint. */
  predicate Matches(req: Requirement, v: Version)
  {
    forall c :: c in req.constraints ==> ConstraintMatches(c, v)
  }

  /**
   * `has_any_version_constraint`: false for no constraint or a single `*`,
   * true otherwise.
   */
  function HasAnyVersionConstraint(req: Requirement): (b: bool)
    ensures !b <==> req.constraints == {} || req.constraints == {Any}
  {
    var cs := req.constraints;
    if |cs| == 0 then false
    else if |cs| == 1 && Any in cs then
      assert |cs - {Any}| == 0;
      false
    else true
  }

  /** A requirement without a version constraint admits every version. */
  lemma NoVersionConstraintMatchesAll(req: Requirement, v: Version)
    requires !HasAnyVersionConstraint(req)
    ensures Matches(req, v)
  {
  }

  // ---------------------------------------------------------------------
  // Requirement._from_string
  // ---------------------------------------------------------------------

  /**
   * `Requirement._from_string(string, version_factory)`: the requirement
   * string must name exactly one distribution; more than one raises
   * InvalidDependencyString, none trips the assertion.
   */
  function FromString(s: string, versionOf: string -> Result<Version>): (r: Result<Requirement>)
  {
    var named :- ParsedRequirements(s, versionOf);
    FromNamed(named)
  }

  /** The checks `_from_string` makes on the parsed names. */
  function FromNamed(named: NamedConstraints): (r: Result<Requirement>)
    requires named.Valid()
    ensures r.Ok? <==> |named.names| == 1
    ensures r.Ok? ==> r.value.name == named.names[0]
    ensures r.Err? ==> r.error == if named.names == [] then AssertionError else InvalidDependencyString
  {
    if |named.names| > 1 then Err(InvalidDependencyString)
    else if |named.names| == 0 then Err(AssertionError)
    else
      var name := named.names[0];
      assert name in named.constraints;
      Ok(Requirement(name, ElementSet(named.constraints[name])))
  }

  /** The token blocks of a requirement string, when it tokenizes. */
  function Blocks(s: string): Result<seq<seq<Token>>>
  {
    TokenizeParts(RequirementsScanner, SplitOn(s, ','))
  }

  /** Every block names the distribution `name`. */
  predicate AllNamed(blocks: seq<seq<Token>>, name: string)
  {
    forall i :: 0 <= i < |blocks| ==> blocks[i] != [] && blocks[i][0].value == name
  }

  /** The one distribution every block names, if there are blocks and they agree. */
  function SoleName(blocks: seq<seq<Token>>): Option<string>
  {
    if blocks != [] && blocks[0] != [] && AllNamed(blocks, blocks[0][0].value) then Some(blocks[0][0].value) else None
  }

  /**
   * When the string parses, `_from_string` succeeds exactly when there is
   * at least one block and every block names the same distribution, and
   * the requirement takes that name; otherwise it raises
   * InvalidDependencyString, or AssertionError for a string with no block.
   */
  lemma FromStringOneName(s: string, versionOf: string -> Result<Version>)
    requires ParsedRequirements(s, versionOf).Ok?
    ensures Blocks(s).Ok?
    ensures var r := FromString(s, versionOf);
      (r.Ok? <==> SoleName(Blocks(s).value).Some?) &&
      (r.Ok? ==> r.value.name == SoleName(Blocks(s).value).value) &&
      (r.Err? ==> r.error == if Blocks(s).value == [] then AssertionError else InvalidDependencyString)
  {
    var blocks := Blocks(s).value;
    var named := RequirementsOfBlocks(blocks, versionOf).value;
    assert FromString(s, versionOf) == FromNamed(named);
    OneNameOfBlocks(blocks, versionOf);
  }

  /** `FromStringOneName` over the token blocks. */
  lemma OneNameOfBlocks(blocks: seq<seq<Token>>, versionOf: string -> Result<Version>)
    requires RequirementsOfBlocks(blocks, versionOf).Ok?
    ensures var r := FromNamed(RequirementsOfBlocks(blocks, versionOf).value);
      (r.Ok? <==> SoleName(blocks).Some?) &&
      (r.Ok? ==> r.value.name == SoleName(blocks).value) &&
      (r.Err? ==> r.error == if blocks == [] then AssertionError else InvalidDependencyString)
  {
    RequirementsNamesInOrder(blocks, versionOf);
    var hs := Heads(blocks);
    DedupSingle(hs);
    if blocks != [] {
      HeadsAllSame(blocks);
    }
  }

  lemma HeadsAllSame(blocks: seq<seq<Token>>)
    requires blocks != [] && forall i :: 0 <= i < |blocks| ==> blocks[i] != []
    ensures Heads(blocks)[0] == blocks[0][0].value
    ensures (forall i :: 0 <= i < |Heads(blocks)| ==> Heads(blocks)[i] == Heads(blocks)[0]) <==> AllNamed(blocks, blocks[0][0].value)
  {
  }

  // ---------------------------------------------------------------------
  // Requirement.from_package_string
  // ---------------------------------------------------------------------

  /**
   * `Requirement.from_package_string(package_string, version_factory)`:
   * the name of the full name, pinned with `==` to its version.
   */
  function FromPackageString(s: string, versionOf: string -> Result<Version>): (r: Result<Requirement>)
    ensures ParsePackageFullName(s).Err? ==> r == Err(SolverException)
    ensures r.Ok? ==> ParsePackageFullName(s).Ok? && r.value.name == ParsePackageFullName(s).value.0
  {
    var (name, version) :- ParsePackageFullName(s);
    var v :- versionOf(version);
    Ok(Requirement(name, {Equal(v)}))
  }

  /** The requirement built from a full name admits exactly the version it names. */
  lemma FromPackageStringMatches(s: string, versionOf: string -> Result<Version>, w: Version)
    requires FromPackageString(s, versionOf).Ok?
    ensures Matches(FromPackageString(s, versionOf).value, w) <==> versionOf(ParsePackageFullName(s).value.1) == Ok(w)
    ensures HasAnyVersionConstraint(FromPackageString(s, versionOf).value)
  {
    var req := FromPackageString(s, versionOf).value;
    var v := versionOf(ParsePackageFullName(s).value.1).value;
    assert req.constraints == {Equal(v)};
    assert Matches(req, w) <==> ConstraintMatches(Equal(v), w);
  }

  // ---------------------------------------------------------------------
  // Requirement.from_constraints
  // ---------------------------------------------------------------------

  /** The nested tuples of strings a constraint tuple is made of. */
  datatype Value = Str(text: string) | Tup(items: seq<Value>)

  /** What iterating over a value yields: a string gives its characters. */
  function Items(v: Value): (r: seq<Value>)
    ensures v.Tup? ==> r == v.items
    ensures v.Str? ==> |r| == |v.text| && forall i :: 0 <= i < |r| ==> r[i] == Str([v.text[i]])
  {
    match v
    case Tup(items) => items
    case Str(text) => seq(|text|, i requires 0 <= i < |text| => Str([text[i]]))
  }

  /**
   * The constraints of one conjunction: each string through the
   * constraints parser, in order, so the first string that fails decides
   * the error; a non-string has no `split` (AttributeError).
   */
  function ConjunctionConstraints(strs: seq<Value>, versionOf: string -> Result<Version>): (r: Result<set<Constraint>>)
    ensures r.Ok? ==> forall i :: 0 <= i < |strs| ==>
      strs[i].Str? && ParsedConstraints(strs[i].text, versionOf).Ok? &&
      ElementSet(ParsedConstraints(strs[i].text, versionOf).value) <= r.value
    ensures r.Ok? ==> forall c :: c in r.value ==>
      exists i :: 0 <= i < |strs| && strs[i].Str? && ParsedConstraints(strs[i].text, versionOf).Ok? && c in ParsedConstraints(strs[i].text, versionOf).value
    ensures strs != [] && strs[0].Tup? ==> r == Err(AttributeError)
    ensures strs != [] && strs[0].Str? && ParsedConstraints(strs[0].text, versionOf).Err? ==>
      r == Err(ParsedConstraints(strs[0].text, versionOf).error)
    decreases |strs|
  {
    if strs == [] then Ok({})
    else
      match strs[0]
      case Tup(_) => Err(AttributeError)
      case Str(text) =>
        var cs :- ParsedConstraints(text, versionOf);
        var rest :- ConjunctionConstraints(strs[1..], versionOf);
        ConjunctionStep(strs, cs, rest, versionOf);
        Ok(ElementSet(cs) + rest)
  }

  /** The constraints of the first string joined to those of the others cover exactly the strings' constraints. */
  lemma ConjunctionStep(strs: seq<Value>, cs: seq<Constraint>, rest: set<Constraint>, versionOf: string -> Result<Version>)
    requires strs != [] && strs[0].Str? && ParsedConstraints(strs[0].text, versionOf) == Ok(cs)
    requires forall i :: 0 <= i < |strs[1..]| ==>
      strs[1..][i].Str? && ParsedConstraints(strs[1..][i].text, versionOf).Ok? &&
      ElementSet(ParsedConstraints(strs[1..][i].text, versionOf).value) <= rest
    requires forall c :: c in rest ==>
      exists i :: 0 <= i < |strs[1..]| && strs[1..][i].Str? && ParsedConstraints(strs[1..][i].text, versionOf).Ok? && c in ParsedConstraints(strs[1..][i].text, versionOf).value
    ensures forall i :: 0 <= i < |strs| ==>
      strs[i].Str? && ParsedConstraints(strs[i].text, versionOf).Ok? &&
      ElementSet(ParsedConstraints(strs[i].text, versionOf).value) <= ElementSet(cs) + rest
    ensures forall c :: c in ElementSet(cs) + rest ==>
      exists i :: 0 <= i < |strs| && strs[i].Str? && ParsedConstraints(strs[i].text, versionOf).Ok? && c in ParsedConstraints(strs[i].text, versionOf).value
  {
    assert forall i :: 1 <= i < |strs| ==> strs[i] == strs[1..][i - 1];
    forall c | c in ElementSet(cs) + rest
      ensures exists i :: 0 <= i < |strs| && strs[i].Str? && ParsedConstraints(strs[i].text, versionOf).Ok? && c in ParsedConstraints(strs[i].text, versionOf).value
    {
      if c !in rest {
        assert c in cs;
        assert 0 <= 0 < |strs| && strs[0].Str? && ParsedConstraints(strs[0].text, versionOf).Ok? && c in ParsedConstraints(strs[0].text, versionOf).value;
      }
    }
  }

  /**
   * `Requirement.from_constraints(constraint_tuple)`: the tuple must unpack
   * into a name and a disjunction, and the disjunction may hold at most one
   * conjunction; both failures raise InvalidConstraint.
   */
  function FromConstraints(t: Value, versionOf: string -> Result<Version>): (r: Result<Requirement>)
    ensures |Items(t)| != 2 ==> r == Err(InvalidConstraint)
    ensures |Items(t)| == 2 && |Items(Items(t)[1])| > 1 ==> r == Err(InvalidConstraint)
    ensures r.Ok? ==> |Items(t)| == 2 && Items(t)[0] == Str(r.value.name) && |Items(Items(t)[1])| <= 1
  {
    var items := Items(t);
    if |items| != 2 then Err(InvalidConstraint)
    else
      var disjunction := Items(items[1]);
      if |disjunction| > 1 then Err(InvalidConstraint)
      else
        var cs :- if disjunction == [] then Ok({}) else ConjunctionConstraints(Items(disjunction[0]), versionOf);
        match items[0]
        case Tup(_) => Err(TypeError)
        case Str(name) => Ok(Requirement(name, cs))
  }

  /**
   * A tuple with one conjunction of constraint strings gives the
   * requirement of that name with the constraints of those strings; with
   * no conjunction it admits every version.
   */
  lemma FromConstraintsOneConjunction(name: string, conjunction: seq<Value>, versionOf: string -> Result<Version>)
    ensures FromConstraints(Tup([Str(name), Tup([])]), versionOf) == Ok(Requirement(name, {}))
    ensures ConjunctionConstraints(conjunction, versionOf).Err? ==>
      FromConstraints(Tup([Str(name), Tup([Tup(conjunction)])]), versionOf) == Err(ConjunctionConstraints(conjunction, versionOf).error)
    ensures ConjunctionConstraints(conjunction, versionOf).Ok? ==>
      FromConstraints(Tup([Str(name), Tup([Tup(conjunction)])]), versionOf) == Ok(Requirement(name, ConjunctionConstraints(conjunction, versionOf).value))
  {
    var t := Tup([Str(name), Tup([Tup(conjunction)])]);
    assert Items(t) == [Str(name), Tup([Tup(conjunction)])];
    assert Items(Items(t)[1]) == [Tup(conjunction)];
    assert Items(Tup(conjunction)) == conjunction;
    var e := Tup([Str(name), Tup([])]);
    assert Items(e) == [Str(name), Tup([])];
    assert Items(Items(e)[1]) == [];
  }
}
