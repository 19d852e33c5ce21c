/**
 * The constraint and requirement string parsers
 * (simplesat/constraints/parser.py).
 *
 * A string is cut at commas; each stripped part is run through a scanner
 * (an ordered list of token rules, the first rule that matches at the
 * current position wins and takes as much as it can; runs of blanks are
 * dropped); each non-empty token block is then read as one constraint.
 */
module ConstraintParser {
  import opened Wrappers
  import opened PyText
  import opened Kinds
  import opened SeqUtil

  datatype TokenKind =
    | DistributionName
    | VersionText
    | EqualOp
    | GEQOp
    | GTOp
    | LEQOp
    | LTOp
    | NotOp
    | UpstreamMatchOp
    | AnyOp

  datatype Token = Token(kind: TokenKind, value: string)

  /** One scanner rule: a pattern and the token it produces, or blanks that produce none. */
  datatype Rule =
    | VersionPattern
    | DistributionPattern
    | Literal(text: string, kind: TokenKind)
    | Blanks

  /** `[^=><!,\s^]`: a character that may start a version. */
  predicate VersionHead(c: char)
  {
    c != '=' && c != '>' && c != '<' && c != '!' && c != ',' && c != '^' && !IsSpace(c)
  }

  /** `[^,\s]`: a character that may continue a version. */
  predicate VersionTail(c: char)
  {
    c != ',' && !IsSpace(c)
  }

  /** `[a-zA-Z_]`: a character that may start a distribution name. */
  predicate DistributionHead(c: char)
  {
    ('a' <= c <= 'z') || ('A' <= c <= 'Z') || c == '_'
  }

  /** `[^\s-]`: a character that may continue a distribution name. */
  predicate DistributionTail(c: char)
  {
    c != '-' && !IsSpace(c)
  }

  datatype CharClass = VersionChars | DistributionChars | BlankChars

  predicate InClass(k: CharClass, c: char)
  {
    match k
    case VersionChars => VersionTail(c)
    case DistributionChars => DistributionTail(c)
    case BlankChars => c == ' '
  }

  /** Length of the longest prefix of `s` made of characters of class `k`. */
  function RunLength(s: string, k: CharClass): (n: nat)
    ensures n <= |s|
    ensures forall i :: 0 <= i < n ==> InClass(k, s[i])
    ensures n < |s| ==> !InClass(k, s[n])
  {
    if s == [] || !InClass(k, s[0]) then 0 else 1 + RunLength(s[1..], k)
  }

  /** How many characters rule `r` takes at the start of `s`; 0 when it does not match there. */
  function MatchLength(r: Rule, s: string): (n: nat)
    ensures n <= |s|
  {
    match r
    case VersionPattern =>
      // `[^=><!,\s^][^,\s]+`: a head and at least one more character
      if |s| >= 2 && VersionHead(s[0]) && VersionTail(s[1]) then 1 + RunLength(s[1..], VersionChars) else 0
    case DistributionPattern =>
      // `[a-zA-Z_][^\s-]*`
      if |s| >= 1 && DistributionHead(s[0]) then 1 + RunLength(s[1..], DistributionChars) else 0
    case Literal(text, _) =>
      if text <= s then |text| else 0
    case Blanks =>
      // ` +`
      RunLength(s, BlankChars)
  }

  /** The operator table, in the order the scanners try it. */
  const Operators: seq<Rule> := [
    Literal("==", EqualOp),
    Literal(">=", GEQOp),
    Literal(">", GTOp),
    Literal("<=", LEQOp),
    Literal("<", LTOp),
    Literal("!=", NotOp),
    Literal("^=", UpstreamMatchOp),
    Literal("*", AnyOp)
  ]

  /** `_CONSTRAINTS_SCANNER`: versions, operators, blanks. */
  const ConstraintsScanner: seq<Rule> := [VersionPattern] + Operators + [Blanks]

  /** `_REQUIREMENTS_SCANNER`: distribution names first, then as above. */
  const RequirementsScanner: seq<Rule> := [DistributionPattern, VersionPattern] + Operators + [Blanks]

  /** Every literal is a non-empty word without blanks. */
  predicate RulesWellFormed(rules: seq<Rule>)
  {
    forall i :: 0 <= i < |rules| && rules[i].Literal? ==> rules[i].text != [] && ' ' !in rules[i].text
  }

  lemma ScannersWellFormed()
    ensures RulesWellFormed(ConstraintsScanner) && RulesWellFormed(RequirementsScanner)
  {
  }

  /** The first rule, in order, that matches at the start of `s`, with its length. */
  function FirstMatch(rules: seq<Rule>, s: string): (m: Option<(Rule, nat)>)
    ensures m.None? ==> forall i :: 0 <= i < |rules| ==> MatchLength(rules[i], s) == 0
    ensures m.Some? ==> m.value.0 in rules && 0 < m.value.1 == MatchLength(m.value.0, s)
  {
    if rules == [] then None
    else if MatchLength(rules[0], s) > 0 then Some((rules[0], MatchLength(rules[0], s)))
    else FirstMatch(rules[1..], s)
  }

  function TokenOf(r: Rule, text: string): Token
    requires !r.Blanks?
  {
    match r
    case VersionPattern => Token(VersionText, text)
    case DistributionPattern => Token(DistributionName, text)
    case Literal(_, kind) => Token(kind, text)
  }

  /**
   * `scanner.scan(s)`: tokens while some rule matches, and the text left
   * over where none does.
   */
  function Scan(rules: seq<Rule>, s: string): (r: (seq<Token>, string))
    ensures |r.1| <= |s| && r.1 == s[|s| - |r.1|..]
    decreases |s|
  {
    if s == [] then ([], [])
    else
      var m := FirstMatch(rules, s);
      if m.None? then ([], s)
      else
        var more := Scan(rules, s[m.value.1..]);
        if m.value.0.Blanks? then more else ([TokenOf(m.value.0, s[..m.value.1])] + more.0, more.1)
  }

  /** The text without its blanks. */
  function Unblanked(s: string): string
  {
    if s == [] then [] else (if s[0] == ' ' then [] else [s[0]]) + Unblanked(s[1..])
  }

  lemma {:induction false} UnblankedAppend(a: string, b: string)
    ensures Unblanked(a + b) == Unblanked(a) + Unblanked(b)
    decreases |a|
  {
    if a != [] {
      assert (a + b)[0] == a[0];
      assert (a + b)[1..] == a[1..] + b;
      UnblankedAppend(a[1..], b);
      var h := if a[0] == ' ' then [] else [a[0]];
      calc {
        Unblanked(a + b);
        h + Unblanked(a[1..] + b);
        h + (Unblanked(a[1..]) + Unblanked(b));
        (h + Unblanked(a[1..])) + Unblanked(b);
        Unblanked(a) + Unblanked(b);
      }
    } else {
      assert a + b == b;
    }
  }

  lemma {:induction false} UnblankedNoBlank(s: string)
    requires ' ' !in s
    ensures Unblanked(s) == s
    decreases |s|
  {
    if s != [] {
      UnblankedNoBlank(s[1..]);
    }
  }

  lemma {:induction false} UnblankedAllBlank(s: string)
    requires forall i :: 0 <= i < |s| ==> s[i] == ' '
    ensures Unblanked(s) == []
    decreases |s|
  {
    if s != [] {
      UnblankedAllBlank(s[1..]);
    }
  }

  function Concat(tokens: seq<Token>): string
  {
    if tokens == [] then [] else tokens[0].value + Concat(tokens[1..])
  }

  /** What a matching rule takes: blanks only for `Blanks`, no blank at all otherwise. */
  lemma MatchedText(rules: seq<Rule>, s: string, rule: Rule, n: nat)
    requires RulesWellFormed(rules) && rule in rules && 0 < n == MatchLength(rule, s)
    ensures rule.Blanks? ==> Unblanked(s[..n]) == []
    ensures !rule.Blanks? ==> ' ' !in s[..n]
  {
    if rule.Blanks? {
      UnblankedAllBlank(s[..n]);
    } else if rule.Literal? {
      assert s[..n] == rule.text;
    } else {
      assert s[..n] == [s[0]] + s[1..][..n - 1];
    }
  }

  /** The scanner stops only at the end of the text or where no rule matches. */
  lemma {:induction false} ScanStopsWhereNothingMatches(rules: seq<Rule>, s: string)
    ensures Scan(rules, s).1 != [] ==> FirstMatch(rules, Scan(rules, s).1).None?
    decreases |s|
  {
    if s != [] && FirstMatch(rules, s).Some? {
      var n := FirstMatch(rules, s).value.1;
      ScanStopsWhereNothingMatches(rules, s[n..]);
      assert Scan(rules, s).1 == Scan(rules, s[n..]).1;
    }
  }

  /**
   * The scanner loses nothing but blanks: the token texts, in order, then
   * the text left over, spell the input without its blanks.
   */
  lemma {:induction false} ScanKeepsText(rules: seq<Rule>, s: string)
    requires RulesWellFormed(rules)
    ensures Unblanked(s) == Concat(Scan(rules, s).0) + Unblanked(Scan(rules, s).1)
    decreases |s|
  {
    if s == [] || FirstMatch(rules, s).None? {
      ScanKeepsTextEnd(rules, s);
    } else {
      var (rule, n) := FirstMatch(rules, s).value;
      ScanKeepsText(rules, s[n..]);
      ScanKeepsTextStep(rules, s, rule, n);
    }
  }

  /** `ScanKeepsText` where the scanner stops at once. */
  lemma ScanKeepsTextEnd(rules: seq<Rule>, s: string)
    requires s == [] || FirstMatch(rules, s).None?
    ensures Unblanked(s) == Concat(Scan(rules, s).0) + Unblanked(Scan(rules, s).1)
  {
    var r := Scan(rules, s);
    assert r.0 == [] && r.1 == s;
    assert Concat(r.0) == [];
    assert Concat(r.0) + Unblanked(r.1) == Unblanked(s);
  }

  /** `ScanKeepsText` for one match, given it for the text after the match. */
  lemma ScanKeepsTextStep(rules: seq<Rule>, s: string, rule: Rule, n: nat)
    requires RulesWellFormed(rules)
    requires s != [] && FirstMatch(rules, s) == Some((rule, n))
    requires Unblanked(s[n..]) == Concat(Scan(rules, s[n..]).0) + Unblanked(Scan(rules, s[n..]).1)
    ensures Unblanked(s) == Concat(Scan(rules, s).0) + Unblanked(Scan(rules, s).1)
  {
    var sub := Scan(rules, s[n..]);
    var r := Scan(rules, s);
    MatchedText(rules, s, rule, n);
    ScanUnfold(rules, s, rule, n);
    if rule.Blanks? {
      assert r.0 == sub.0 && r.1 == sub.1;
      SpellBlanks(s, n, sub.1, sub.0);
    } else {
      var token := TokenOf(rule, s[..n]);
      assert r.0 == [token] + sub.0 && r.1 == sub.1;
      SpellToken(s, n, sub.1, token, sub.0);
    }
  }

  /** One step of the scanner: the token of the first match, then the scan of the rest. */
  lemma ScanUnfold(rules: seq<Rule>, s: string, rule: Rule, n: nat)
    requires s != [] && FirstMatch(rules, s) == Some((rule, n))
    ensures n <= |s|
    ensures Scan(rules, s).1 == Scan(rules, s[n..]).1
    ensures Scan(rules, s).0 == (if rule.Blanks? then [] else [TokenOf(rule, s[..n])]) + Scan(rules, s[n..]).0
  {
    var more := Scan(rules, s[n..]);
    if rule.Blanks? {
      assert Scan(rules, s) == more;
      assert [] + more.0 == more.0;
    } else {
      assert Scan(rules, s) == ([TokenOf(rule, s[..n])] + more.0, more.1);
    }
  }

  /** One step of `ScanKeepsText` over blanks: they add nothing to the text. */
  lemma SpellBlanks(s: string, n: nat, rest: string, tokens: seq<Token>)
    requires n <= |s|
    requires Unblanked(s[n..]) == Concat(tokens) + Unblanked(rest)
    requires Unblanked(s[..n]) == []
    ensures Unblanked(s) == Concat(tokens) + Unblanked(rest)
  {
    assert s == s[..n] + s[n..];
    UnblankedAppend(s[..n], s[n..]);
  }

  /** One step of `ScanKeepsText` over a token: its text, then the text of the rest. */
  lemma SpellToken(s: string, n: nat, rest: string, token: Token, tokens: seq<Token>)
    requires n <= |s|
    requires Unblanked(s[n..]) == Concat(tokens) + Unblanked(rest)
    requires token.value == s[..n] && ' ' !in s[..n]
    ensures Unblanked(s) == Concat([token] + tokens) + Unblanked(rest)
  {
    assert s == s[..n] + s[n..];
    UnblankedAppend(s[..n], s[n..]);
    UnblankedNoBlank(s[..n]);
    assert ([token] + tokens)[1..] == tokens;
  }

  /** No token is empty. */
  lemma {:induction false} ScanTokensNonEmpty(rules: seq<Rule>, s: string)
    ensures forall i :: 0 <= i < |Scan(rules, s).0| ==> Scan(rules, s).0[i].value != []
    decreases |s|
  {
    if s != [] && FirstMatch(rules, s).Some? {
      var (rule, n) := FirstMatch(rules, s).value;
      ScanTokensNonEmpty(rules, s[n..]);
      if !rule.Blanks? {
        assert Scan(rules, s).0 == [TokenOf(rule, s[..n])] + Scan(rules, s[n..]).0;
      }
    }
  }

  /** One stripped part through the scanner: its tokens, or SolverException when text is left over. */
  function PartTokens(rules: seq<Rule>, part: string): (r: Result<seq<Token>>)
    ensures r.Err? <==> Scan(rules, Strip(part)).1 != []
    ensures r.Err? ==> r.error == SolverException
    ensures r.Ok? ==> r.value == Scan(rules, Strip(part)).0
  {
    var (scanned, remaining) := Scan(rules, Strip(part));
    if |remaining| > 0 then Err(SolverException) else Ok(scanned)
  }

  /** A part that scans to its end is spelled by its tokens, blanks aside. */
  lemma PartTokensSpell(rules: seq<Rule>, part: string)
    requires RulesWellFormed(rules)
    ensures PartTokens(rules, part).Ok? ==> Concat(PartTokens(rules, part).value) == Unblanked(Strip(part))
  {
    ScanKeepsText(rules, Strip(part));
    var rest := Scan(rules, Strip(part)).1;
    if rest == [] {
      assert Unblanked(rest) == [];
      assert Concat(Scan(rules, Strip(part)).0) + [] == Concat(Scan(rules, Strip(part)).0);
    }
  }

  /** The token blocks of the parts, left to right; parts with no tokens give no block. */
  function TokenizeParts(rules: seq<Rule>, parts: seq<string>): (r: Result<seq<seq<Token>>>)
    ensures r.Ok? ==> forall i :: 0 <= i < |r.value| ==> r.value[i] != []
    decreases |parts|
  {
    if parts == [] then Ok([])
    else
      match TokenizeParts(rules, parts[..|parts| - 1])
      case Err(e) => Err(e)
      case Ok(blocks) =>
        match PartTokens(rules, parts[|parts| - 1])
        case Err(e) => Err(e)
        case Ok(scanned) => if scanned == [] then Ok(blocks) else Ok(blocks + [scanned])
  }

  /** Every part scans to its end. */
  predicate AllPartsScan(rules: seq<Rule>, parts: seq<string>)
  {
    forall i :: 0 <= i < |parts| ==> PartTokens(rules, parts[i]).Ok?
  }

  /** Tokenizing succeeds exactly when every part scans to its end; otherwise it raises SolverException. */
  lemma {:induction false} TokenizeOkIff(rules: seq<Rule>, parts: seq<string>)
    ensures TokenizeParts(rules, parts).Ok? <==> AllPartsScan(rules, parts)
    ensures TokenizeParts(rules, parts).Err? ==> TokenizeParts(rules, parts).error == SolverException
    decreases |parts|
  {
    if parts != [] {
      TokenizeOkIff(rules, parts[..|parts| - 1]);
      TokenizeUnfold(rules, parts);
      AllPartsScanSnoc(rules, parts);
    }
  }

  /** The tokenizer's last step: the blocks of the other parts, then the last part's. */
  lemma TokenizeUnfold(rules: seq<Rule>, parts: seq<string>)
    requires parts != []
    ensures var init := TokenizeParts(rules, parts[..|parts| - 1]);
      var last := PartTokens(rules, parts[|parts| - 1]);
      TokenizeParts(rules, parts) ==
        if init.Err? then init
        else if last.Err? then Err(last.error)
        else if last.value == [] then init
        else Ok(init.value + [last.value])
  {
  }

  lemma AllPartsScanSnoc(rules: seq<Rule>, parts: seq<string>)
    requires parts != []
    ensures AllPartsScan(rules, parts) <==>
      AllPartsScan(rules, parts[..|parts| - 1]) && PartTokens(rules, parts[|parts| - 1]).Ok?
  {
    var init := parts[..|parts| - 1];
    if AllPartsScan(rules, init) && PartTokens(rules, parts[|parts| - 1]).Ok? {
      AllPartsScanGrows(rules, init, parts);
    }
    if AllPartsScan(rules, parts) {
      AllPartsScanPrefix(rules, init, parts);
    }
  }

  lemma AllPartsScanGrows(rules: seq<Rule>, init: seq<string>, parts: seq<string>)
    requires parts != [] && init == parts[..|parts| - 1]
    requires AllPartsScan(rules, init) && PartTokens(rules, parts[|parts| - 1]).Ok?
    ensures AllPartsScan(rules, parts)
  {
    forall i | 0 <= i < |parts| ensures PartTokens(rules, parts[i]).Ok? {
      if i < |init| {
        assert parts[i] == init[i];
        assert PartTokens(rules, init[i]).Ok?;
      } else {
        assert i == |parts| - 1;
      }
    }
  }

  lemma AllPartsScanPrefix(rules: seq<Rule>, init: seq<string>, parts: seq<string>)
    requires parts != [] && init == parts[..|parts| - 1]
    requires AllPartsScan(rules, parts)
    ensures AllPartsScan(rules, init)
  {
    forall i | 0 <= i < |init| ensures PartTokens(rules, init[i]).Ok? {
      assert parts[i] == init[i];
    }
  }

  /** Once a prefix of the parts fails, the whole fails the same way. */
  lemma {:induction false} TokenizeErrorSticks(rules: seq<Rule>, parts: seq<string>, k: nat)
    requires k <= |parts| && TokenizeParts(rules, parts[..k]).Err?
    ensures TokenizeParts(rules, parts) == TokenizeParts(rules, parts[..k])
    decreases |parts| - k
  {
    if k < |parts| {
      assert parts[..k + 1][..k] == parts[..k];
      TokenizeErrorSticks(rules, parts, k + 1);
    } else {
      assert parts[..k] == parts;
    }
  }

  /** `_tokenize(scanner, requirement_string)`. */
  method Tokenize(rules: seq<Rule>, requirement: string) returns (r: Result<seq<seq<Token>>>)
    ensures r == TokenizeParts(rules, SplitOn(requirement, ','))
  {
    var parts := SplitOn(requirement, ',');
    var tokens: seq<seq<Token>> := [];
    var i := 0;
    while i < |parts|
      invariant i <= |parts|
      invariant TokenizeParts(rules, parts[..i]) == Ok(tokens)
    {
      assert parts[..i + 1][..i] == parts[..i];
      var part := PartTokens(rules, parts[i]);
      if part.Err? {
        TokenizeErrorSticks(rules, parts, i + 1);
        return part.PropagateFailure();
      } else if part.value != [] {
        tokens := tokens + [part.value];
      }
      i := i + 1;
    }
    assert parts[..i] == parts;
    r := Ok(tokens);
  }

  /** The text each operator token is scanned from. */
  function OperatorText(kind: TokenKind): string
  {
    match kind
    case EqualOp => "=="
    case GEQOp => ">="
    case GTOp => ">"
    case LEQOp => "<="
    case LTOp => "<"
    case NotOp => "!="
    case UpstreamMatchOp => "^="
    case AnyOp => "*"
    case _ => ""
  }

  /** The operator a constraint is written with. */
  function Symbol(c: Constraint): string
  {
    match c
    case Any => "*"
    case Equal(_) => "=="
    case GEQ(_) => ">="
    case GT(_) => ">"
    case LEQ(_) => "<="
    case LT(_) => "<"
    case Not(_) => "!="
    case EnpkgUpstreamMatch(_) => "^="
  }

  /** The tokens `_OPERATOR_TO_SPEC` knows: the comparisons, not `*`. */
  predicate IsComparison(kind: TokenKind)
  {
    kind in {EqualOp, GEQOp, GTOp, LEQOp, LTOp, NotOp, UpstreamMatchOp}
  }

  /**
   * `_spec_factory(token)`: the constraint kind of a comparison token, or
   * SolverException for any other token. The kind built is the one written
   * with the operator the scanner reads into that token.
   */
  function SpecFactory(t: Token): (r: Result<Version -> Constraint>)
    ensures r.Ok? <==> IsComparison(t.kind)
    ensures r.Err? ==> r.error == SolverException
    ensures r.Ok? ==> forall v :: !r.value(v).Any? && r.value(v).version == v && Symbol(r.value(v)) == OperatorText(t.kind)
  {
    match t.kind
    case UpstreamMatchOp => Ok(v => EnpkgUpstreamMatch(v))
    case EqualOp => Ok(v => Equal(v))
    case GEQOp => Ok(v => GEQ(v))
    case GTOp => Ok(v => GT(v))
    case LEQOp => Ok(v => LEQ(v))
    case LTOp => Ok(v => LT(v))
    case NotOp => Ok(v => Not(v))
    case _ => Err(SolverException)
  }

  /**
   * `_operator_factory(operator, version, version_factory)`: the kind is
   * looked up first, then the version text is read.
   */
  function OperatorFactory(op: Token, version: Token, versionOf: string -> Result<Version>): (r: Result<Constraint>)
    ensures !IsComparison(op.kind) ==> r == Err(SolverException)
    ensures IsComparison(op.kind) && versionOf(version.value).Err? ==> r == Err(versionOf(version.value).error)
    ensures r.Ok? ==> !r.value.Any? && Ok(r.value.version) == versionOf(version.value) && Symbol(r.value) == OperatorText(op.kind)
  {
    var make :- SpecFactory(op);
    var v :- versionOf(version.value);
    Ok(make(v))
  }

  /** `constraints.add(c)` on a set kept in insertion order. */
  function AddOnce(cs: seq<Constraint>, c: Constraint): (r: seq<Constraint>)
    ensures NoDup(cs) ==> NoDup(r)
    ensures c in r && forall x :: x in r <==> x in cs || x == c
  {
    if c in cs then cs else cs + [c]
  }

  /** One block of the constraints parser: it must be (operator, version). */
  function BlockConstraint(block: seq<Token>, versionOf: string -> Result<Version>): (r: Result<Constraint>)
    ensures |block| != 2 ==> r == Err(SolverException)
    ensures |block| == 2 ==> r == OperatorFactory(block[0], block[1], versionOf)
  {
    if |block| == 2 then OperatorFactory(block[0], block[1], versionOf) else Err(SolverException)
  }

  /** `_RawConstraintsParser.parse` over the token blocks: every block adds its constraint to the set. */
  function ConstraintsOfBlocks(blocks: seq<seq<Token>>, versionOf: string -> Result<Version>): (r: Result<seq<Constraint>>)
    ensures r.Ok? ==> NoDup(r.value)
    decreases |blocks|
  {
    if blocks == [] then Ok([])
    else
      match ConstraintsOfBlocks(blocks[..|blocks| - 1], versionOf)
      case Err(e) => Err(e)
      case Ok(cs) =>
        match BlockConstraint(blocks[|blocks| - 1], versionOf)
        case Err(e) => Err(e)
        case Ok(c) => Ok(AddOnce(cs, c))
  }

  /** The constraints parser succeeds only when every block is a valid (operator, version) pair. */
  lemma {:induction false} ConstraintsBlocksValid(blocks: seq<seq<Token>>, versionOf: string -> Result<Version>)
    requires ConstraintsOfBlocks(blocks, versionOf).Ok?
    ensures forall i :: 0 <= i < |blocks| ==> |blocks[i]| == 2 && BlockConstraint(blocks[i], versionOf).Ok?
    decreases |blocks|
  {
    if blocks != [] {
      var init := blocks[..|blocks| - 1];
      ConstraintsUnfold(blocks, versionOf);
      ConstraintsBlocksValid(init, versionOf);
      forall i | 0 <= i < |blocks| ensures |blocks[i]| == 2 && BlockConstraint(blocks[i], versionOf).Ok? {
        if i < |init| {
          assert blocks[i] == init[i];
        }
      }
    }
  }

  /** The constraints parser's last step: the last block's constraint added to the others'. */
  lemma ConstraintsUnfold(blocks: seq<seq<Token>>, versionOf: string -> Result<Version>)
    requires blocks != [] && ConstraintsOfBlocks(blocks, versionOf).Ok?
    ensures ConstraintsOfBlocks(blocks[..|blocks| - 1], versionOf).Ok?
    ensures BlockConstraint(blocks[|blocks| - 1], versionOf).Ok?
    ensures ConstraintsOfBlocks(blocks, versionOf).value ==
      AddOnce(ConstraintsOfBlocks(blocks[..|blocks| - 1], versionOf).value, BlockConstraint(blocks[|blocks| - 1], versionOf).value)
  {
  }

  /** The constraints of the blocks, one per block, in order. */
  function BlockValues(blocks: seq<seq<Token>>, versionOf: string -> Result<Version>): (r: seq<Constraint>)
    requires forall i :: 0 <= i < |blocks| ==> BlockConstraint(blocks[i], versionOf).Ok?
    ensures |r| == |blocks| && forall i :: 0 <= i < |blocks| ==> r[i] == BlockConstraint(blocks[i], versionOf).value
    decreases |blocks|
  {
    if blocks == [] then [] else BlockValues(blocks[..|blocks| - 1], versionOf) + [BlockConstraint(blocks[|blocks| - 1], versionOf).value]
  }

  /**
   * The parsed constraints are the constraints of the blocks, each once, in
   * the order they first appear.
   */
  lemma {:induction false} ConstraintsInOrder(blocks: seq<seq<Token>>, versionOf: string -> Result<Version>)
    requires ConstraintsOfBlocks(blocks, versionOf).Ok?
    ensures forall i :: 0 <= i < |blocks| ==> BlockConstraint(blocks[i], versionOf).Ok?
    ensures ConstraintsOfBlocks(blocks, versionOf).value == Dedup(BlockValues(blocks, versionOf))
    decreases |blocks|
  {
    ConstraintsBlocksValid(blocks, versionOf);
    if blocks != [] {
      var init := blocks[..|blocks| - 1];
      ConstraintsUnfold(blocks, versionOf);
      ConstraintsInOrder(init, versionOf);
      DedupSnoc(BlockValues(init, versionOf), BlockConstraint(blocks[|blocks| - 1], versionOf).value,
        ConstraintsOfBlocks(blocks, versionOf).value);
    }
  }

  lemma {:induction false} ConstraintsErrorSticks(blocks: seq<seq<Token>>, versionOf: string -> Result<Version>, k: nat)
    requires k <= |blocks| && ConstraintsOfBlocks(blocks[..k], versionOf).Err?
    ensures ConstraintsOfBlocks(blocks, versionOf) == ConstraintsOfBlocks(blocks[..k], versionOf)
    decreases |blocks| - k
  {
    if k < |blocks| {
      assert blocks[..k + 1][..k] == blocks[..k];
      ConstraintsErrorSticks(blocks, versionOf, k + 1);
    } else {
      assert blocks[..k] == blocks;
    }
  }

  /** The value `_RawConstraintsParser().parse` computes. */
  function ParsedConstraints(requirement: string, versionOf: string -> Result<Version>): Result<seq<Constraint>>
  {
    var blocks :- TokenizeParts(ConstraintsScanner, SplitOn(requirement, ','));
    ConstraintsOfBlocks(blocks, versionOf)
  }

  /** `_RawConstraintsParser().parse(requirement_string, version_factory)`. */
  method ParseConstraints(requirement: string, versionOf: string -> Result<Version>) returns (r: Result<seq<Constraint>>)
    ensures r == ParsedConstraints(requirement, versionOf)
  {
    var blocks :- Tokenize(ConstraintsScanner, requirement);
    r := ReadConstraintBlocks(blocks, versionOf);
  }

  /** The loop of `_RawConstraintsParser.parse` over the token blocks. */
  method ReadConstraintBlocks(blocks: seq<seq<Token>>, versionOf: string -> Result<Version>) returns (r: Result<seq<Constraint>>)
    ensures r == ConstraintsOfBlocks(blocks, versionOf)
  {
    var constraints: seq<Constraint> := [];
    var i := 0;
    while i < |blocks|
      invariant i <= |blocks|
      invariant ConstraintsOfBlocks(blocks[..i], versionOf) == Ok(constraints)
    {
      assert blocks[..i + 1][..i] == blocks[..i];
      var c := BlockConstraint(blocks[i], versionOf);
      if c.Err? {
        ConstraintsErrorSticks(blocks, versionOf, i + 1);
        return c.PropagateFailure();
      }
      constraints := AddOnce(constraints, c.value);
      i := i + 1;
    }
    assert blocks[..i] == blocks;
    r := Ok(constraints);
  }

  /** The constraints per distribution name, with the names in first-seen order. */
  datatype NamedConstraints = NamedConstraints(names: seq<string>, constraints: map<string, seq<Constraint>>)
  {
    ghost predicate Valid()
    {
      NoDup(names) && (forall n :: n in constraints <==> n in names)
    }
  }

  /** The set under a name of the default dictionary: empty for a name not yet seen. */
  function EntryOf(nc: NamedConstraints, name: string): seq<Constraint>
  {
    if name in nc.constraints then nc.constraints[name] else []
  }

  /**
   * `constraints[name].add(c)` on the default dictionary: the name's set
   * gains `c` (once), a new name is listed last, every other entry stays.
   */
  function AddNamed(nc: NamedConstraints, name: string, c: Constraint): (r: NamedConstraints)
    ensures nc.Valid() ==> r.Valid()
    ensures name in r.constraints && c in r.constraints[name]
    ensures r.names == if name in nc.names then nc.names else nc.names + [name]
    ensures r.constraints == nc.constraints[name := AddOnce(EntryOf(nc, name), c)]
    ensures forall x :: x in r.constraints[name] <==> x in EntryOf(nc, name) || x == c
    ensures forall n :: n != name ==> EntryOf(r, n) == EntryOf(nc, n)
  {
    NamedConstraints(
      if name in nc.names then nc.names else nc.names + [name],
      nc.constraints[name := AddOnce(EntryOf(nc, name), c)])
  }

  /**
   * One block of the requirement parser: (name, operator, version), or a
   * bare name, which stands for `*`.
   */
  function BlockRequirement(block: seq<Token>, versionOf: string -> Result<Version>): (r: Result<(string, Constraint)>)
    ensures r.Ok? ==> (|block| == 1 || |block| == 3) && r.value.0 == block[0].value
    ensures |block| == 1 ==> r == Ok((block[0].value, Any))
    ensures |block| != 1 && |block| != 3 ==> r == Err(SolverException)
    ensures |block| == 3 ==>
              match OperatorFactory(block[1], block[2], versionOf)
              case Ok(c) => r == Ok((block[0].value, c))
              case Err(e) => r == Err(e)
  {
    if |block| == 3 then
      var c :- OperatorFactory(block[1], block[2], versionOf);
      Ok((block[0].value, c))
    else if |block| == 1 then Ok((block[0].value, Any))
    else Err(SolverException)
  }

  /** `_RawRequirementParser.parse` over the token blocks. */
  function RequirementsOfBlocks(blocks: seq<seq<Token>>, versionOf: string -> Result<Version>): (r: Result<NamedConstraints>)
    ensures r.Ok? ==> r.value.Valid() && |r.value.names| <= |blocks|
    decreases |blocks|
  {
    if blocks == [] then Ok(NamedConstraints([], map[]))
    else
      match RequirementsOfBlocks(blocks[..|blocks| - 1], versionOf)
      case Err(e) => Err(e)
      case Ok(nc) =>
        match BlockRequirement(blocks[|blocks| - 1], versionOf)
        case Err(e) => Err(e)
        case Ok((name, c)) => Ok(AddNamed(nc, name, c))
  }

  /** The requirement parser succeeds only when every block is valid. */
  lemma {:induction false} RequirementsBlocksValid(blocks: seq<seq<Token>>, versionOf: string -> Result<Version>)
    requires RequirementsOfBlocks(blocks, versionOf).Ok?
    ensures forall i :: 0 <= i < |blocks| ==> blocks[i] != [] && BlockRequirement(blocks[i], versionOf).Ok?
    decreases |blocks|
  {
    if blocks != [] {
      var init := blocks[..|blocks| - 1];
      var last := |blocks| - 1;
      assert RequirementsOfBlocks(init, versionOf).Ok? && BlockRequirement(blocks[last], versionOf).Ok?;
      RequirementsBlocksValid(init, versionOf);
      forall i | 0 <= i < |blocks| ensures blocks[i] != [] && BlockRequirement(blocks[i], versionOf).Ok? {
        if i < last {
          assert blocks[i] == init[i];
        } else {
          assert i == last;
        }
      }
    }
  }

  /** The first token of each block, in order: the distribution names as written. */
  function Heads(blocks: seq<seq<Token>>): (r: seq<string>)
    requires forall i :: 0 <= i < |blocks| ==> blocks[i] != []
    ensures |r| == |blocks| && forall i :: 0 <= i < |blocks| ==> r[i] == blocks[i][0].value
    decreases |blocks|
  {
    if blocks == [] then [] else Heads(blocks[..|blocks| - 1]) + [blocks[|blocks| - 1][0].value]
  }

  /**
   * The parsed names are the distribution names of the blocks, each once,
   * in the order they first appear.
   */
  lemma {:induction false} RequirementsNamesInOrder(blocks: seq<seq<Token>>, versionOf: string -> Result<Version>)
    requires RequirementsOfBlocks(blocks, versionOf).Ok?
    ensures forall i :: 0 <= i < |blocks| ==> blocks[i] != []
    ensures RequirementsOfBlocks(blocks, versionOf).value.names == Dedup(Heads(blocks))
    decreases |blocks|
  {
    RequirementsBlocksValid(blocks, versionOf);
    if blocks != [] {
      var init := blocks[..|blocks| - 1];
      RequirementsUnfold(blocks, versionOf);
      RequirementsNamesInOrder(init, versionOf);
      DedupSnoc(Heads(init), blocks[|blocks| - 1][0].value, RequirementsOfBlocks(blocks, versionOf).value.names);
    }
  }

  /** Some block gives name `n` with constraint `x`. */
  ghost predicate BlocksGive(blocks: seq<seq<Token>>, versionOf: string -> Result<Version>, n: string, x: Constraint)
  {
    exists i :: 0 <= i < |blocks| && BlockRequirement(blocks[i], versionOf) == Ok((n, x))
  }

  /** A block gives the pair exactly when an earlier block or the last one does. */
  lemma BlocksGiveSnoc(blocks: seq<seq<Token>>, versionOf: string -> Result<Version>, n: string, x: Constraint)
    requires blocks != []
    ensures BlocksGive(blocks, versionOf, n, x) <==>
              BlocksGive(blocks[..|blocks| - 1], versionOf, n, x)
              || BlockRequirement(blocks[|blocks| - 1], versionOf) == Ok((n, x))
  {
    var init := blocks[..|blocks| - 1];
    if BlocksGive(blocks, versionOf, n, x) {
      var i :| 0 <= i < |blocks| && BlockRequirement(blocks[i], versionOf) == Ok((n, x));
      if i < |init| {
        assert blocks[i] == init[i];
      }
    }
    if BlocksGive(init, versionOf, n, x) {
      var i :| 0 <= i < |init| && BlockRequirement(init[i], versionOf) == Ok((n, x));
      assert blocks[i] == init[i];
    }
  }

  /**
   * The constraints parsed under each name are exactly those of the blocks
   * naming it: a constraint is in a name's set when some block gives that
   * name with that constraint, and only then.
   */
  lemma {:induction false} RequirementsConstraintsOf(blocks: seq<seq<Token>>, versionOf: string -> Result<Version>)
    requires RequirementsOfBlocks(blocks, versionOf).Ok?
    ensures forall n, x :: x in EntryOf(RequirementsOfBlocks(blocks, versionOf).value, n) <==>
              BlocksGive(blocks, versionOf, n, x)
    decreases |blocks|
  {
    if blocks != [] {
      var init := blocks[..|blocks| - 1];
      RequirementsUnfold(blocks, versionOf);
      RequirementsConstraintsOf(init, versionOf);
      var e := BlockRequirement(blocks[|blocks| - 1], versionOf).value;
      var nc := RequirementsOfBlocks(init, versionOf).value;
      var r := RequirementsOfBlocks(blocks, versionOf).value;
      assert r == AddNamed(nc, e.0, e.1);
      forall n, x
        ensures x in EntryOf(r, n) <==> BlocksGive(blocks, versionOf, n, x)
      {
        BlocksGiveSnoc(blocks, versionOf, n, x);
        if n == e.0 {
          assert x in EntryOf(r, n) <==> x in EntryOf(nc, n) || x == e.1;
        } else {
          assert EntryOf(r, n) == EntryOf(nc, n);
        }
      }
    } else {
      forall n, x ensures !BlocksGive(blocks, versionOf, n, x) { }
    }
  }

  /** The requirement parser's last step: the last block's entry added to the others'. */
  lemma RequirementsUnfold(blocks: seq<seq<Token>>, versionOf: string -> Result<Version>)
    requires blocks != [] && RequirementsOfBlocks(blocks, versionOf).Ok?
    ensures RequirementsOfBlocks(blocks[..|blocks| - 1], versionOf).Ok?
    ensures BlockRequirement(blocks[|blocks| - 1], versionOf).Ok?
    ensures var e := BlockRequirement(blocks[|blocks| - 1], versionOf).value;
      RequirementsOfBlocks(blocks, versionOf).value == AddNamed(RequirementsOfBlocks(blocks[..|blocks| - 1], versionOf).value, e.0, e.1)
  {
  }

  lemma {:induction false} RequirementsErrorSticks(blocks: seq<seq<Token>>, versionOf: string -> Result<Version>, k: nat)
    requires k <= |blocks| && RequirementsOfBlocks(blocks[..k], versionOf).Err?
    ensures RequirementsOfBlocks(blocks, versionOf) == RequirementsOfBlocks(blocks[..k], versionOf)
    decreases |blocks| - k
  {
    if k < |blocks| {
      assert blocks[..k + 1][..k] == blocks[..k];
      RequirementsErrorSticks(blocks, versionOf, k + 1);
    } else {
      assert blocks[..k] == blocks;
    }
  }

  /** The value `_RawRequirementParser().parse` computes. */
  function ParsedRequirements(requirement: string, versionOf: string -> Result<Version>): (r: Result<NamedConstraints>)
    ensures r.Ok? ==> r.value.Valid()
  {
    var blocks :- TokenizeParts(RequirementsScanner, SplitOn(requirement, ','));
    RequirementsOfBlocks(blocks, versionOf)
  }

  /** `_RawRequirementParser().parse(requirement_string, version_factory)`. */
  method ParseRequirements(requirement: string, versionOf: string -> Result<Version>) returns (r: Result<NamedConstraints>)
    ensures r == ParsedRequirements(requirement, versionOf)
  {
    var blocks :- Tokenize(RequirementsScanner, requirement);
    r := ReadRequirementBlocks(blocks, versionOf);
  }

  /** The loop of `_RawRequirementParser.parse` over the token blocks. */
  method ReadRequirementBlocks(blocks: seq<seq<Token>>, versionOf: string -> Result<Version>) returns (r: Result<NamedConstraints>)
    ensures r == RequirementsOfBlocks(blocks, versionOf)
  {
    var named := NamedConstraints([], map[]);
    var i := 0;
    while i < |blocks|
      invariant i <= |blocks|
      invariant RequirementsOfBlocks(blocks[..i], versionOf) == Ok(named)
    {
      assert blocks[..i + 1][..i] == blocks[..i];
      var entry := BlockRequirement(blocks[i], versionOf);
      if entry.Err? {
        RequirementsErrorSticks(blocks, versionOf, i + 1);
        return entry.PropagateFailure();
      }
      named := AddNamed(named, entry.value.0, entry.value.1);
      i := i + 1;
    }
    assert blocks[..i] == blocks;
    r := Ok(named);
  }
}
