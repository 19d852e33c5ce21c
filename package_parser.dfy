/**
 * Pretty package strings: `numpy 1.8.1-1; depends (MKL == 10.3, nose ^= 1.3.4)`.
 *
 * `Parse` reads one into the package's name, version and install
 * requirements (a dependency name mapped to one list of constraint
 * strings, emitted sorted by name); `PackageToPrettyString` writes one.
 * The regular expressions of the parser are modelled by the functions that
 * say where each match starts and ends, scanning from left to right as
 * `finditer` does.
 */
module PackageParser {
  import opened Wrappers
  import opened PyText
  import opened Kinds
  import ConstraintParser

  // ---------------------------------------------------------------------------
  // `str.rsplit(";", 1)`

  /** The position of the last `sep` in `s`, if any. */
  function LastIndex(s: string, sep: char): (r: Option<nat>)
    ensures r.None? <==> sep !in s
    ensures r.Some? ==> r.value < |s| && s[r.value] == sep && sep !in s[r.value + 1..]
    decreases |s|
  {
    if s == [] then None
    else if s[|s| - 1] == sep then Some(|s| - 1)
    else
      var r := LastIndex(s[..|s| - 1], sep);
      assert s == s[..|s| - 1] + [s[|s| - 1]];
      LastIndexStep(s, sep, r);
      r
  }

  lemma LastIndexStep(s: string, sep: char, r: Option<nat>)
    requires s != [] && s[|s| - 1] != sep
    requires r.None? <==> sep !in s[..|s| - 1]
    requires r.Some? ==> r.value < |s| - 1 && s[r.value] == sep && sep !in s[..|s| - 1][r.value + 1..]
    ensures r.None? <==> sep !in s
    ensures r.Some? ==> sep !in s[r.value + 1..]
  {
    assert s == s[..|s| - 1] + [s[|s| - 1]];
    if r.Some? {
      assert s[r.value + 1..] == s[..|s| - 1][r.value + 1..] + [s[|s| - 1]];
    }
  }

  /**
   * `preamble, blocks = s.rsplit(";", 1)`, and `(s, "")` when `s` holds no
   * `;` (the unpacking fails and the code falls back to that).
   */
  function RSplitOnce(s: string, sep: char): (r: (string, string))
    ensures sep in s ==> s == r.0 + [sep] + r.1 && sep !in r.1
    ensures sep !in s ==> r == (s, "")
  {
    match LastIndex(s, sep)
    case None => (s, "")
    case Some(k) =>
      assert s == s[..k] + [sep] + s[k + 1..];
      (s[..k], s[k + 1..])
  }

  lemma {:induction false} LastIndexOfJoin(before: string, sep: char, after: string)
    requires sep !in after
    ensures LastIndex(before + [sep] + after, sep) == Some(|before|)
    decreases |after|
  {
    var s := before + [sep] + after;
    if after != [] {
      var shorter := after[..|after| - 1];
      assert after == shorter + [after[|after| - 1]];
      assert s[..|s| - 1] == before + [sep] + shorter;
      assert s[|s| - 1] == after[|after| - 1];
      LastIndexOfJoin(before, sep, shorter);
    }
  }

  /** Splitting at the last separator gives back the two halves it joined. */
  lemma RSplitOnceOfJoin(before: string, sep: char, after: string)
    requires sep !in after
    ensures RSplitOnce(before + [sep] + after, sep) == (before, after)
  {
    LastIndexOfJoin(before, sep, after);
    var s := before + [sep] + after;
    assert s[..|before|] == before && s[|before| + 1..] == after;
  }

  // ---------------------------------------------------------------------------
  // Character runs of the regular expressions

  /** Length of the longest prefix of `s` whose characters all satisfy `p`. */
  function Run(s: string, k: Chars): (n: nat)
    ensures n <= |s|
  {
    if s == [] || !In(k, s[0]) then 0 else 1 + Run(s[1..], k)
  }

  /** The run is a prefix of class characters, and the next character is outside the class. */
  lemma {:induction false} RunSpec(s: string, k: Chars)
    ensures forall i :: 0 <= i < Run(s, k) ==> In(k, s[i])
    ensures Run(s, k) < |s| ==> !In(k, s[Run(s, k)])
    decreases |s|
  {
    if s != [] && In(k, s[0]) {
      RunSpec(s[1..], k);
    }
  }

  /** A run is exactly a prefix of `p` characters followed by one that is not. */
  lemma {:induction false} RunOf(w: string, rest: string, k: Chars)
    requires forall i :: 0 <= i < |w| ==> In(k, w[i])
    requires rest == [] || !In(k, rest[0])
    ensures Run(w + rest, k) == |w|
    decreases |w|
  {
    if w == [] {
      assert w + rest == rest;
    } else {
      assert (w + rest)[1..] == w[1..] + rest;
      RunOf(w[1..], rest, k);
    }
  }

  /** `\w` on ASCII text: a letter, a digit or `_`. */
  predicate IsWordChar(c: char)
  {
    ('a' <= c <= 'z') || ('A' <= c <= 'Z') || ('0' <= c <= '9') || c == '_'
  }

  /** What `.*?` may cross before the closing `)`: anything but `)` and a newline. */
  predicate InParentheses(c: char)
  {
    c != ')' && c != '\n'
  }

  /** The character classes the patterns repeat. */
  datatype Chars =
    | WordChars           // `\w`
    | SpaceChars          // `\s`
    | ParenthesisedChars  // what `.*?` crosses before `)`
    | BlankChars          // ` `
    | NonCommaChars       // `[^,]`
    | NameCharsAsWritten  // `[^\s-]`
    | NameChars           // `[^\s,-]`

  predicate In(k: Chars, c: char)
  {
    match k
    case WordChars => IsWordChar(c)
    case SpaceChars => IsSpace(c)
    case ParenthesisedChars => InParentheses(c)
    case BlankChars => c == ' '
    case NonCommaChars => c != ','
    case NameCharsAsWritten => ConstraintParser.DistributionTail(c)
    case NameChars => DistributionChar(c)
  }

  /** The name class the block format needs, `[^\s,-]`: a name ends at a comma. */
  predicate DistributionChar(c: char)
  {
    c != ',' && ConstraintParser.DistributionTail(c)
  }

  // ---------------------------------------------------------------------------
  // Constraint blocks: `(?P<kind>\w+)\s*\((?P<constraints>.*?)\)`

  datatype BlockMatch = BlockMatch(kind: string, constraints: string)

  /**
   * The block pattern tried at the start of `s`: the match and its length.
   * A shorter `\w+` cannot help, since it would be followed by a word
   * character, which neither `\s` nor `(` accepts.
   */
  function BlockAt(s: string): (r: Option<(BlockMatch, nat)>)
    ensures r.Some? ==> 0 < r.value.1 <= |s|
  {
    var w := Run(s, WordChars);
    if w == 0 then None else BlockAfterKind(s, w, w + Run(s[w..], SpaceChars))
  }

  /** After the kind and the blanks: an opening parenthesis must follow. */
  function BlockAfterKind(s: string, w: nat, open: nat): (r: Option<(BlockMatch, nat)>)
    requires 0 < w <= open <= |s|
    ensures r.Some? ==> 0 < r.value.1 <= |s|
  {
    if open == |s| || s[open] != '(' then None
    else BlockBody(s, w, open, Run(s[open + 1..], ParenthesisedChars))
  }

  /** After the body: the first `)` closes the block, unless a newline or the end came first. */
  function BlockBody(s: string, w: nat, open: nat, n: nat): (r: Option<(BlockMatch, nat)>)
    requires 0 < w <= open < |s| && open + 1 + n <= |s|
    ensures r.Some? ==> 0 < r.value.1 <= |s|
  {
    if open + 1 + n == |s| || s[open + 1 + n] != ')' then None
    else Some((BlockMatch(s[..w], s[open + 1..open + 1 + n]), open + n + 2))
  }

  /** `finditer`: the non-overlapping block matches from left to right. */
  function BlockMatches(s: string): (r: seq<BlockMatch>)
    decreases |s|
  {
    if s == [] then []
    else
      match BlockAt(s)
      case None => BlockMatches(s[1..])
      case Some((m, n)) => [m] + BlockMatches(s[n..])
  }

  /** The text of one block: a kind, blanks, and a body in parentheses, then what follows. */
  function BlockText(kind: string, gap: string, body: string, after: string): (s: string)
    ensures |s| == |kind| + |gap| + |body| + 2 + |after|
  {
    kind + (gap + (['('] + (body + ([')'] + after))))
  }

  predicate BlockParts(kind: string, gap: string, body: string)
  {
    kind != [] && (forall i :: 0 <= i < |kind| ==> IsWordChar(kind[i]))
    && (forall i :: 0 <= i < |gap| ==> IsSpace(gap[i]))
    && (forall i :: 0 <= i < |body| ==> InParentheses(body[i]))
  }

  lemma BlockBodyOf(kind: string, gap: string, body: string, after: string)
    requires BlockParts(kind, gap, body)
    ensures var s := BlockText(kind, gap, body, after);
      BlockBody(s, |kind|, |kind| + |gap|, |body|)
      == Some((BlockMatch(kind, body), |kind| + |gap| + |body| + 2))
  {
    var s := BlockText(kind, gap, body, after);
    var open := |kind| + |gap|;
    assert s[open + 1 + |body|] == ')';
    assert s[..|kind|] == kind;
    assert s[open + 1..open + 1 + |body|] == body;
  }

  lemma BlockAfterKindOf(kind: string, gap: string, body: string, after: string)
    requires BlockParts(kind, gap, body)
    ensures var s := BlockText(kind, gap, body, after);
      BlockAfterKind(s, |kind|, |kind| + |gap|) == BlockBody(s, |kind|, |kind| + |gap|, |body|)
  {
    var s := BlockText(kind, gap, body, after);
    var open := |kind| + |gap|;
    assert s[open] == '(';
    assert s[open + 1..] == body + ([')'] + after);
    BodyRun(body, after);
    BlockAfterKindRun(s, |kind|, open, |body|);
  }

  lemma BodyRun(body: string, after: string)
    requires forall i :: 0 <= i < |body| ==> InParentheses(body[i])
    ensures Run(body + ([')'] + after), ParenthesisedChars) == |body|
  {
    RunOf(body, [')'] + after, ParenthesisedChars);
  }

  lemma BlockAfterKindRun(s: string, w: nat, open: nat, n: nat)
    requires 0 < w <= open < |s| && s[open] == '('
    requires Run(s[open + 1..], ParenthesisedChars) == n
    ensures open + 1 + n <= |s| && BlockAfterKind(s, w, open) == BlockBody(s, w, open, n)
  {
  }

  lemma BlockAtKind(kind: string, gap: string, body: string, after: string)
    requires BlockParts(kind, gap, body)
    ensures var s := BlockText(kind, gap, body, after);
      BlockAt(s) == BlockAfterKind(s, |kind|, |kind| + |gap|)
  {
    var u := body + ([')'] + after);
    var t := gap + (['('] + u);
    GapStartsNonWord(gap, u);
    KindRun(kind, t);
    GapRun(gap, u);
    var s := BlockText(kind, gap, body, after);
    assert s == kind + t;
    assert s[|kind|..] == t;
    BlockAtRuns(s, |kind|, |gap|);
  }

  lemma BlockAtRuns(s: string, w: nat, g: nat)
    requires 0 < w && Run(s, WordChars) == w && Run(s[w..], SpaceChars) == g
    ensures BlockAt(s) == BlockAfterKind(s, w, w + g)
  {
  }

  lemma GapStartsNonWord(gap: string, u: string)
    requires forall i :: 0 <= i < |gap| ==> IsSpace(gap[i])
    ensures var t := gap + (['('] + u); t != [] && !IsWordChar(t[0])
  {
    if gap != [] {
      assert IsSpace(gap[0]);
    }
  }

  lemma KindRun(kind: string, t: string)
    requires forall i :: 0 <= i < |kind| ==> IsWordChar(kind[i])
    requires t != [] && !IsWordChar(t[0])
    ensures Run(kind + t, WordChars) == |kind|
  {
    RunOf(kind, t, WordChars);
  }

  lemma GapRun(gap: string, u: string)
    requires forall i :: 0 <= i < |gap| ==> IsSpace(gap[i])
    ensures Run(gap + (['('] + u), SpaceChars) == |gap|
  {
    RunOf(gap, ['('] + u, SpaceChars);
  }

  /** A word, blanks, and a parenthesised text without newline are one block match. */
  lemma BlockAtOf(kind: string, gap: string, body: string, after: string)
    requires BlockParts(kind, gap, body)
    ensures BlockAt(BlockText(kind, gap, body, after))
      == Some((BlockMatch(kind, body), |kind| + |gap| + |body| + 2))
  {
    BlockBodyOf(kind, gap, body, after);
    BlockAfterKindOf(kind, gap, body, after);
    BlockAtKind(kind, gap, body, after);
  }

  lemma BlockMatchesSkip(s: string)
    requires s != [] && BlockAt(s).None?
    ensures BlockMatches(s) == BlockMatches(s[1..])
  {
  }

  lemma BlockMatchesTake(s: string, m: BlockMatch, n: nat)
    requires s != [] && BlockAt(s) == Some((m, n))
    ensures BlockMatches(s) == [m] + BlockMatches(s[n..])
  {
  }

  /** The block text a pretty string carries is read back as one `depends` block. */
  lemma DependsBlockMatches(x: string)
    requires ')' !in x && '\n' !in x
    ensures BlockMatches(" depends (" + x + ")") == [BlockMatch("depends", x)]
  {
    var t := BlockText("depends", " ", x, "");
    assert " depends (" + x + ")" == [' '] + t;
    DependsBlockText(x);
  }

  lemma DependsBlockText(x: string)
    requires ')' !in x && '\n' !in x
    ensures BlockMatches([' '] + BlockText("depends", " ", x, "")) == [BlockMatch("depends", x)]
  {
    LeadingBlankSkipped(BlockText("depends", " ", x, ""));
    DependsBlock(x);
  }

  lemma LeadingBlankSkipped(t: string)
    ensures BlockMatches([' '] + t) == BlockMatches(t)
  {
    var s := [' '] + t;
    assert Run(s, WordChars) == 0;
    BlockMatchesSkip(s);
    assert s[1..] == t;
  }

  lemma DependsBlock(x: string)
    requires ')' !in x && '\n' !in x
    ensures BlockMatches(BlockText("depends", " ", x, "")) == [BlockMatch("depends", x)]
  {
    var t := BlockText("depends", " ", x, "");
    BlockAtOf("depends", " ", x, "");
    BlockMatchesTake(t, BlockMatch("depends", x), |t|);
    assert t[|t|..] == [];
  }

  // ---------------------------------------------------------------------------
  // Dependencies in a block: `(?P<distribution>[a-zA-Z_][^\s-]*) *(?P<constraint>[^,]*)`

  datatype Dependency = Dependency(distribution: string, constraint: string)

  /**
   * The dependency pattern tried at the start of `s`, with `tail` the class
   * of the name's later characters. Every part after the first character
   * may be empty, so the pattern matches wherever a name can start.
   */
  function DependencyAt(s: string, tail: Chars): (r: Option<(Dependency, nat)>)
    ensures r.Some? ==> 0 < r.value.1 <= |s|
    ensures r.None? <==> s == [] || !ConstraintParser.DistributionHead(s[0])
  {
    if s == [] || !ConstraintParser.DistributionHead(s[0]) then None
    else DependencyAfterName(s, 1 + Run(s[1..], tail))
  }

  /** After the name `s[..d]`: skip the blanks, then the constraint runs to a comma. */
  function DependencyAfterName(s: string, d: nat): (r: Option<(Dependency, nat)>)
    requires 0 < d <= |s|
    ensures r.Some? && 0 < r.value.1 <= |s|
  {
    DependencyOf(s, d, d + Run(s[d..], BlankChars))
  }

  function DependencyOf(s: string, d: nat, c: nat): (r: Option<(Dependency, nat)>)
    requires 0 < d <= c <= |s|
    ensures r.Some? && 0 < r.value.1 <= |s|
  {
    var e := c + Run(s[c..], NonCommaChars);
    Some((Dependency(s[..d], s[c..e]), e))
  }

  function DependenciesWith(s: string, tail: Chars): (r: seq<Dependency>)
    decreases |s|
  {
    if s == [] then []
    else
      match DependencyAt(s, tail)
      case None => DependenciesWith(s[1..], tail)
      case Some((dep, n)) => [dep] + DependenciesWith(s[n..], tail)
  }

  lemma DependenciesSkip(s: string, tail: Chars)
    requires s != [] && !ConstraintParser.DistributionHead(s[0])
    ensures DependenciesWith(s, tail) == DependenciesWith(s[1..], tail)
  {
  }

  lemma DependenciesTake(s: string, tail: Chars, dep: Dependency, n: nat)
    requires s != [] && DependencyAt(s, tail) == Some((dep, n))
    ensures DependenciesWith(s, tail) == [dep] + DependenciesWith(s[n..], tail)
  {
  }

  /**
   * A name, blanks, and a constraint ending at a comma or at the end are one
   * dependency match.
   */
  lemma DependencyAtOf(d: string, gap: string, c: string, after: string, tail: Chars)
    requires d != [] && ConstraintParser.DistributionHead(d[0])
    requires NameTail(d, tail)
    requires gap + c + after == [] || !In(tail, (gap + c + after)[0])
    requires Blanks(gap)
    requires c + after == [] || (c + after)[0] != ' '
    requires ',' !in c && (after == [] || after[0] == ',')
    ensures DependencyAt(d + gap + c + after, tail) == Some((Dependency(d, c), |d| + |gap| + |c|))
  {
    var s := d + gap + c + after;
    NameRunIn(d, gap, c, after, tail);
    BlankRunIn(d, gap, c, after);
    ConstraintRunIn(d, gap, c, after);
    DependencySlices(d, gap, c, after);
    DependencyAtParts(s, tail, d, |gap|, c);
  }

  /** `DependencyAtRuns` with the name and the constraint known as strings. */
  lemma DependencyAtParts(s: string, tail: Chars, d: string, g: nat, c: string)
    requires d != [] && ConstraintParser.DistributionHead(d[0])
    requires |d| + g + |c| <= |s| && s[0] == d[0] && s[..|d|] == d && s[|d| + g..|d| + g + |c|] == c
    requires Run(s[1..], tail) == |d| - 1 && Run(s[|d|..], BlankChars) == g && Run(s[|d| + g..], NonCommaChars) == |c|
    ensures DependencyAt(s, tail) == Some((Dependency(d, c), |d| + g + |c|))
  {
    DependencyAtRuns(s, tail, |d|, g, |c|);
    assert Dependency(s[..|d|], s[|d| + g..|d| + g + |c|]) == Dependency(d, c);
  }

  /** Every character of `d` after the first is one of `tail`. */
  predicate NameTail(d: string, tail: Chars)
  {
    forall i :: 1 <= i < |d| ==> In(tail, d[i])
  }

  /** `gap` is all blanks. */
  predicate Blanks(gap: string)
  {
    forall i :: 0 <= i < |gap| ==> gap[i] == ' '
  }

  lemma NameRunIn(d: string, gap: string, c: string, after: string, tail: Chars)
    requires d != [] && NameTail(d, tail)
    requires gap + c + after == [] || !In(tail, (gap + c + after)[0])
    ensures Run((d + gap + c + after)[1..], tail) == |d| - 1
  {
    assert d + gap + c + after == d + (gap + c + after);
    NameRun(d, gap + c + after, tail);
  }

  lemma BlankRunIn(d: string, gap: string, c: string, after: string)
    requires Blanks(gap)
    requires c + after == [] || (c + after)[0] != ' '
    ensures Run((d + gap + c + after)[|d|..], BlankChars) == |gap|
  {
    assert (d + gap + c + after)[|d|..] == gap + (c + after);
    BlankRun(gap, c + after);
  }

  lemma ConstraintRunIn(d: string, gap: string, c: string, after: string)
    requires ',' !in c && (after == [] || after[0] == ',')
    ensures Run((d + gap + c + after)[|d| + |gap|..], NonCommaChars) == |c|
  {
    assert (d + gap + c + after)[|d| + |gap|..] == c + after;
    ConstraintRun(c, after);
  }

  lemma DependencySlices(d: string, gap: string, c: string, after: string)
    requires d != []
    ensures var s := d + gap + c + after;
      s[0] == d[0] && s[..|d|] == d && s[|d| + |gap|..|d| + |gap| + |c|] == c
  {
    var s := d + gap + c + after;
    assert s[..|d|] == d;
    assert s[|d| + |gap|..|d| + |gap| + |c|] == c;
  }

  lemma NameRun(d: string, rest: string, tail: Chars)
    requires d != []
    requires forall i :: 1 <= i < |d| ==> In(tail, d[i])
    requires rest == [] || !In(tail, rest[0])
    ensures Run((d + rest)[1..], tail) == |d| - 1
  {
    assert (d + rest)[1..] == d[1..] + rest;
    assert forall i :: 0 <= i < |d[1..]| ==> d[1..][i] == d[i + 1];
    RunOf(d[1..], rest, tail);
  }

  lemma BlankRun(gap: string, rest: string)
    requires forall i :: 0 <= i < |gap| ==> gap[i] == ' '
    requires rest == [] || rest[0] != ' '
    ensures Run(gap + rest, BlankChars) == |gap|
  {
    RunOf(gap, rest, BlankChars);
  }

  lemma ConstraintRun(c: string, after: string)
    requires ',' !in c && (after == [] || after[0] == ',')
    ensures Run(c + after, NonCommaChars) == |c|
  {
    RunOf(c, after, NonCommaChars);
  }

  lemma DependencyAtRuns(s: string, tail: Chars, d: nat, g: nat, n: nat)
    requires s != [] && ConstraintParser.DistributionHead(s[0])
    requires 0 < d && Run(s[1..], tail) == d - 1
    requires d <= |s| && Run(s[d..], BlankChars) == g
    requires d + g <= |s| && Run(s[d + g..], NonCommaChars) == n
    ensures d + g + n <= |s|
    ensures DependencyAt(s, tail) == Some((Dependency(s[..d], s[d + g..d + g + n]), d + g + n))
  {
    DependencyAtName(s, tail, d);
    DependencyAfterBlanks(s, d, g);
    DependencyOfRun(s, d, d + g, n);
  }

  lemma DependencyAtName(s: string, tail: Chars, d: nat)
    requires s != [] && ConstraintParser.DistributionHead(s[0])
    requires 0 < d && Run(s[1..], tail) == d - 1
    ensures d <= |s| && DependencyAt(s, tail) == DependencyAfterName(s, d)
  {
  }

  lemma DependencyAfterBlanks(s: string, d: nat, g: nat)
    requires 0 < d <= |s| && Run(s[d..], BlankChars) == g
    ensures d + g <= |s| && DependencyAfterName(s, d) == DependencyOf(s, d, d + g)
  {
  }

  lemma DependencyOfRun(s: string, d: nat, c: nat, n: nat)
    requires 0 < d <= c <= |s| && Run(s[c..], NonCommaChars) == n
    ensures c + n <= |s| && DependencyOf(s, d, c) == Some((Dependency(s[..d], s[c..c + n]), c + n))
  {
  }

  /**
   * The name class as written, `[^\s-]`: it also takes commas, so a bare
   * name followed by `, ` swallows the next dependency.
   */
  function DependenciesAsWritten(s: string): seq<Dependency>
  {
    DependenciesWith(s, NameCharsAsWritten)
  }

  function Dependencies(s: string): seq<Dependency>
  {
    DependenciesWith(s, NameChars)
  }

  /** A bare name before a comma: as written the name keeps the comma and eats the next entry. */
  lemma BareNameSwallowsComma()
    ensures DependenciesAsWritten("nose, pil") == [Dependency("nose,", "pil")]
  {
    var s := "nose," + " " + "pil" + "";
    assert s == "nose, pil";
    DependencyAtOf("nose,", " ", "pil", "", NameCharsAsWritten);
    DependenciesTake(s, NameCharsAsWritten, Dependency("nose,", "pil"), 9);
    assert s[9..] == [];
  }

  /** With the name ending at a comma, the same text is two bare names. */
  lemma BareNamesSeparated()
    ensures Dependencies("nose, pil") == [Dependency("nose", ""), Dependency("pil", "")]
  {
    NoseTaken();
    CommaSkipped();
    PilTaken();
  }

  lemma NoseTaken()
    ensures Dependencies("nose, pil") == [Dependency("nose", "")] + Dependencies(", pil")
  {
    var s := "nose" + "" + "" + ", pil";
    assert s == "nose, pil";
    DependencyAtOf("nose", "", "", ", pil", NameChars);
    DependenciesTake(s, NameChars, Dependency("nose", ""), 4);
    assert s[4..] == ", pil";
  }

  lemma CommaSkipped()
    ensures Dependencies(", pil") == Dependencies("pil")
  {
    var t := ", pil";
    DependenciesSkip(t, NameChars);
    assert t[1..] == " pil";
    DependenciesSkip(t[1..], NameChars);
    assert t[1..][1..] == "pil";
  }

  lemma PilTaken()
    ensures Dependencies("pil") == [Dependency("pil", "")]
  {
    var u := "pil" + "" + "" + "";
    assert u == "pil";
    DependencyAtOf("pil", "", "", "", NameChars);
    DependenciesTake(u, NameChars, Dependency("pil", ""), 3);
    assert u[3..] == [];
  }

  // ---------------------------------------------------------------------------
  // `constraints.setdefault(dist, [[]])[0].append(constraint_str)`

  /** The constraint strings given for `d`, in the order they appear. */
  function ConstraintsFor(deps: seq<Dependency>, d: string): seq<string>
  {
    if deps == [] then []
    else (if deps[0].distribution == d then [deps[0].constraint] else []) + ConstraintsFor(deps[1..], d)
  }

  lemma ConstraintsForCons(x: Dependency, deps: seq<Dependency>, d: string)
    ensures ConstraintsFor([x] + deps, d) == (if x.distribution == d then [x.constraint] else []) + ConstraintsFor(deps, d)
  {
    assert ([x] + deps)[1..] == deps;
  }

  lemma {:induction false} ConstraintsForAppend(a: seq<Dependency>, b: seq<Dependency>, d: string)
    ensures ConstraintsFor(a + b, d) == ConstraintsFor(a, d) + ConstraintsFor(b, d)
    decreases |a|
  {
    if a != [] {
      assert (a + b)[1..] == a[1..] + b;
      ConstraintsForAppend(a[1..], b, d);
    } else {
      assert a + b == b;
    }
  }

  /** The dictionary the inner loop fills, as a left fold over the dependencies. */
  function Collect(deps: seq<Dependency>): (m: map<string, seq<string>>)
  {
    if deps == [] then map[]
    else
      var m := Collect(deps[..|deps| - 1]);
      var dep := deps[|deps| - 1];
      m[dep.distribution := (if dep.distribution in m then m[dep.distribution] else []) + [dep.constraint]]
  }

  /** Each name maps to exactly its constraint strings in order; a name not given is absent. */
  lemma {:induction false} CollectGroups(deps: seq<Dependency>)
    ensures forall d :: d in Collect(deps) ==> Collect(deps)[d] == ConstraintsFor(deps, d) != []
    ensures forall d :: d !in Collect(deps) ==> ConstraintsFor(deps, d) == []
    decreases |deps|
  {
    if deps != [] {
      var init := deps[..|deps| - 1];
      var dep := deps[|deps| - 1];
      CollectGroups(init);
      assert deps == init + [dep];
      forall d
        ensures ConstraintsFor(deps, d)
          == ConstraintsFor(init, d) + (if dep.distribution == d then [dep.constraint] else [])
      {
        ConstraintsForAppend(init, [dep], d);
        assert ConstraintsFor([dep], d) == (if dep.distribution == d then [dep.constraint] else []) + ConstraintsFor([], d);
      }
    }
  }

  /**
   * The inner loop of `parse`, over the dependency matches of one block,
   * with the name class as written.
   */
  method CollectDependencies(text: string) returns (m: map<string, seq<string>>)
    ensures m == Collect(DependenciesAsWritten(text))
  {
    var deps := DependenciesAsWritten(text);
    m := map[];
    var j := 0;
    while j < |deps|
      invariant 0 <= j <= |deps|
      invariant m == Collect(deps[..j])
    {
      assert deps[..j + 1][..j] == deps[..j];
      var dep := deps[j];
      var constraints := if dep.distribution in m then m[dep.distribution] else [];
      m := m[dep.distribution := constraints + [dep.constraint]];
      j := j + 1;
    }
    assert deps[..j] == deps;
  }

  // ---------------------------------------------------------------------------
  // Constraint kinds

  const InstallRequires: string := "install_requires"
  const Depends: string := "depends"

  /** `CONSTRAINT_SYNONYMS.get(kind, kind)`: `depends` stands for `install_requires`. */
  function Canonical(kind: string): (r: string)
    ensures r == InstallRequires <==> kind == Depends || kind == InstallRequires
    ensures kind != Depends ==> r == kind
  {
    if kind == Depends then InstallRequires else kind
  }

  /**
   * The outer loop of `parse` as a left fold: an unknown kind raises
   * `ValueError`; each valid block replaces the install requirements read
   * so far.
   */
  function CollectBlocks(blocks: seq<BlockMatch>, names: Chars): Result<Option<map<string, seq<string>>>>
  {
    if blocks == [] then Ok(None)
    else
      var prev := CollectBlocks(blocks[..|blocks| - 1], names);
      var last := blocks[|blocks| - 1];
      if prev.Err? then prev
      else if Canonical(last.kind) != InstallRequires then Err(ValueError)
      else Ok(Some(Collect(DependenciesWith(last.constraints, names))))
  }

  predicate KnownKinds(blocks: seq<BlockMatch>)
  {
    forall i :: 0 <= i < |blocks| ==> Canonical(blocks[i].kind) == InstallRequires
  }

  /**
   * The blocks are accepted iff every kind is known; then the last block
   * gives the install requirements, and there are none without a block.
   */
  lemma {:induction false} CollectBlocksResult(blocks: seq<BlockMatch>, names: Chars)
    ensures CollectBlocks(blocks, names).Ok? <==> KnownKinds(blocks)
    ensures CollectBlocks(blocks, names).Err? ==> CollectBlocks(blocks, names).error == ValueError
    ensures CollectBlocks(blocks, names).Ok? ==>
      CollectBlocks(blocks, names).value
      == if blocks == [] then None else Some(Collect(DependenciesWith(blocks[|blocks| - 1].constraints, names)))
    decreases |blocks|
  {
    if blocks != [] {
      var init := blocks[..|blocks| - 1];
      CollectBlocksResult(init, names);
      KnownKindsSnoc(blocks);
    }
  }

  lemma KnownKindsSnoc(blocks: seq<BlockMatch>)
    requires blocks != []
    ensures KnownKinds(blocks) <==>
      KnownKinds(blocks[..|blocks| - 1]) && Canonical(blocks[|blocks| - 1].kind) == InstallRequires
  {
    if KnownKinds(blocks[..|blocks| - 1]) && Canonical(blocks[|blocks| - 1].kind) == InstallRequires {
      forall i | 0 <= i < |blocks|
        ensures Canonical(blocks[i].kind) == InstallRequires
      {
        if i < |blocks| - 1 {
          assert blocks[i] == blocks[..|blocks| - 1][i];
        }
      }
    }
  }

  lemma {:induction false} CollectBlocksErrorSticks(blocks: seq<BlockMatch>, k: nat, names: Chars)
    requires k <= |blocks| && CollectBlocks(blocks[..k], names).Err?
    ensures CollectBlocks(blocks, names) == CollectBlocks(blocks[..k], names)
    decreases |blocks| - k
  {
    if k < |blocks| {
      assert blocks[..k + 1][..k] == blocks[..k];
      CollectBlocksErrorSticks(blocks, k + 1, names);
    } else {
      assert blocks[..k] == blocks;
    }
  }

  // ---------------------------------------------------------------------------
  // `sorted(dist_constraints.items())`, in Python's string order

  /** The least key of a set of names. */
  predicate IsLeast(k: string, keys: set<string>)
  {
    k in keys && forall k' :: k' in keys && k' != k ==> StringLess(k, k')
  }

  lemma {:induction false} LeastExists(keys: set<string>)
    requires keys != {}
    ensures exists k :: IsLeast(k, keys)
    decreases |keys|
  {
    var x :| x in keys;
    if keys != {x} {
      var rest := keys - {x};
      LeastExists(rest);
      var m :| IsLeast(m, rest);
      StringLessTotal(x, m);
      if StringLess(x, m) {
        forall k' | k' in keys && k' != x
          ensures StringLess(x, k')
        {
          if k' != m {
            StringLessTransitive(x, m, k');
          }
        }
        assert IsLeast(x, keys);
      } else {
        assert IsLeast(m, keys);
      }
    } else {
      assert IsLeast(x, keys);
    }
  }

  lemma LeastUnique(keys: set<string>)
    ensures forall a, b :: IsLeast(a, keys) && IsLeast(b, keys) ==> a == b
  {
    forall a, b | IsLeast(a, keys) && IsLeast(b, keys)
      ensures a == b
    {
      if a != b {
        StringLessAsymmetric(a, b);
      }
    }
  }

  /** Install requirements as emitted: `(name, ((constraint, ...),))` pairs. */
  type Items = seq<(string, seq<seq<string>>)>

  predicate ItemsSorted(items: Items)
  {
    forall i, j :: 0 <= i < j < |items| ==> StringLess(items[i].0, items[j].0)
  }

  /** The pairs of `m`, each value wrapped as the one conjunction of its name. */
  predicate ItemsOf(items: Items, m: map<string, seq<string>>)
  {
    (forall i :: 0 <= i < |items| ==> items[i].0 in m && items[i].1 == [m[items[i].0]])
    && (forall d :: d in m ==> exists i :: 0 <= i < |items| && items[i].0 == d)
  }

  /** The dictionary's items sorted by name, as nested tuples. */
  function SortedItems(m: map<string, seq<string>>): (r: Items)
    ensures ItemsSorted(r) && ItemsOf(r, m)
    decreases m.Keys
  {
    if m == map[] then []
    else
      LeastExists(m.Keys);
      LeastUnique(m.Keys);
      var k :| IsLeast(k, m.Keys);
      var rest := SortedItems(m - {k});
      SortedItemsStep(m, k, rest);
      [(k, [m[k]])] + rest
  }

  lemma SortedItemsStep(m: map<string, seq<string>>, k: string, rest: Items)
    requires IsLeast(k, m.Keys)
    requires ItemsSorted(rest) && ItemsOf(rest, m - {k})
    ensures ItemsSorted([(k, [m[k]])] + rest) && ItemsOf([(k, [m[k]])] + rest, m)
  {
    var r := [(k, [m[k]])] + rest;
    forall d | d in m
      ensures exists i :: 0 <= i < |r| && r[i].0 == d
    {
      if d == k {
        assert r[0].0 == d;
      } else {
        assert d in m - {k};
        var i :| 0 <= i < |rest| && rest[i].0 == d;
        assert r[i + 1].0 == d;
      }
    }
  }

  lemma SortedItemsUnfold(m: map<string, seq<string>>, k: string)
    requires IsLeast(k, m.Keys)
    ensures SortedItems(m) == [(k, [m[k]])] + SortedItems(m - {k})
  {
    LeastUnique(m.Keys);
  }

  /** The first name of a name-sorted pair sequence is the least key. */
  lemma HeadIsLeast(items: Items, m: map<string, seq<string>>)
    requires items != [] && ItemsSorted(items) && ItemsOf(items, m)
    ensures IsLeast(items[0].0, m.Keys)
  {
    forall k' | k' in m.Keys && k' != items[0].0
      ensures StringLess(items[0].0, k')
    {
      var j :| 0 <= j < |items| && items[j].0 == k';
    }
  }

  lemma TailItemsOf(items: Items, m: map<string, seq<string>>)
    requires items != [] && ItemsSorted(items) && ItemsOf(items, m)
    ensures ItemsSorted(items[1..]) && ItemsOf(items[1..], m - {items[0].0})
  {
    var rest := items[1..];
    var k := items[0].0;
    var smaller := m - {k};
    forall i | 0 <= i < |rest|
      ensures rest[i].0 in smaller && rest[i].1 == [smaller[rest[i].0]]
    {
      assert rest[i] == items[i + 1];
      StringLessAsymmetric(k, items[i + 1].0);
    }
    forall d | d in smaller
      ensures exists i :: 0 <= i < |rest| && rest[i].0 == d
    {
      var j :| 0 <= j < |items| && items[j].0 == d;
      assert rest[j - 1].0 == d;
    }
  }

  /** A name-sorted pair sequence is determined by its pairs: it is the sorted items. */
  lemma {:induction false} SortedItemsUnique(items: Items, m: map<string, seq<string>>)
    requires ItemsSorted(items) && ItemsOf(items, m)
    ensures items == SortedItems(m)
    decreases |items|
  {
    if items == [] {
      NoItemsEmpty(m);
    } else {
      var k := items[0].0;
      HeadIsLeast(items, m);
      TailItemsOf(items, m);
      SortedItemsUnique(items[1..], m - {k});
      SortedItemsCons(items, m);
    }
  }

  lemma NoItemsEmpty(m: map<string, seq<string>>)
    requires ItemsOf([], m)
    ensures SortedItems(m) == []
  {
    assert forall d :: d !in m;
    assert m == map[];
  }

  lemma SortedItemsCons(items: Items, m: map<string, seq<string>>)
    requires items != [] && ItemsOf(items, m) && IsLeast(items[0].0, m.Keys)
    requires items[1..] == SortedItems(m - {items[0].0})
    ensures items == SortedItems(m)
  {
    var k := items[0].0;
    SortedItemsUnfold(m, k);
    assert items == [(k, [m[k]])] + items[1..];
  }

  // ---------------------------------------------------------------------------
  // `_parse_preamble`

  /** `preamble.strip().split()` must give exactly a name and a version. */
  function ParsePreamble(preamble: string): (r: Result<(string, string)>)
    ensures r.Ok? <==> |Split(Strip(preamble))| == 2
    ensures r.Ok? ==> Split(Strip(preamble)) == [r.value.0, r.value.1]
    ensures r.Err? ==> r.error == ValueError
  {
    var parts := Split(Strip(preamble));
    if |parts| != 2 then Err(ValueError) else Ok((parts[0], parts[1]))
  }

  lemma StripUnpadded(s: string)
    requires s != [] && !IsSpace(s[0]) && !IsSpace(s[|s| - 1])
    ensures Strip(s) == s
  {
    assert s[0..|s|] == s;
  }

  /** A name and a version without whitespace, joined by a space, are read back. */
  lemma PreambleRoundTrip(name: string, version: string)
    requires name != [] && NoSpace(name) && version != [] && NoSpace(version)
    ensures ParsePreamble(name + " " + version) == Ok((name, version))
  {
    var s := name + " " + version;
    assert s[0] == name[0] && s[|s| - 1] == version[|version| - 1];
    StripUnpadded(s);
    assert Join(" ", [name, version]) == name + " " + Join(" ", [version]) == s;
    SplitJoin([name, version]);
  }


  // ---------------------------------------------------------------------------
  // `parse`

  datatype PackageDict = PackageDict(distribution: string, version: Version, installRequires: Option<Items>)

  /**
   * `PrettyPackageStringParser.parse`, with `names` the class of a
   * dependency name's later characters: the blocks are read first (so an
   * unknown kind wins over a bad preamble), then the preamble, then the
   * version; `versionOf` is the version factory. A string without blocks
   * has no install requirements at all. The parser as written uses
   * `NameCharsAsWritten`; the one the pretty strings need uses `NameChars`.
   */
  function ParseSpec(prettyString: string, versionOf: string -> Result<Version>, names: Chars): (r: Result<PackageDict>)
    ensures r.Ok? ==> r.value.distribution != [] && NoSpace(r.value.distribution)
    ensures r.Ok? && r.value.installRequires.Some? ==> ItemsSorted(r.value.installRequires.value)
  {
    var split := RSplitOnce(prettyString, ';');
    ParseParts(CollectBlocks(BlockMatches(split.1), names), split.0, versionOf)
  }

  /** `parse` once the blocks are collected: the preamble, then the version. */
  function ParseParts(blocks: Result<Option<map<string, seq<string>>>>, preamble: string,
                      versionOf: string -> Result<Version>): (r: Result<PackageDict>)
    ensures r.Ok? ==> r.value.distribution != [] && NoSpace(r.value.distribution)
    ensures r.Ok? && r.value.installRequires.Some? ==> ItemsSorted(r.value.installRequires.value)
  {
    var installRequires :- blocks;
    var names :- ParsePreamble(preamble);
    var version :- versionOf(names.1);
    var items := if installRequires.Some? then Some(SortedItems(installRequires.value)) else None;
    Ok(PackageDict(names.0, version, items))
  }

  /** A successful parse sorts the collected install requirements, if there were any blocks. */
  lemma ParsedItems(prettyString: string, versionOf: string -> Result<Version>, names: Chars)
    requires ParseSpec(prettyString, versionOf, names).Ok?
    ensures var blocks := CollectBlocks(BlockMatches(RSplitOnce(prettyString, ';').1), names);
      blocks.Ok?
      && ParseSpec(prettyString, versionOf, names).value.installRequires
        == if blocks.value.Some? then Some(SortedItems(blocks.value.value)) else None
  {
    var split := RSplitOnce(prettyString, ';');
    ParsePartsItems(CollectBlocks(BlockMatches(split.1), names), split.0, versionOf);
  }

  lemma ParsePartsItems(blocks: Result<Option<map<string, seq<string>>>>, preamble: string,
                        versionOf: string -> Result<Version>)
    requires ParseParts(blocks, preamble, versionOf).Ok?
    ensures blocks.Ok?
    ensures ParseParts(blocks, preamble, versionOf).value.installRequires
      == if blocks.value.Some? then Some(SortedItems(blocks.value.value)) else None
  {
  }

  /** The outer loop of `parse`, over the block matches. */
  method ReadBlocks(blocks: seq<BlockMatch>) returns (r: Result<Option<map<string, seq<string>>>>)
    ensures r == CollectBlocks(blocks, NameCharsAsWritten)
  {
    var installRequires: Option<map<string, seq<string>>> := None;
    var i := 0;
    while i < |blocks|
      invariant 0 <= i <= |blocks|
      invariant CollectBlocks(blocks[..i], NameCharsAsWritten) == Ok(installRequires)
    {
      assert blocks[..i + 1][..i] == blocks[..i];
      if Canonical(blocks[i].kind) != InstallRequires {
        CollectBlocksErrorSticks(blocks, i + 1, NameCharsAsWritten);
        return Err(ValueError);
      }
      var constraints := CollectDependencies(blocks[i].constraints);
      installRequires := Some(constraints);
      i := i + 1;
    }
    assert blocks[..i] == blocks;
    return Ok(installRequires);
  }

  /** `parse` as written. */
  method Parse(prettyString: string, versionOf: string -> Result<Version>) returns (r: Result<PackageDict>)
    ensures r == ParseSpec(prettyString, versionOf, NameCharsAsWritten)
  {
    var split := RSplitOnce(prettyString, ';');
    var installRequires := ReadBlocks(BlockMatches(split.1));
    if installRequires.Err? {
      return Err(installRequires.error);
    }
    var items := if installRequires.value.Some? then Some(SortedItems(installRequires.value.value)) else None;
    var names := ParsePreamble(split.0);
    if names.Err? {
      return Err(names.error);
    }
    var version := versionOf(names.value.1);
    if version.Err? {
      return Err(version.error);
    }
    return Ok(PackageDict(names.value.0, version.value, items));
  }

  /** An unknown constraint kind raises `ValueError`, whatever the preamble. */
  lemma UnknownKindRejected(prettyString: string, versionOf: string -> Result<Version>, names: Chars, i: nat)
    requires var blocks := BlockMatches(RSplitOnce(prettyString, ';').1);
      i < |blocks| && Canonical(blocks[i].kind) != InstallRequires
    ensures ParseSpec(prettyString, versionOf, names) == Err(ValueError)
  {
    CollectBlocksResult(BlockMatches(RSplitOnce(prettyString, ';').1), names);
  }

  /** A string with no constraint block has no install requirements; one with blocks has them. */
  lemma ParsedWithoutBlocks(prettyString: string, versionOf: string -> Result<Version>, names: Chars)
    requires ParseSpec(prettyString, versionOf, names).Ok?
    ensures BlockMatches(RSplitOnce(prettyString, ';').1) == []
      <==> ParseSpec(prettyString, versionOf, names).value.installRequires.None?
  {
    ParsedItems(prettyString, versionOf, names);
    CollectBlocksResult(BlockMatches(RSplitOnce(prettyString, ';').1), names);
  }

  /** Every name of the dependencies collected in a map is a key. */
  lemma CollectNames(deps: seq<Dependency>, k: nat)
    requires k < |deps|
    ensures deps[k].distribution in Collect(deps)
  {
    var d := deps[k].distribution;
    CollectGroups(deps);
    assert deps == deps[..k] + deps[k..];
    ConstraintsForAppend(deps[..k], deps[k..], d);
    assert deps[k..][0] == deps[k];
    assert ConstraintsFor(deps[k..], d) != [];
  }

  /**
   * A parsed package's install requirements are those of its last block:
   * every name given there, sorted, each with its constraint strings in
   * order.
   */
  lemma ParsedInstallRequires(prettyString: string, versionOf: string -> Result<Version>, names: Chars)
    requires ParseSpec(prettyString, versionOf, names).Ok?
    requires ParseSpec(prettyString, versionOf, names).value.installRequires.Some?
    ensures var blocks := BlockMatches(RSplitOnce(prettyString, ';').1);
      blocks != []
      && ListsDependencies(ParseSpec(prettyString, versionOf, names).value.installRequires.value,
                           DependenciesWith(blocks[|blocks| - 1].constraints, names))
  {
    var blocks := BlockMatches(RSplitOnce(prettyString, ';').1);
    ParsedFromLastBlock(prettyString, versionOf, names);
    SortedCollected(DependenciesWith(blocks[|blocks| - 1].constraints, names));
  }

  lemma ParsedFromLastBlock(prettyString: string, versionOf: string -> Result<Version>, names: Chars)
    requires ParseSpec(prettyString, versionOf, names).Ok?
    requires ParseSpec(prettyString, versionOf, names).value.installRequires.Some?
    ensures var blocks := BlockMatches(RSplitOnce(prettyString, ';').1);
      blocks != []
      && ParseSpec(prettyString, versionOf, names).value.installRequires.value
        == SortedItems(Collect(DependenciesWith(blocks[|blocks| - 1].constraints, names)))
  {
    ParsedItems(prettyString, versionOf, names);
    CollectBlocksResult(BlockMatches(RSplitOnce(prettyString, ';').1), names);
  }

  /** Each item holds its name's constraint strings in order, and every dependency's name has an item. */
  predicate ListsDependencies(items: Items, deps: seq<Dependency>)
  {
    (forall i :: 0 <= i < |items| ==> items[i].1 == [ConstraintsFor(deps, items[i].0)])
    && (forall k :: 0 <= k < |deps| ==> exists i :: 0 <= i < |items| && items[i].0 == deps[k].distribution)
  }

  /** The sorted items of collected dependencies list exactly those dependencies. */
  lemma SortedCollected(deps: seq<Dependency>)
    ensures ListsDependencies(SortedItems(Collect(deps)), deps)
  {
    CollectGroups(deps);
    forall k | 0 <= k < |deps|
      ensures deps[k].distribution in Collect(deps)
    {
      CollectNames(deps, k);
    }
  }

  // ---------------------------------------------------------------------------
  // The serialisers

  /** The `(name, constraint)` pairs of the install requirements, in nesting order. */
  function Flatten(items: Items): seq<Dependency>
  {
    if items == [] then [] else Disjunction(items[0].0, items[0].1) + Flatten(items[1..])
  }

  function Disjunction(d: string, disjunction: seq<seq<string>>): seq<Dependency>
  {
    if disjunction == [] then [] else Conjunction(d, disjunction[0]) + Disjunction(d, disjunction[1..])
  }

  function Conjunction(d: string, conjunction: seq<string>): (r: seq<Dependency>)
    ensures |r| == |conjunction|
    ensures forall i :: 0 <= i < |r| ==> r[i] == Dependency(d, conjunction[i])
  {
    if conjunction == [] then [] else [Dependency(d, conjunction[0])] + Conjunction(d, conjunction[1..])
  }

  /** Requirements listed later are flattened after those listed earlier. */
  lemma {:induction false} FlattenAppend(a: Items, b: Items)
    ensures Flatten(a + b) == Flatten(a) + Flatten(b)
    decreases |a|
  {
    if a == [] {
      assert a + b == b;
    } else {
      assert (a + b)[0] == a[0] && (a + b)[1..] == a[1..] + b;
      FlattenAppend(a[1..], b);
    }
  }

  lemma FlattenHead(items: Items)
    requires items != [] && |items[0].1| == 1
    ensures Flatten(items) == Conjunction(items[0].0, items[0].1[0]) + Flatten(items[1..])
  {
    assert items[0].1[1..] == [];
    var head := Conjunction(items[0].0, items[0].1[0]);
    assert Disjunction(items[0].0, items[0].1) == head + [];
    assert head + [] == head;
  }

  function PrettyDependency(dep: Dependency): string
  {
    Strip(dep.distribution + " " + dep.constraint)
  }

  function PrettyEach(deps: seq<Dependency>): (r: seq<string>)
    ensures |r| == |deps|
    ensures forall i :: 0 <= i < |r| ==> r[i] == PrettyDependency(deps[i])
  {
    if deps == [] then [] else [PrettyDependency(deps[0])] + PrettyEach(deps[1..])
  }

  /** `install_requires_to_pretty_strings`: `"{dist} {constraint}".strip()` for every nested string. */
  function PrettyStrings(items: Items): seq<string>
  {
    PrettyEach(Flatten(items))
  }

  /** `package_to_pretty_string` as written: the dependency strings are joined by a single space. */
  function PackageToPrettyStringAsWritten(name: string, version: string, items: Items): (r: string)
    ensures |items| == 0 <==> r == name + " " + version
  {
    var head := name + " " + version;
    if |items| > 0 then
      assert |head + "; depends (" + Join(" ", PrettyStrings(items)) + ")"| > |head|;
      head + "; depends (" + Join(" ", PrettyStrings(items)) + ")"
    else head
  }

  /**
   * `package_to_pretty_string` with the dependency strings joined by `, `,
   * the separator the block parser reads: `"; depends (...)"` only when
   * there are install requirements.
   */
  function PackageToPrettyString(name: string, version: string, items: Items): (r: string)
    ensures |items| == 0 <==> r == name + " " + version
  {
    var head := name + " " + version;
    if |items| > 0 then
      assert |head + "; depends (" + Join(", ", PrettyStrings(items)) + ")"| > |head|;
      head + "; depends (" + Join(", ", PrettyStrings(items)) + ")"
    else head
  }

  lemma StripSpaceAfter(d: string)
    requires d != [] && !IsSpace(d[0]) && !IsSpace(d[|d| - 1])
    ensures Strip(d + " ") == d
  {
    var s := d + " ";
    assert s[..|s| - 1] == d;
    assert TrailingSpace(s) == 1;
    assert s[0..|s| - 1] == d;
  }

  lemma PrettyStringsExample()
    ensures PrettyStrings([("MKL", [["== 10.3"]]), ("nose", [[""]])]) == ["MKL == 10.3", "nose"]
  {
    FlattenExample();
    PrettyConstrainedExample();
    PrettyBareExample();
  }

  lemma FlattenExample()
    ensures Flatten([("MKL", [["== 10.3"]]), ("nose", [[""]])])
      == [Dependency("MKL", "== 10.3"), Dependency("nose", "")]
  {
    var items: Items := [("MKL", [["== 10.3"]]), ("nose", [[""]])];
    FlattenHead(items);
    FlattenHead(items[1..]);
    assert items[1..][1..] == [];
  }

  lemma PrettyConstrainedExample()
    ensures PrettyDependency(Dependency("MKL", "== 10.3")) == "MKL == 10.3"
  {
    assert "MKL" + " " + "== 10.3" == "MKL == 10.3";
    StripUnpadded("MKL == 10.3");
  }

  lemma PrettyBareExample()
    ensures PrettyDependency(Dependency("nose", "")) == "nose"
  {
    assert "nose" + " " + "" == "nose" + " ";
    StripSpaceAfter("nose");
  }

  /** Joined by a space, two dependencies are read back as one. */
  lemma SpaceJoinMergesDependencies()
    ensures var items: Items := [("MKL", [["== 10.3"]]), ("nose", [[""]])];
      Dependencies(Join(" ", PrettyStrings(items))) == [Dependency("MKL", "== 10.3 nose")]
  {
    PrettyStringsExample();
    assert Join(" ", ["MKL == 10.3", "nose"]) == "MKL == 10.3" + " " + "nose" == "MKL == 10.3 nose";
    MergedDependency();
  }

  lemma MergedDependency()
    ensures Dependencies("MKL == 10.3 nose") == [Dependency("MKL", "== 10.3 nose")]
  {
    var dep := Dependency("MKL", "== 10.3 nose");
    assert WellFormedDependency(dep);
    PrettySingle(dep);
    MergedText();
    StripUnpadded("MKL == 10.3 nose");
  }

  lemma MergedText()
    ensures "MKL" + " " + "== 10.3 nose" == "MKL == 10.3 nose"
  {
    assert "MKL" + " " == "MKL ";
  }

  // ---------------------------------------------------------------------------
  // Reading a pretty string back

  /** A name the block parser reads back whole: it ends at a space, a comma or a `)`. */
  predicate WellFormedName(d: string)
  {
    d != [] && ConstraintParser.DistributionHead(d[0])
    && forall i :: 0 <= i < |d| ==> DistributionChar(d[i]) && d[i] != ')' && d[i] != ';'
  }

  /** A constraint string read back whole: unpadded, and without `,`, `)`, `;` or a newline. */
  predicate WellFormedConstraint(c: string)
  {
    (c == [] || (!IsSpace(c[0]) && !IsSpace(c[|c| - 1])))
    && forall i :: 0 <= i < |c| ==> c[i] != ',' && c[i] != ')' && c[i] != ';' && c[i] != '\n'
  }

  predicate WellFormedDependency(dep: Dependency)
  {
    WellFormedName(dep.distribution) && WellFormedConstraint(dep.constraint)
  }

  /** The text of one dependency: the name, then a space and the constraint when there is one. */
  lemma PrettyDependencyText(dep: Dependency)
    requires WellFormedDependency(dep)
    ensures PrettyDependency(dep) ==
      if dep.constraint == [] then dep.distribution else dep.distribution + " " + dep.constraint
  {
    var d, c := dep.distribution, dep.constraint;
    if c == [] {
      assert d + " " + c == d + " ";
      StripSpaceAfter(d);
    } else {
      var s := d + " " + c;
      assert s[0] == d[0] && s[|s| - 1] == c[|c| - 1];
      StripUnpadded(s);
    }
  }

  /** One dependency's text followed by nothing or a comma is matched as that dependency. */
  lemma DependencyAtPretty(dep: Dependency, after: string)
    requires WellFormedDependency(dep)
    requires after == [] || after[0] == ','
    ensures DependencyAt(PrettyDependency(dep) + after, NameChars)
      == Some((dep, |PrettyDependency(dep)|))
  {
    PrettyDependencyText(dep);
    var d, c := dep.distribution, dep.constraint;
    assert dep == Dependency(d, c);
    if c == [] {
      DependencyAtBare(d, after);
      assert PrettyDependency(dep) + after == d + after;
    } else {
      DependencyAtConstrained(d, c, after);
      assert PrettyDependency(dep) + after == d + " " + c + after;
      assert |PrettyDependency(dep)| == |d| + 1 + |c|;
    }
  }

  lemma DependencyAtBare(d: string, after: string)
    requires WellFormedName(d)
    requires after == [] || after[0] == ','
    ensures DependencyAt(d + after, NameChars) == Some((Dependency(d, ""), |d|))
  {
    assert d + after == d + "" + "" + after;
    DependencyAtOf(d, "", "", after, NameChars);
  }

  lemma DependencyAtConstrained(d: string, c: string, after: string)
    requires WellFormedName(d) && c != [] && WellFormedConstraint(c)
    requires after == [] || after[0] == ','
    ensures DependencyAt(d + " " + c + after, NameChars)
      == Some((Dependency(d, c), |d| + 1 + |c|))
  {
    assert ',' !in c;
    DependencyAtOf(d, " ", c, after, NameChars);
  }

  /** The block text of well-formed dependencies is read back as exactly those dependencies. */
  lemma {:induction false} DependenciesOfPretty(deps: seq<Dependency>)
    requires forall i :: 0 <= i < |deps| ==> WellFormedDependency(deps[i])
    ensures Dependencies(Join(", ", PrettyEach(deps))) == deps
    decreases |deps|
  {
    if deps == [] {
    } else if |deps| == 1 {
      PrettyJoinSingle(deps);
    } else {
      PrettyJoinCons(deps);
      DependenciesOfPretty(deps[1..]);
      assert deps == [deps[0]] + deps[1..];
    }
  }

  lemma PrettyJoinSingle(deps: seq<Dependency>)
    requires |deps| == 1 && WellFormedDependency(deps[0])
    ensures Dependencies(Join(", ", PrettyEach(deps))) == deps
  {
    assert Join(", ", PrettyEach(deps)) == PrettyDependency(deps[0]);
    PrettySingle(deps[0]);
  }

  lemma PrettyJoinCons(deps: seq<Dependency>)
    requires |deps| >= 2 && WellFormedDependency(deps[0])
    ensures Dependencies(Join(", ", PrettyEach(deps)))
      == [deps[0]] + Dependencies(Join(", ", PrettyEach(deps[1..])))
  {
    var t := Join(", ", PrettyEach(deps[1..]));
    assert PrettyEach(deps)[1..] == PrettyEach(deps[1..]);
    assert Join(", ", PrettyEach(deps)) == PrettyDependency(deps[0]) + ", " + t;
    PrettyCons(deps[0], t);
  }

  lemma PrettySingle(dep: Dependency)
    requires WellFormedDependency(dep)
    ensures Dependencies(PrettyDependency(dep)) == [dep]
  {
    var p := PrettyDependency(dep);
    DependencyAtPretty(dep, "");
    assert p + "" == p;
    DependenciesTake(p, NameChars, dep, |p|);
    assert p[|p|..] == [];
  }

  lemma PrettyCons(dep: Dependency, t: string)
    requires WellFormedDependency(dep)
    ensures Dependencies(PrettyDependency(dep) + ", " + t) == [dep] + Dependencies(t)
  {
    var p := PrettyDependency(dep);
    var s := p + ", " + t;
    assert s == p + (", " + t);
    DependencyAtPretty(dep, ", " + t);
    DependenciesTake(s, NameChars, dep, |p|);
    assert s[|p|..] == ", " + t;
    CommaSpaceSkipped(t);
  }

  lemma CommaSpaceSkipped(t: string)
    ensures Dependencies(", " + t) == Dependencies(t)
  {
    DependenciesSkip(", " + t, NameChars);
    assert (", " + t)[1..] == " " + t;
    DependenciesSkip(" " + t, NameChars);
    assert (" " + t)[1..] == t;
  }

  /** One requirement the pretty string can carry: one non-empty conjunction. */
  predicate WellFormedItem(item: (string, seq<seq<string>>))
  {
    WellFormedName(item.0) && |item.1| == 1 && item.1[0] != []
    && forall k :: 0 <= k < |item.1[0]| ==> WellFormedConstraint(item.1[0][k])
  }

  /** Install requirements the pretty string can carry, sorted by name. */
  predicate WellFormedItems(items: Items)
  {
    ItemsSorted(items) && forall i :: 0 <= i < |items| ==> WellFormedItem(items[i])
  }

  lemma WellFormedTail(items: Items)
    requires items != [] && WellFormedItems(items)
    ensures WellFormedItems(items[1..])
  {
    var rest := items[1..];
    forall i, j | 0 <= i < j < |rest|
      ensures StringLess(rest[i].0, rest[j].0)
    {
      assert rest[i] == items[i + 1] && rest[j] == items[j + 1];
    }
    forall i | 0 <= i < |rest|
      ensures WellFormedItem(rest[i])
    {
      assert rest[i] == items[i + 1];
    }
  }

  /** Sorted names are distinct. */
  lemma NamesDistinct(items: Items, i: nat, j: nat)
    requires ItemsSorted(items) && i < j < |items|
    ensures items[i].0 != items[j].0
  {
    StringLessAsymmetric(items[i].0, items[j].0);
  }

  predicate AllWellFormed(deps: seq<Dependency>)
  {
    forall k :: 0 <= k < |deps| ==> WellFormedDependency(deps[k])
  }

  lemma {:induction false} FlattenWellFormed(items: Items)
    requires WellFormedItems(items)
    ensures AllWellFormed(Flatten(items))
    decreases |items|
  {
    if items != [] {
      WellFormedTail(items);
      FlattenWellFormed(items[1..]);
      assert WellFormedItem(items[0]);
      FlattenHead(items);
      var head := Conjunction(items[0].0, items[0].1[0]);
      var tail := Flatten(items[1..]);
      forall k | 0 <= k < |head + tail|
        ensures WellFormedDependency((head + tail)[k])
      {
        if k >= |head| {
          assert (head + tail)[k] == tail[k - |head|];
        }
      }
    }
  }

  lemma {:induction false} ConjunctionFor(d: string, conjunction: seq<string>, e: string)
    ensures ConstraintsFor(Conjunction(d, conjunction), e) == if d == e then conjunction else []
    decreases |conjunction|
  {
    if conjunction != [] {
      ConjunctionFor(d, conjunction[1..], e);
      var tail := Conjunction(d, conjunction[1..]);
      assert Conjunction(d, conjunction) == [Dependency(d, conjunction[0])] + tail;
      ConstraintsForCons(Dependency(d, conjunction[0]), tail, e);
      if d == e {
        assert conjunction == [conjunction[0]] + conjunction[1..];
      }
    }
  }

  /** A name no requirement has gets no constraint from the flattened requirements. */
  lemma {:induction false} FlattenForAbsent(items: Items, e: string)
    requires WellFormedItems(items)
    requires forall i :: 0 <= i < |items| ==> items[i].0 != e
    ensures ConstraintsFor(Flatten(items), e) == []
    decreases |items|
  {
    if items != [] {
      assert WellFormedItem(items[0]);
      FlattenHead(items);
      WellFormedTail(items);
      assert forall i :: 0 <= i < |items[1..]| ==> items[1..][i] == items[i + 1];
      FlattenForAbsent(items[1..], e);
      ConjunctionFor(items[0].0, items[0].1[0], e);
      ConstraintsForAppend(Conjunction(items[0].0, items[0].1[0]), Flatten(items[1..]), e);
    }
  }

  /** In flattened requirements, a requirement's name gets exactly its conjunction. */
  lemma {:induction false} FlattenForPresent(items: Items, i: nat)
    requires WellFormedItems(items) && i < |items|
    ensures ConstraintsFor(Flatten(items), items[i].0) == items[i].1[0]
    decreases i
  {
    var e := items[i].0;
    assert WellFormedItem(items[0]);
    FlattenHead(items);
    WellFormedTail(items);
    var head := Conjunction(items[0].0, items[0].1[0]);
    ConstraintsForAppend(head, Flatten(items[1..]), e);
    ConjunctionFor(items[0].0, items[0].1[0], e);
    if i == 0 {
      forall j | 0 <= j < |items[1..]|
        ensures items[1..][j].0 != e
      {
        NamesDistinct(items, 0, j + 1);
      }
      FlattenForAbsent(items[1..], e);
      assert ConstraintsFor(Flatten(items), e) == items[0].1[0] + [];
    } else {
      NamesDistinct(items, 0, i);
      assert items[1..][i - 1] == items[i];
      FlattenForPresent(items[1..], i - 1);
      assert ConstraintsFor(Flatten(items), e) == [] + items[i].1[0];
    }
  }

  /** Collecting the flattened requirements gives back the dictionary they were written from. */
  lemma CollectFlatten(items: Items)
    requires WellFormedItems(items)
    ensures items == SortedItems(Collect(Flatten(items)))
  {
    var deps := Flatten(items);
    var m := Collect(deps);
    CollectGroups(deps);
    forall i | 0 <= i < |items|
      ensures items[i].0 in m && items[i].1 == [m[items[i].0]]
    {
      assert WellFormedItem(items[i]);
      FlattenForPresent(items, i);
      assert items[i].1 == [items[i].1[0]];
    }
    forall d | d in m
      ensures exists i :: 0 <= i < |items| && items[i].0 == d
    {
      if forall i :: 0 <= i < |items| ==> items[i].0 != d {
        FlattenForAbsent(items, d);
      }
    }
    SortedItemsUnique(items, m);
  }

  lemma {:induction false} JoinAvoids(sep: string, parts: seq<string>, c: char)
    requires c !in sep && forall i :: 0 <= i < |parts| ==> c !in parts[i]
    ensures c !in Join(sep, parts)
    decreases |parts|
  {
    if |parts| > 1 {
      JoinAvoids(sep, parts[1..], c);
    }
  }

  lemma PrettyAvoids(items: Items, c: char)
    requires WellFormedItems(items) && (c == ')' || c == ';' || c == '\n')
    ensures c !in Join(", ", PrettyStrings(items))
  {
    var deps := Flatten(items);
    FlattenWellFormed(items);
    forall k | 0 <= k < |deps|
      ensures c !in PrettyDependency(deps[k])
    {
      PrettyDependencyAvoids(deps[k], c);
    }
    JoinAvoids(", ", PrettyStrings(items), c);
  }

  lemma PrettyDependencyAvoids(dep: Dependency, c: char)
    requires WellFormedDependency(dep) && (c == ')' || c == ';' || c == '\n')
    ensures c !in PrettyDependency(dep)
  {
    PrettyDependencyText(dep);
    NameAvoids(dep.distribution, c);
  }

  lemma NameAvoids(d: string, c: char)
    requires WellFormedName(d) && (c == ')' || c == ';' || c == '\n')
    ensures c !in d
  {
    forall i | 0 <= i < |d|
      ensures d[i] != c
    {
      assert DistributionChar(d[i]) && d[i] != ')' && d[i] != ';';
    }
  }

  /** The parse of a package with install requirements reads its single `depends` block. */
  lemma PrettyBlocks(name: string, version: string, items: Items)
    requires WellFormedItems(items) && items != []
    ensures var split := RSplitOnce(PackageToPrettyString(name, version, items), ';');
      split.0 == name + " " + version
      && CollectBlocks(BlockMatches(split.1), NameChars) == Ok(Some(Collect(Flatten(items))))
  {
    var x := Join(", ", PrettyStrings(items));
    PrettyAvoids(items, ')');
    PrettyAvoids(items, '\n');
    PrettySplit(name, version, items);
    DependsBlockCollect(x, NameChars);
    FlattenWellFormed(items);
    DependenciesOfPretty(Flatten(items));
  }

  /** The preamble is everything before the one `;` of the pretty string. */
  lemma PrettySplit(name: string, version: string, items: Items)
    requires WellFormedItems(items) && items != []
    ensures RSplitOnce(PackageToPrettyString(name, version, items), ';')
      == (name + " " + version, " depends (" + Join(", ", PrettyStrings(items)) + ")")
  {
    var x := Join(", ", PrettyStrings(items));
    PrettyAvoids(items, ';');
    BlocksAvoidSemicolon(x);
    PrettyStringShape(name + " " + version, x);
    RSplitOnceOfJoin(name + " " + version, ';', " depends (" + x + ")");
  }

  lemma BlocksAvoidSemicolon(x: string)
    requires ';' !in x
    ensures ';' !in " depends (" + x + ")"
  {
  }

  lemma PrettyStringShape(head: string, x: string)
    ensures head + "; depends (" + x + ")" == head + [';'] + (" depends (" + x + ")")
  {
    assert "; depends (" == [';'] + " depends (";
  }

  /** A lone `depends` block is collected as the install requirements it lists. */
  lemma DependsBlockCollect(x: string, names: Chars)
    requires ')' !in x && '\n' !in x
    ensures CollectBlocks(BlockMatches(" depends (" + x + ")"), names) == Ok(Some(Collect(DependenciesWith(x, names))))
  {
    DependsBlockMatches(x);
    var bs := [BlockMatch("depends", x)];
    assert bs[..0] == [];
  }

  /**
   * Writing a package and reading it back gives its name, the version the
   * factory makes of its version text, and its install requirements (none
   * at all when it has none).
   */
  lemma PrettyStringRoundTrip(name: string, version: string, items: Items, versionOf: string -> Result<Version>)
    requires name != [] && NoSpace(name) && ';' !in name
    requires version != [] && NoSpace(version) && ';' !in version
    requires WellFormedItems(items)
    ensures var r := ParseSpec(PackageToPrettyString(name, version, items), versionOf, NameChars);
      match versionOf(version)
      case Err(e) => r == Err(e)
      case Ok(v) => r == Ok(PackageDict(name, v, if items == [] then None else Some(items)))
  {
    var head := name + " " + version;
    assert ';' !in head;
    PreambleRoundTrip(name, version);
    if items != [] {
      PrettyBlocks(name, version, items);
      CollectFlatten(items);
    }
  }

  /** Two bare names, the first sorting before the second. */
  predicate BareNames(a: string, b: string)
  {
    WellFormedName(a) && WellFormedName(b) && StringLess(a, b)
  }

  /**
   * The parser as written, on the pretty string of two bare names `a` and
   * `b`: the first name keeps the comma and takes the second as its
   * constraint, so one requirement `a,` constrained by `b` comes back.
   */
  lemma ParseAsWrittenMergesBareNames(name: string, version: string, a: string, b: string,
                                      versionOf: string -> Result<Version>)
    requires name != [] && NoSpace(name) && ';' !in name
    requires version != [] && NoSpace(version) && ';' !in version
    requires BareNames(a, b)
    ensures var r := ParseSpec(PackageToPrettyString(name, version, [(a, [[""]]), (b, [[""]])]), versionOf, NameCharsAsWritten);
      match versionOf(version)
      case Err(e) => r == Err(e)
      case Ok(v) => r == Ok(PackageDict(name, v, Some([(a + ",", [[b]])])))
  {
    var items: Items := [(a, [[""]]), (b, [[""]])];
    var x := a + ", " + b;
    BareItemsPretty(a, b);
    PrettySplit(name, version, items);
    PreambleRoundTrip(name, version);
    PrettyAvoids(items, ')');
    PrettyAvoids(items, '\n');
    DependsBlockCollect(x, NameCharsAsWritten);
    BareNamesAsWritten(a, b);
    ParseOfParts(PackageToPrettyString(name, version, items), versionOf, NameCharsAsWritten,
                 name, version, " depends (" + x + ")", map[a + "," := [b]]);
    SingleItem(a + ",", [b]);
  }

  lemma BareItemsPretty(a: string, b: string)
    requires BareNames(a, b)
    ensures WellFormedItems([(a, [[""]]), (b, [[""]])])
    ensures Join(", ", PrettyStrings([(a, [[""]]), (b, [[""]])])) == a + ", " + b
  {
    var items: Items := [(a, [[""]]), (b, [[""]])];
    assert WellFormedItem(items[0]) && WellFormedItem(items[1]);
    FlattenHead(items);
    FlattenHead(items[1..]);
    assert items[1..][1..] == [];
    assert Flatten(items) == [Dependency(a, ""), Dependency(b, "")];
    PrettyDependencyText(Dependency(a, ""));
    PrettyDependencyText(Dependency(b, ""));
    assert PrettyStrings(items) == [a, b];
    assert Join(", ", [a, b]) == a + ", " + Join(", ", [b]);
  }

  /** As written, `a, b` is one dependency: the name `a,` and the constraint `b`. */
  lemma BareNamesAsWritten(a: string, b: string)
    requires BareNames(a, b)
    ensures Collect(DependenciesAsWritten(a + ", " + b)) == map[a + "," := [b]]
  {
    var d := a + ",";
    var x := d + " " + b + "";
    assert x == a + ", " + b;
    CommaNameTail(a);
    assert (" " + b + "")[0] == ' ';
    assert (b + "")[0] == b[0];
    NameAvoidsComma(b);
    DependencyAtOf(d, " ", b, "", NameCharsAsWritten);
    DependenciesTake(x, NameCharsAsWritten, Dependency(d, b), |x|);
    assert x[|x|..] == [];
    CollectSingle(Dependency(d, b));
  }

  /** As written, a name with a comma after it still reads as one name. */
  lemma CommaNameTail(a: string)
    requires WellFormedName(a)
    ensures NameTail(a + ",", NameCharsAsWritten)
  {
    var d := a + ",";
    forall i | 1 <= i < |d|
      ensures In(NameCharsAsWritten, d[i])
    {
      if i < |a| {
        assert DistributionChar(a[i]);
      }
    }
  }

  lemma NameAvoidsComma(d: string)
    requires WellFormedName(d)
    ensures ',' !in d
  {
    forall i | 0 <= i < |d|
      ensures d[i] != ','
    {
      assert DistributionChar(d[i]);
    }
  }

  /** The parse of a string whose preamble and blocks are known. */
  lemma ParseOfParts(prettyString: string, versionOf: string -> Result<Version>, names: Chars,
                     name: string, version: string, after: string, m: map<string, seq<string>>)
    requires RSplitOnce(prettyString, ';') == (name + " " + version, after)
    requires ParsePreamble(name + " " + version) == Ok((name, version))
    requires CollectBlocks(BlockMatches(after), names) == Ok(Some(m))
    ensures var r := ParseSpec(prettyString, versionOf, names);
      match versionOf(version)
      case Err(e) => r == Err(e)
      case Ok(v) => r == Ok(PackageDict(name, v, Some(SortedItems(m))))
  {
  }

  /** A dictionary of one name has one item. */
  lemma SingleItem(d: string, cs: seq<string>)
    ensures SortedItems(map[d := cs]) == [(d, [cs])]
  {
    var m := map[d := cs];
    var items := [(d, [cs])];
    forall k | k in m
      ensures exists i :: 0 <= i < |items| && items[i].0 == k
    {
      assert items[0].0 == k;
    }
    SortedItemsUnique(items, m);
  }

  lemma CollectSingle(dep: Dependency)
    ensures Collect([dep]) == map[dep.distribution := [dep.constraint]]
  {
    var none: map<string, seq<string>> := map[];
    assert [dep][..0] == [];
    assert Collect([dep]) == none[dep.distribution := [] + [dep.constraint]];
    assert [] + [dep.constraint] == [dep.constraint];
  }

  /**
   * The pretty string as written, read back by the parser the pretty
   * strings need: the space join makes the requirement `a` constrained by
   * `c` and the bare `b` one requirement `a` constrained by `c b`.
   */
  lemma SpaceJoinRoundTripFails(name: string, version: string, a: string, c: string, b: string,
                                versionOf: string -> Result<Version>)
    requires name != [] && NoSpace(name) && ';' !in name
    requires version != [] && NoSpace(version) && ';' !in version
    requires BareNames(a, b) && c != [] && WellFormedConstraint(c)
    ensures var r := ParseSpec(PackageToPrettyStringAsWritten(name, version, [(a, [[c]]), (b, [[""]])]), versionOf, NameChars);
      match versionOf(version)
      case Err(e) => r == Err(e)
      case Ok(v) => r == Ok(PackageDict(name, v, Some([(a, [[c + " " + b]])])))
  {
    var items: Items := [(a, [[c]]), (b, [[""]])];
    var x := a + " " + c + " " + b;
    SpaceJoinSplit(name, version, a, c, b);
    PreambleRoundTrip(name, version);
    SpaceJoinAvoids(a, c, b, ')');
    SpaceJoinAvoids(a, c, b, '\n');
    DependsBlockCollect(x, NameChars);
    SpaceJoinCollected(a, c, b);
    ParseOfParts(PackageToPrettyStringAsWritten(name, version, items), versionOf, NameChars,
                 name, version, " depends (" + x + ")", map[a := [c + " " + b]]);
    SingleItem(a, [c + " " + b]);
  }

  lemma SpaceJoinPretty(a: string, c: string, b: string)
    requires BareNames(a, b) && c != [] && WellFormedConstraint(c)
    ensures Join(" ", PrettyStrings([(a, [[c]]), (b, [[""]])])) == a + " " + c + " " + b
  {
    var items: Items := [(a, [[c]]), (b, [[""]])];
    FlattenHead(items);
    FlattenHead(items[1..]);
    assert items[1..][1..] == [];
    assert Flatten(items) == [Dependency(a, c), Dependency(b, "")];
    PrettyDependencyText(Dependency(a, c));
    PrettyDependencyText(Dependency(b, ""));
    assert PrettyStrings(items) == [a + " " + c, b];
    assert Join(" ", [a + " " + c, b]) == a + " " + c + " " + Join(" ", [b]);
  }

  lemma SpaceJoinAvoids(a: string, c: string, b: string, ch: char)
    requires BareNames(a, b) && WellFormedConstraint(c) && (ch == ')' || ch == ';' || ch == '\n')
    ensures ch !in a + " " + c + " " + b
  {
    NameAvoids(a, ch);
    NameAvoids(b, ch);
  }

  lemma SpaceJoinSplit(name: string, version: string, a: string, c: string, b: string)
    requires BareNames(a, b) && c != [] && WellFormedConstraint(c)
    ensures RSplitOnce(PackageToPrettyStringAsWritten(name, version, [(a, [[c]]), (b, [[""]])]), ';')
      == (name + " " + version, " depends (" + (a + " " + c + " " + b) + ")")
  {
    var items: Items := [(a, [[c]]), (b, [[""]])];
    var x := a + " " + c + " " + b;
    SpaceJoinPretty(a, c, b);
    assert PackageToPrettyStringAsWritten(name, version, items) == name + " " + version + "; depends (" + x + ")";
    SpaceJoinAvoids(a, c, b, ';');
    PrettyStringShape(name + " " + version, x);
    BlocksAvoidSemicolon(x);
    RSplitOnceOfJoin(name + " " + version, ';', " depends (" + x + ")");
  }

  /** Read with the name ending at a comma, `a c b` is still the one dependency `a` constrained by `c b`. */
  lemma SpaceJoinCollected(a: string, c: string, b: string)
    requires BareNames(a, b) && c != [] && WellFormedConstraint(c)
    ensures Collect(DependenciesWith(a + " " + c + " " + b, NameChars)) == map[a := [c + " " + b]]
  {
    var k := c + " " + b;
    var x := a + " " + k + "";
    assert x == a + " " + c + " " + b;
    assert (" " + k + "")[0] == ' ';
    assert (k + "")[0] == c[0];
    NameAvoidsComma(b);
    assert ',' !in k;
    DependencyAtOf(a, " ", k, "", NameChars);
    DependenciesTake(x, NameChars, Dependency(a, k), |x|);
    assert x[|x|..] == [];
    CollectSingle(Dependency(a, k));
  }
}
