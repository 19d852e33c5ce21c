/**
 * Named literals and clauses read from text (simplesat/utils.py).
 *
 * A `Literal` is a variable name with a conjugation flag; it prints as the
 * name, prefixed with '-' when conjugated. `Clause.from_string` reads a
 * whitespace-separated list of such words.
 */
module Utils {
  import opened PyText

  datatype Literal = Literal(name: string, isConjugated: bool)

  /** `str(literal)`. */
  function LiteralStr(l: Literal): string
  {
    (if l.isConjugated then "-" else "") + l.name
  }

  /** `hash(literal)` is `hash(str(literal))`: a function of the printed form. */
  function LiteralHashKey(l: Literal): string
  {
    LiteralStr(l)
  }

  /** Equal literals print alike, hence hash alike (`__eq__` compares name and flag). */
  lemma EqualLiteralsHashAlike(l1: Literal, l2: Literal)
    requires l1.name == l2.name && l1.isConjugated == l2.isConjugated
    ensures LiteralHashKey(l1) == LiteralHashKey(l2)
  {
  }

  /** The printed form starts with '-' exactly when the literal is conjugated, for names not starting with '-'. */
  lemma LiteralStrPrefix(l: Literal)
    requires l.name != [] && l.name[0] != '-'
    ensures LiteralStr(l)[0] == '-' <==> l.isConjugated
    ensures l.isConjugated ==> LiteralStr(l)[1..] == l.name
    ensures !l.isConjugated ==> LiteralStr(l) == l.name
  {
  }

  /** One word of `Clause.from_string`: a leading '-' marks conjugation and is stripped. */
  function ParseWord(raw: string): (l: Literal)
    requires raw != []
    ensures l.isConjugated <==> raw[0] == '-'
    ensures LiteralStr(l) == raw
  {
    var isConjugated := raw[0] == '-';
    var name := if isConjugated then raw[1..] else raw;
    assert isConjugated ==> raw == "-" + raw[1..];
    Literal(name, isConjugated)
  }

  /** The clause `Clause.from_string(s)` builds: one literal per word of `s.split()`. */
  function ParseClause(s: string): (c: seq<Literal>)
    ensures |c| == |Split(s)|
    ensures forall i :: 0 <= i < |c| ==> LiteralStr(c[i]) == Split(s)[i]
  {
    var words := Split(s);
    seq(|words|, i requires 0 <= i < |words| => ParseWord(words[i]))
  }

  /** `Clause.from_string(s)`: walks the words of `s` and appends one literal each. */
  method FromString(s: string) returns (clause: seq<Literal>)
    ensures clause == ParseClause(s)
  {
    var words := Split(s);
    clause := ParseWords(words);
  }

  /** The loop of `Clause.from_string` over the words of the text. */
  method ParseWords(words: seq<string>) returns (clause: seq<Literal>)
    requires forall i :: 0 <= i < |words| ==> words[i] != []
    ensures |clause| == |words| && forall k :: 0 <= k < |words| ==> clause[k] == ParseWord(words[k])
  {
    clause := [];
    var i := 0;
    while i < |words|
      invariant 0 <= i <= |words|
      invariant |clause| == i
      invariant forall k :: 0 <= k < i ==> clause[k] == ParseWord(words[k])
    {
      var raw := words[i];
      var isConjugated := raw[0] == '-';
      var name := if isConjugated then raw[1..] else raw;
      var literal := Literal(name, isConjugated);
      assert literal == ParseWord(raw);
      clause := clause + [literal];
      i := i + 1;
    }
  }

  /** `str(clause)`: the literals' printed forms joined by single spaces. */
  function ClauseStr(c: seq<Literal>): string
  {
    Join(" ", seq(|c|, i requires 0 <= i < |c| => LiteralStr(c[i])))
  }

  /**
   * Printing a parsed clause gives back the text, when the text is its
   * words joined by single spaces (no leading, trailing or repeated blanks).
   */
  lemma {:induction false} ClauseStrParseClause(s: string)
    requires s == Join(" ", Split(s))
    ensures ClauseStr(ParseClause(s)) == s
  {
    var c := ParseClause(s);
    assert seq(|c|, i requires 0 <= i < |c| => LiteralStr(c[i])) == Split(s);
  }

  /** Parsing a printed clause gives back the clause, for non-empty names without blanks or a leading '-'. */
  lemma {:induction false} ParseClauseStr(c: seq<Literal>)
    requires forall i :: 0 <= i < |c| ==> c[i].name != [] && c[i].name[0] != '-' && NoSpace(c[i].name)
    ensures ParseClause(ClauseStr(c)) == c
  {
    var words := seq(|c|, i requires 0 <= i < |c| => LiteralStr(c[i]));
    forall i | 0 <= i < |c|
      ensures words[i] != [] && NoSpace(words[i])
    {
      assert words[i] == (if c[i].isConjugated then "-" else "") + c[i].name;
    }
    SplitJoin(words);
    var p := ParseClause(ClauseStr(c));
    assert |p| == |c|;
    forall i | 0 <= i < |c|
      ensures p[i] == c[i]
    {
      LiteralStrPrefix(c[i]);
    }
  }
}
