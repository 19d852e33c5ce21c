/**
 * The value of a literal under a partial assignment (simplesat/sat/utils.py).
 *
 * A literal is a non-zero integer: `v` stands for "variable v is true" and
 * `-v` for "variable v is false". An assignment maps variables to
 * `Some(true)`, `Some(false)` or `None` (unassigned); a variable missing from
 * the map is unassigned too, as `dict.get` returns None for it.
 */
module SatUtils {
  import opened Wrappers

  type Assignments = map<int, Option<bool>>

  function Abs(x: int): nat
  {
    if x < 0 then -x else x
  }

  /** `assignments.get(v)`: the status of variable `v`. */
  function Status(a: Assignments, v: int): Option<bool>
  {
    if v in a then a[v] else None
  }

  /**
   * `value(lit, assignments)`: None when the variable of `lit` is unassigned,
   * true when the variable has the polarity `lit` asks for, false otherwise.
   */
  function Value(lit: int, a: Assignments): (r: Option<bool>)
    ensures r == Some(true) <==> Status(a, Abs(lit)) == Some(lit >= 0)
    ensures r == Some(false) <==> Status(a, Abs(lit)) == Some(lit < 0)
  {
    var status := Status(a, Abs(lit));
    if status.None? then None
    else
      var isConjugated := lit < 0;
      Some(isConjugated != status.value)
  }

  /** The value is None exactly when the variable is unassigned or missing. */
  lemma ValueUnassigned(lit: int, a: Assignments)
    ensures Value(lit, a).None? <==> Status(a, Abs(lit)).None?
  {
  }

  /** A positive literal has the status of its variable; a negative one its negation. */
  lemma ValueByPolarity(lit: int, a: Assignments)
    requires Status(a, Abs(lit)).Some?
    ensures lit > 0 ==> Value(lit, a) == Status(a, lit)
    ensures lit < 0 ==> Value(lit, a) == Some(!Status(a, -lit).value)
  {
  }

  /** Negating a non-zero literal negates its value, whenever its variable is assigned. */
  lemma ValueNegation(lit: int, a: Assignments)
    requires lit != 0 && Value(lit, a).Some?
    ensures Value(-lit, a) == Some(!Value(lit, a).value)
  {
  }

  /** The literal 0 is read as a positive literal of variable 0, so it is its own negation. */
  lemma ValueOfZeroNotNegated(a: Assignments)
    requires Status(a, 0).Some?
    ensures Value(-0, a) == Value(0, a) != None
  {
  }

  /** The value of a literal depends only on the entry of its variable. */
  lemma ValueLocal(lit: int, a: Assignments, b: Assignments)
    requires Status(a, Abs(lit)) == Status(b, Abs(lit))
    ensures Value(lit, a) == Value(lit, b)
  {
  }
}
