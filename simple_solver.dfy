/**
 * The watched-literal SAT enumerator of simple_solver.py. Each clause is
 * watched by one of its literals; when a literal becomes false, the clauses
 * watching it move to another literal that is not false, and the search
 * backs off when one of them has none. `SimpleSATSolver.solve` walks the
 * variables in order, trying True before False for each, and yields every
 * full assignment it reaches.
 *
 * A clause is a list of named literals; an assignment maps each variable
 * name to True, False or None.
 */
module SimpleSolver {
  import opened Wrappers
  import opened SeqUtil
  import opened Utils

  type NamedAssignment = map<string, Option<bool>>
  type WatchMap = map<Literal, seq<seq<Literal>>>

  // ---------------------------------------------------------------------
  // Values
  // ---------------------------------------------------------------------

  /** `assignments[var] is literal.is_conjugated`: the literal is false. */
  predicate IsFalse(l: Literal, a: NamedAssignment)
  {
    l.name in a && a[l.name] == Some(l.isConjugated)
  }

  /** The literal is true: its variable has the opposite of its conjugation flag. */
  predicate IsTrue(l: Literal, a: NamedAssignment)
  {
    l.name in a && a[l.name] == Some(!l.isConjugated)
  }

  predicate AllFalse(c: seq<Literal>, a: NamedAssignment)
  {
    forall m :: m in c ==> IsFalse(m, a)
  }

  predicate Satisfied(c: seq<Literal>, a: NamedAssignment)
  {
    exists m :: m in c && IsTrue(m, a)
  }

  predicate SatisfiesAll(a: NamedAssignment, clauses: seq<seq<Literal>>)
  {
    forall i :: 0 <= i < |clauses| ==> Satisfied(clauses[i], a)
  }

  ghost predicate Unsatisfiable(clauses: seq<seq<Literal>>)
  {
    forall a :: !SatisfiesAll(a, clauses)
  }

  /** `watchlist[l]` of the `defaultdict(list)`. */
  function Get(wl: WatchMap, l: Literal): seq<seq<Literal>>
  {
    if l in wl then wl[l] else []
  }

  /** Every clause sits in the list of a literal it contains. */
  predicate Contains(wl: WatchMap)
  {
    forall l :: l in wl ==> forall c :: c in wl[l] ==> l in c
  }

  /** The clause is watched by some literal. */
  ghost predicate Holds(wl: WatchMap, c: seq<Literal>)
  {
    exists l :: l in wl && c in wl[l]
  }

  /** No literal other than `x` that watches a clause is false. */
  predicate WatchingExcept(wl: WatchMap, a: NamedAssignment, x: Literal)
  {
    forall l :: l in wl && l != x && wl[l] != [] ==> !IsFalse(l, a)
  }

  /** No literal that watches a clause is false. */
  predicate Watching(wl: WatchMap, a: NamedAssignment)
  {
    forall l :: l in wl && wl[l] != [] ==> !IsFalse(l, a)
  }

  /** Every literal of every watched clause names a variable of the assignment. */
  predicate NamesIn(wl: WatchMap, a: NamedAssignment)
  {
    forall l :: l in wl ==> forall c :: c in wl[l] ==> forall m :: m in c ==> m.name in a
  }

  // ---------------------------------------------------------------------
  // Moving one clause
  // ---------------------------------------------------------------------

  /** The last clause of `x`'s list appended to `lit`'s list and popped from `x`'s. */
  function Migrate(wl: WatchMap, x: Literal, lit: Literal): (r: WatchMap)
    requires Get(wl, x) != [] && lit != x
  {
    var p := Get(wl, x);
    wl[lit := Get(wl, lit) + [p[|p| - 1]]][x := p[..|p| - 1]]
  }

  /** Writing `x`'s own list back (the `defaultdict` lookup) keeps which clauses are held. */
  lemma SetOwnList(wl: WatchMap, x: Literal)
    ensures forall c :: Holds(wl[x := Get(wl, x)], c) <==> Holds(wl, c)
  {
    var w := wl[x := Get(wl, x)];
    forall c
      ensures Holds(w, c) <==> Holds(wl, c)
    {
      if Holds(w, c) {
        var l :| l in w && c in w[l];
        assert l in wl && c in wl[l];
      }
      if Holds(wl, c) {
        var l :| l in wl && c in wl[l];
        assert c in w[l];
      }
    }
  }

  /** One move of `update`'s loop keeps each property the list had at the start. */
  lemma MigrateStep(w0: WatchMap, wl: WatchMap, x: Literal, lit: Literal, a: NamedAssignment)
    requires Get(wl, x) != [] && lit != x && lit in Get(wl, x)[|Get(wl, x)| - 1] && !IsFalse(lit, a)
    requires NamesIn(w0, a) ==> NamesIn(wl, a)
    requires Contains(w0) ==> Contains(wl)
    requires forall c :: Holds(wl, c) <==> Holds(w0, c)
    requires WatchingExcept(w0, a, x) ==> WatchingExcept(wl, a, x)
    ensures NamesIn(w0, a) ==> NamesIn(Migrate(wl, x, lit), a)
    ensures Contains(w0) ==> Contains(Migrate(wl, x, lit))
    ensures forall c :: Holds(Migrate(wl, x, lit), c) <==> Holds(w0, c)
    ensures WatchingExcept(w0, a, x) ==> WatchingExcept(Migrate(wl, x, lit), a, x)
  {
    if Contains(w0) {
      MigrateContains(wl, x, lit);
    }
    forall c
      ensures Holds(Migrate(wl, x, lit), c) <==> Holds(wl, c)
    {
      MigrateHolds(wl, x, lit, c);
    }
    if WatchingExcept(w0, a, x) {
      MigrateWatching(wl, x, lit, a);
    }
    if NamesIn(w0, a) {
      MigrateNames(wl, x, lit, a);
    }
  }

  lemma MigrateContains(wl: WatchMap, x: Literal, lit: Literal)
    requires Get(wl, x) != [] && lit != x && Contains(wl)
    requires lit in Get(wl, x)[|Get(wl, x)| - 1]
    ensures Contains(Migrate(wl, x, lit))
  {
    var p := Get(wl, x);
    var r := Migrate(wl, x, lit);
    forall l | l in r
      ensures forall c :: c in r[l] ==> l in c
    {
      forall c | c in r[l]
        ensures l in c
      {
        if l == x {
          assert c in p;
        } else if l == lit {
          assert c in Get(wl, lit) || c == p[|p| - 1];
        } else {
          assert c in wl[l];
        }
      }
    }
  }

  lemma MigrateHolds(wl: WatchMap, x: Literal, lit: Literal, c: seq<Literal>)
    requires Get(wl, x) != [] && lit != x
    ensures Holds(Migrate(wl, x, lit), c) <==> Holds(wl, c)
  {
    var p := Get(wl, x);
    var r := Migrate(wl, x, lit);
    assert r[lit] == Get(wl, lit) + [p[|p| - 1]];
    if Holds(wl, c) {
      var l :| l in wl && c in wl[l];
      if l == x && c !in p[..|p| - 1] {
        assert p == p[..|p| - 1] + [p[|p| - 1]];
        assert c == p[|p| - 1];
        assert c in r[lit];
      } else if l == x {
        assert c in r[x];
      } else {
        assert c in r[l];
      }
    }
    if Holds(r, c) {
      var l :| l in r && c in r[l];
      if l == x {
        assert c in p;
        assert x in wl;
      } else if l == lit && c !in Get(wl, lit) {
        assert c == p[|p| - 1];
        assert x in wl && c in wl[x];
      } else {
        assert l in wl && c in wl[l];
      }
    }
  }

  lemma MigrateWatching(wl: WatchMap, x: Literal, lit: Literal, a: NamedAssignment)
    requires Get(wl, x) != [] && lit != x && !IsFalse(lit, a)
    requires WatchingExcept(wl, a, x)
    ensures WatchingExcept(Migrate(wl, x, lit), a, x)
  {
  }

  lemma MigrateNames(wl: WatchMap, x: Literal, lit: Literal, a: NamedAssignment)
    requires Get(wl, x) != [] && lit != x && NamesIn(wl, a)
    ensures NamesIn(Migrate(wl, x, lit), a)
  {
    var p := Get(wl, x);
    var r := Migrate(wl, x, lit);
    assert x in wl;
    forall l | l in r
      ensures forall c :: c in r[l] ==> forall m: Literal :: m in c ==> m.name in a
    {
      forall c | c in r[l]
        ensures forall m: Literal :: m in c ==> m.name in a
      {
        if l == x {
          assert c in wl[x];
        } else if l == lit && c !in Get(wl, lit) {
          assert c in wl[x];
        } else {
          assert c in wl[l];
        }
      }
    }
  }

  /** A full assignment under which no watching literal is false satisfies every watched clause. */
  lemma {:induction false} WatchedClauseSatisfied(wl: WatchMap, a: NamedAssignment, c: seq<Literal>)
    requires Contains(wl) && Watching(wl, a) && Holds(wl, c)
    requires forall m :: m in c ==> m.name in a && a[m.name].Some?
    ensures Satisfied(c, a)
  {
    var l :| l in wl && c in wl[l];
    assert l in c;
    assert l.name in a && a[l.name].Some?;
    assert wl[l] != [];
    assert !IsFalse(l, a);
    var b := a[l.name].value;
    assert a[l.name] == Some(b) && b != l.isConjugated;
  }

  /** Giving variable `v` the value `choice` makes false only the literal of `v` conjugated as `choice`. */
  lemma AssignKeepsWatching(wl: WatchMap, a: NamedAssignment, v: string, choice: bool)
    requires Watching(wl, a)
    ensures WatchingExcept(wl, a[v := Some(choice)], Literal(v, choice))
  {
    var a1 := a[v := Some(choice)];
    forall l | l in wl && l != Literal(v, choice) && wl[l] != []
      ensures !IsFalse(l, a1)
    {
      if l.name == v {
        assert l.isConjugated != choice;
      } else {
        assert !IsFalse(l, a);
      }
    }
  }

  /** Clearing variable `v` makes its literals not false, so `v`'s literal is no longer the exception. */
  lemma ClearKeepsWatching(wl: WatchMap, a: NamedAssignment, x: Literal)
    requires WatchingExcept(wl, a, x)
    ensures Watching(wl, a[x.name := None])
  {
  }

  /** A list emptied of its clauses is no exception. */
  lemma EmptiedWatching(wl: WatchMap, a: NamedAssignment, x: Literal)
    requires WatchingExcept(wl, a, x) && Get(wl, x) == []
    ensures Watching(wl, a)
  {
  }

  // ---------------------------------------------------------------------
  // Finding another literal to watch
  // ---------------------------------------------------------------------

  /**
   * The `for literal in clause` search of `update`: the first literal that
   * is not false, None when all are false, KeyError at a variable the
   * assignment does not hold.
   */
  method FindAlternative(clause: seq<Literal>, a: NamedAssignment) returns (r: Result<Option<Literal>>)
    ensures r == Ok(None) <==> AllFalse(clause, a)
    ensures r.Ok? && r.value.Some? ==>
              exists j :: 0 <= j < |clause| && clause[j] == r.value.value && !IsFalse(clause[j], a)
                          && forall k :: 0 <= k < j ==> IsFalse(clause[k], a)
    ensures r.Err? ==> r.error == KeyError && exists m :: m in clause && m.name !in a
    ensures (forall m :: m in clause ==> m.name in a) ==> r.Ok?
  {
    for j := 0 to |clause|
      invariant forall k :: 0 <= k < j ==> IsFalse(clause[k], a)
    {
      var m := clause[j];
      if m.name !in a {
        assert m in clause && !IsFalse(m, a);
        return Err(KeyError);
      }
      if !IsFalse(m, a) {
        return Ok(Some(m));
      }
    }
    assert forall m :: m in clause ==> IsFalse(m, a) by {
      forall m | m in clause
        ensures IsFalse(m, a)
      {
        var k :| 0 <= k < |clause| && clause[k] == m;
      }
    }
    return Ok(None);
  }

  class Watchlist {
    var watchlist: WatchMap

    /** `Watchlist()`: no clauses watched. */
    constructor ()
      ensures watchlist == map[]
    {
      watchlist := map[];
    }

    /** `add_clause`: the clause is watched by its first literal; an empty clause raises IndexError. */
    method AddClause(clause: seq<Literal>) returns (error: Option<Error>)
      modifies this
      ensures error.Some? <==> clause == []
      ensures error.Some? ==> error.value == IndexError
      ensures error.None? ==> watchlist == old(watchlist)[clause[0] := Get(old(watchlist), clause[0]) + [clause]]
      ensures error.Some? ==> watchlist == old(watchlist)
    {
      if clause == [] {
        return Some(IndexError);
      }
      watchlist := watchlist[clause[0] := Get(watchlist, clause[0]) + [clause]];
      return None;
    }

    /**
     * `update`: the given literal must be false (AssertionError otherwise,
     * KeyError when its variable is missing). The clauses watching it are
     * taken from the back of its list, each moved to the first of its
     * literals that is not false. At a clause whose literals are all false
     * the update stops with False, that clause still last in the list;
     * the clauses moved before it stay moved.
     */
    method Update(falseLit: Literal, a: NamedAssignment) returns (r: Result<bool>)
      modifies this
      ensures falseLit.name !in a ==> r == Err(KeyError) && watchlist == old(watchlist)
      ensures falseLit.name in a && !IsFalse(falseLit, a) ==> r == Err(AssertionError) && watchlist == old(watchlist)
      ensures r.Err? ==> r.error in {KeyError, AssertionError}
      ensures IsFalse(falseLit, a) && NamesIn(old(watchlist), a) ==> r.Ok? && NamesIn(watchlist, a)
      ensures r.Ok? && Contains(old(watchlist)) ==> Contains(watchlist)
      ensures r.Ok? ==> forall c :: Holds(watchlist, c) <==> Holds(old(watchlist), c)
      ensures r.Ok? && WatchingExcept(old(watchlist), a, falseLit) ==> WatchingExcept(watchlist, a, falseLit)
      ensures r == Ok(true) ==> Get(watchlist, falseLit) == []
      ensures r == Ok(false) ==>
                var rest := Get(watchlist, falseLit);
                rest != [] && rest <= Get(old(watchlist), falseLit) && AllFalse(rest[|rest| - 1], a)
    {
      if falseLit.name !in a {
        return Err(KeyError);
      }
      if !IsFalse(falseLit, a) {
        return Err(AssertionError);
      }
      var pending := Get(watchlist, falseLit);
      SetOwnList(watchlist, falseLit);
      watchlist := watchlist[falseLit := pending];
      while pending != []
        invariant Get(watchlist, falseLit) == pending && pending <= Get(old(watchlist), falseLit)
        invariant NamesIn(old(watchlist), a) ==> NamesIn(watchlist, a)
        invariant Contains(old(watchlist)) ==> Contains(watchlist)
        invariant forall c :: Holds(watchlist, c) <==> Holds(old(watchlist), c)
        invariant WatchingExcept(old(watchlist), a, falseLit) ==> WatchingExcept(watchlist, a, falseLit)
        decreases |pending|
      {
        var clause := pending[|pending| - 1];
        assert falseLit in watchlist && clause in watchlist[falseLit];
        var found := FindAlternative(clause, a);
        if found.Err? {
          return Err(found.error);
        }
        if found.value.None? {
          return Ok(false);
        }
        var lit := found.value.value;
        assert lit in clause;
        assert lit != falseLit;
        MigrateStep(old(watchlist), watchlist, falseLit, lit, a);
        watchlist := Migrate(watchlist, falseLit, lit);
        pending := pending[..|pending| - 1];
      }
      return Ok(true);
    }
  }

  /** `Watchlist(clauses)`: each clause added in turn; an empty one raises IndexError. */
  method NewWatchlist(clauses: seq<seq<Literal>>) returns (r: Result<Watchlist>)
    ensures r.Ok? <==> forall i :: 0 <= i < |clauses| ==> clauses[i] != []
    ensures r.Err? ==> r.error == IndexError
    ensures r.Ok? ==> fresh(r.value) && Contains(r.value.watchlist)
                      && (forall i :: 0 <= i < |clauses| ==> Holds(r.value.watchlist, clauses[i]))
                      && (forall l :: l in r.value.watchlist ==> forall c :: c in r.value.watchlist[l] ==> c in clauses)
  {
    var w := new Watchlist();
    for i := 0 to |clauses|
      invariant fresh(w)
      invariant forall k :: 0 <= k < i ==> clauses[k] != []
      invariant Contains(w.watchlist)
      invariant forall k :: 0 <= k < i ==> Holds(w.watchlist, clauses[k])
      invariant forall l :: l in w.watchlist ==> forall c :: c in w.watchlist[l] ==> c in clauses[..i]
    {
      ghost var before := w.watchlist;
      var error := w.AddClause(clauses[i]);
      if error.Some? {
        assert clauses[i] == [];
        return Err(IndexError);
      }
      var c := clauses[i];
      assert c in w.watchlist[c[0]];
      forall k | 0 <= k < i
        ensures Holds(w.watchlist, clauses[k])
      {
        assert Holds(before, clauses[k]);
        var l :| l in before && clauses[k] in before[l];
        assert clauses[k] in w.watchlist[l];
      }
    }
    return Ok(w);
  }

  lemma NonEmptyHasName(s: set<string>)
    requires s != {}
    ensures exists v :: v in s
  {
    if forall v :: v !in s {
      assert false;
    }
  }

  /** `list({lit.name for clause in clauses for lit in clause})`, in whatever order the set yields. */
  method ListOf(s: set<string>) returns (r: seq<string>)
    ensures NoDup(r) && forall v :: v in r <==> v in s
  {
    r := [];
    var todo := s;
    while todo != {}
      invariant todo <= s && NoDup(r)
      invariant forall v :: v in r <==> v in s && v !in todo
      decreases todo
    {
      NonEmptyHasName(todo);
      var v :| v in todo;
      r := r + [v];
      todo := todo - {v};
    }
  }

  /** The variables the clauses name. */
  function NamesOf(clauses: seq<seq<Literal>>): set<string>
  {
    set i, m | 0 <= i < |clauses| && m in clauses[i] :: m.name
  }

  /** Every variable of the list has a value. */
  predicate Full(a: NamedAssignment, vars: seq<string>)
  {
    forall i :: 0 <= i < |vars| ==> vars[i] in a && a[vars[i]].Some?
  }

  /** Choices tried for one variable: True first, then False. */
  predicate TriedInOrder(s: seq<bool>)
  {
    s == [] || s == [true] || s == [true, false]
  }

  /** Every assignment of the list is full and satisfies every clause. */
  predicate Models(solutions: seq<NamedAssignment>, vars: seq<string>, clauses: seq<seq<Literal>>)
  {
    forall k :: 0 <= k < |solutions| ==> Full(solutions[k], vars) && SatisfiesAll(solutions[k], clauses)
  }

  /** How `solve` ends. */
  datatype SolveEnd = Exhausted | Raised(error: Error) | OutOfFuel

  /** What one `for choice in [True, False]` round did. */
  datatype Attempt = Skipped | Failed | Succeeded | Errored(error: Error)

  /** The state the search loop keeps, with `index` the variable under consideration. */
  ghost predicate SearchInv(clauses: seq<seq<Literal>>, vars: seq<string>, a: NamedAssignment,
                            state: map<string, seq<bool>>, wl: WatchMap, index: int)
  {
    && NoDup(vars)
    && (forall v :: v in a <==> v in vars)
    && (forall v :: v in state <==> v in vars)
    && (forall i, m :: 0 <= i < |clauses| && m in clauses[i] ==> m.name in vars)
    && Contains(wl) && Watching(wl, a)
    && (forall i :: 0 <= i < |clauses| ==> Holds(wl, clauses[i]))
    && (forall i :: 0 <= i < |vars| && i < index ==> a[vars[i]].Some?)
    && (forall v :: v in state ==> TriedInOrder(state[v]))
  }

  /** At a full assignment the search invariant makes every clause satisfied. */
  lemma FullSatisfiesAll(clauses: seq<seq<Literal>>, vars: seq<string>, a: NamedAssignment,
                         state: map<string, seq<bool>>, wl: WatchMap)
    requires SearchInv(clauses, vars, a, state, wl, |vars|)
    ensures Full(a, vars) && SatisfiesAll(a, clauses)
  {
    forall i | 0 <= i < |clauses|
      ensures Satisfied(clauses[i], a)
    {
      forall m | m in clauses[i]
        ensures m.name in a && a[m.name].Some?
      {
        var k :| 0 <= k < |vars| && vars[k] == m.name;
      }
      WatchedClauseSatisfied(wl, a, clauses[i]);
    }
  }

  /**
   * One tried choice keeps the search invariant: recorded after the earlier
   * choices, the variable either keeps its value (and the search moves on)
   * or is cleared again.
   */
  lemma TryStep(clauses: seq<seq<Literal>>, vars: seq<string>, a0: NamedAssignment, s0: map<string, seq<bool>>,
                wl0: WatchMap, index: nat, choice: bool, a1: NamedAssignment, wl1: WatchMap, success: bool)
    requires index < |vars| && SearchInv(clauses, vars, a0, s0, wl0, index)
    requires choice !in s0[vars[index]] && (!choice ==> true in s0[vars[index]])
    requires Contains(wl1) && forall c :: Holds(wl1, c) <==> Holds(wl0, c)
    requires a1 == a0[vars[index] := if success then Some(choice) else None] && Watching(wl1, a1)
    ensures SearchInv(clauses, vars, a1, s0[vars[index] := s0[vars[index]] + [choice]], wl1,
                      if success then index + 1 else index)
  {
    var v := vars[index];
    var s1 := s0[v := s0[v] + [choice]];
    assert TriedInOrder(s1[v]);
    forall i | 0 <= i < |clauses|
      ensures Holds(wl1, clauses[i])
    {
      assert Holds(wl0, clauses[i]);
    }
    forall i | 0 <= i < |vars| && i < (if success then index + 1 else index)
      ensures a1[vars[i]].Some?
    {
      if i < index {
        assert vars[i] != v;
      }
    }
  }

  /** Backtracking clears the variable and what was tried for it, and steps back one variable. */
  lemma BacktrackStep(clauses: seq<seq<Literal>>, vars: seq<string>, a: NamedAssignment, s: map<string, seq<bool>>,
                      wl: WatchMap, index: nat)
    requires 0 < index < |vars| && SearchInv(clauses, vars, a, s, wl, index)
    ensures SearchInv(clauses, vars, a[vars[index] := None], s[vars[index] := []], wl, index - 1)
  {
    var v := vars[index];
    forall i | 0 <= i < |vars| && i < index - 1
      ensures a[v := None][vars[i]].Some?
    {
      assert vars[i] != v;
    }
    ClearKeepsWatching(wl, a, Literal(v, true));
    assert a[v := None] == a[Literal(v, true).name := None];
  }

  class SimpleSATSolver {
    const clauses: seq<seq<Literal>>
    const variables: seq<string>
    var assignment: NamedAssignment
    var state: map<string, seq<bool>>
    var watchlist: Watchlist

    /** `__init__`: the clauses and the list of the variables they name. */
    constructor (clauses: seq<seq<Literal>>)
      ensures this.clauses == clauses
      ensures NoDup(variables) && forall v :: v in variables <==> v in NamesOf(clauses)
    {
      this.clauses := clauses;
      var vars := ListOf(NamesOf(clauses));
      variables := vars;
      watchlist := new Watchlist();
    }

    ghost predicate Searching(index: int)
      reads this, watchlist
    {
      SearchInv(clauses, variables, assignment, state, watchlist.watchlist, index)
    }

    /** `_setup`: every variable unassigned with nothing tried, and a watchlist of the clauses. */
    method Setup() returns (error: Option<Error>)
      requires NoDup(variables) && forall v :: v in variables <==> v in NamesOf(clauses)
      modifies this
      ensures error.None? <==> forall i :: 0 <= i < |clauses| ==> clauses[i] != []
      ensures error.Some? ==> error.value == IndexError
      ensures error.None? ==> fresh(watchlist) && Searching(0)
      ensures error.None? ==> forall v :: v in assignment <==> v in variables
      ensures error.None? ==> forall v :: v in assignment ==> assignment[v] == None
    {
      assignment := map v | v in variables :: None;
      state := map v | v in variables :: [];
      var w := NewWatchlist(clauses);
      if w.Err? {
        return Some(w.error);
      }
      watchlist := w.value;
      forall i, m | 0 <= i < |clauses| && m in clauses[i]
        ensures m.name in variables
      {
        assert m.name in NamesOf(clauses);
      }
      return None;
    }

    /**
     * One round of `for choice in [True, False]` at `variables[index]`: a
     * choice already tried is skipped; otherwise it is recorded, assigned,
     * and the literal it makes false is updated in the watchlist; on
     * failure the variable is cleared again.
     */
    method TryChoice(index: nat, choice: bool) returns (attempt: Attempt)
      requires index < |variables| && Searching(index)
      requires !choice ==> true in state[variables[index]]
      modifies this, watchlist
      ensures watchlist == old(watchlist)
      ensures attempt == Succeeded ==> Searching(index + 1)
      ensures attempt in {Skipped, Failed} ==> Searching(index)
      ensures !attempt.Errored? ==> true in state[variables[index]]
      ensures attempt == Skipped <==> choice in old(state[variables[index]])
      ensures attempt == Skipped ==> state == old(state)
      ensures attempt != Skipped ==> state == old(state)[variables[index] := old(state[variables[index]]) + [choice]]
    {
      var v := variables[index];
      if choice in state[v] {
        return Skipped;
      }
      attempt := Assign(index, choice);
    }

    /** A choice not tried yet: recorded, assigned, and its false literal updated in the watchlist. */
    method Assign(index: nat, choice: bool) returns (attempt: Attempt)
      requires index < |variables| && Searching(index)
      requires choice !in state[variables[index]] && (!choice ==> true in state[variables[index]])
      modifies this, watchlist
      ensures watchlist == old(watchlist) && attempt != Skipped
      ensures attempt == Succeeded ==> Searching(index + 1)
      ensures attempt == Failed ==> Searching(index)
      ensures state == old(state)[variables[index] := old(state[variables[index]]) + [choice]]
    {
      var v := variables[index];
      ghost var a0, s0, wl0 := assignment, state, watchlist.watchlist;
      state := state[v := state[v] + [choice]];
      AssignKeepsWatching(wl0, a0, v, choice);
      assignment := assignment[v := Some(choice)];
      var succeeded := watchlist.Update(Literal(v, choice), assignment);
      if succeeded.Err? {
        return Errored(succeeded.error);
      }
      if !succeeded.value {
        ClearKeepsWatching(watchlist.watchlist, assignment, Literal(v, choice));
        assignment := assignment[v := None];
        TryStep(clauses, variables, a0, s0, wl0, index, choice, assignment, watchlist.watchlist, false);
        return Failed;
      }
      EmptiedWatching(watchlist.watchlist, assignment, Literal(v, choice));
      TryStep(clauses, variables, a0, s0, wl0, index, choice, assignment, watchlist.watchlist, true);
      return Succeeded;
    }

    /**
     * `for choice in [True, False]` at `variables[index]`: True is tried
     * first, False only when True did not succeed. Skipped means neither
     * could be tried, Failed that some was tried and none succeeded.
     */
    method TryBoth(index: nat) returns (attempt: Attempt)
      requires index < |variables| && Searching(index)
      modifies this, watchlist
      ensures watchlist == old(watchlist)
      ensures attempt == Succeeded ==> Searching(index + 1)
      ensures attempt in {Skipped, Failed} ==> Searching(index)
      ensures attempt == Skipped <==> true in old(state[variables[index]]) && false in old(state[variables[index]])
    {
      var first := TryChoice(index, true);
      if first.Errored? || first == Succeeded {
        return first;
      }
      var second := TryChoice(index, false);
      if second.Errored? || second == Succeeded {
        return second;
      }
      return if first == Skipped && second == Skipped then Skipped else Failed;
    }

    /**
     * One pass of the `while True` loop of `solve`: at the end of the list
     * the full assignment is yielded and the search steps back; otherwise
     * True then False is tried at `variables[index]`, and when neither could
     * be tried the search stops at the first variable or backtracks,
     * clearing the variable and what was tried for it.
     */
    method Round(index: int) returns (next: int, yielded: Option<NamedAssignment>, stop: Option<SolveEnd>)
      requires -1 <= index <= |variables| && (index == -1 ==> variables == [])
      requires index >= 0 ==> Searching(index)
      modifies this, watchlist
      ensures watchlist == old(watchlist)
      ensures stop.None? ==> -1 <= next <= |variables| && (next == -1 ==> variables == [])
      ensures stop.None? && next >= 0 ==> Searching(next)
      ensures yielded.Some? ==> Full(yielded.value, variables) && SatisfiesAll(yielded.value, clauses)
      ensures stop.Some? ==> stop.value != OutOfFuel
    {
      if index == |variables| {
        FullSatisfiesAll(clauses, variables, assignment, state, watchlist.watchlist);
        return index - 1, Some(assignment), None;
      }
      if index < 0 {
        return index, None, Some(Raised(IndexError));
      }
      var attempt := TryBoth(index);
      match attempt {
        case Errored(e) =>
          return index, None, Some(Raised(e));
        case Succeeded =>
          return index + 1, None, None;
        case Failed =>
          return index, None, None;
        case Skipped =>
          if index == 0 {
            return index, None, Some(Exhausted);
          }
          var v := variables[index];
          BacktrackStep(clauses, variables, assignment, state, watchlist.watchlist, index);
          state := state[v := []];
          assignment := assignment[v := None];
          return index - 1, None, None;
      }
    }

    /**
     * `solve`, run for at most `fuel` passes of its loop: the assignments it
     * yields, in order, and how it stopped. Every yielded assignment gives
     * each variable a value and satisfies every clause; each variable's
     * tried choices are True before False. With no variables the empty
     * assignment is yielded and the next pass indexes the empty variable
     * list at -1.
     */
    method Solve(fuel: nat) returns (solutions: seq<NamedAssignment>, end: SolveEnd)
      requires NoDup(variables) && forall v :: v in variables <==> v in NamesOf(clauses)
      modifies this, watchlist
      ensures Models(solutions, variables, clauses)
      ensures (exists i :: 0 <= i < |clauses| && clauses[i] == []) ==> solutions == [] && end == Raised(IndexError)
    {
      var error := Setup();
      if error.Some? {
        return [], Raised(error.value);
      }
      solutions, end := Enumerate(fuel);
    }

    /** The loop of `solve` from its first variable, for at most `fuel` passes. */
    method Enumerate(fuel: nat) returns (solutions: seq<NamedAssignment>, end: SolveEnd)
      requires Searching(0)
      modifies this, watchlist
      ensures Models(solutions, variables, clauses)
    {
      solutions := [];
      var index: int := 0;
      var rounds := fuel;
      while rounds > 0
        invariant -1 <= index <= |variables| && (index == -1 ==> variables == [])
        invariant watchlist == old(watchlist)
        invariant index >= 0 ==> Searching(index)
        invariant Models(solutions, variables, clauses)
        decreases rounds
      {
        rounds := rounds - 1;
        var next, yielded, stop := Round(index);
        if yielded.Some? {
          assert Models([yielded.value], variables, clauses);
          solutions := solutions + [yielded.value];
        }
        if stop.Some? {
          return solutions, stop.value;
        }
        index := next;
      }
      return solutions, OutOfFuel;
    }
  }

  /** An unsatisfiable clause set yields no solutions: each one yielded is a model. */
  lemma NoSolutionsWhenUnsatisfiable(clauses: seq<seq<Literal>>, solutions: seq<NamedAssignment>, vars: seq<string>)
    requires Models(solutions, vars, clauses)
    ensures Unsatisfiable(clauses) ==> solutions == []
  {
    if solutions != [] {
      assert SatisfiesAll(solutions[0], clauses);
    }
  }
}
