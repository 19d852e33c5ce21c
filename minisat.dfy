/**
 * `MiniSATSolver` (simplesat/sat/minisat.py): a CDCL solver with two watched
 * literals per clause, a trail of true literals split into decision levels
 * by `trailLim`, and 1-UIP conflict analysis.
 *
 * Clauses are objects shared between the clause list, the watch lists and
 * the reasons, as in the source; `Lits()` reads their current literals.
 * `Valid()` is the invariant every operation keeps: the assignment table is
 * consistent, every stored clause has two or more distinct non-zero
 * literals, each watch list holds clauses watching the negated key in one
 * of their first two places, every trail literal is true with no variable
 * twice, and every recorded reason is a stored clause.
 */
module MiniSat {
  import opened Wrappers
  import opened SatUtils
  import opened SeqUtil
  import opened SetFacts
  import opened AssignmentSetModel
  import opened Clauses
  import opened WatchState

  /** What `search` ends with: a model, unsatisfiability, a raised exception, or no verdict within the fuel. */
  datatype SearchResult = Model(solution: State) | Unsatisfiable | Failed(error: Error) | OutOfFuel

  /** `levels[v]` of a `defaultdict(int)`. */
  function LevelOf(levels: map<int, int>, v: int): int
  {
    if v in levels then levels[v] else 0
  }

  /** The variables of a list of literals. */
  function VarsOf(s: seq<int>): set<int>
  {
    set k | 0 <= k < |s| :: Abs(s[k])
  }

  /** The literals `validate` reads off a solution: `v` when `v` is True, `-v` otherwise. */
  function SolutionLiterals(solution: map<int, Option<bool>>): set<int>
  {
    set v | v in solution :: if solution[v] == Some(true) then v else -v
  }

  /** A clause holds under a solution when it shares a literal with it. */
  predicate SharesLiteral(lits: seq<int>, solution: map<int, Option<bool>>)
  {
    exists k :: 0 <= k < |lits| && lits[k] in SolutionLiterals(solution)
  }

  /**
   * For a solution over positive variables that assigns every variable, a
   * literal is one of its literals exactly when the literal is true; an
   * unassigned variable counts as False.
   */
  lemma SolutionLiteralMeaning(solution: map<int, Option<bool>>, lit: int)
    requires lit != 0 && forall v :: v in solution ==> v > 0
    ensures lit in SolutionLiterals(solution) <==>
              Abs(lit) in solution && (Value(lit, solution) == Some(true) || (lit < 0 && solution[-lit].None?))
  {
    if lit in SolutionLiterals(solution) {
      var v :| v in solution && lit == (if solution[v] == Some(true) then v else -v);
      assert Abs(lit) == v;
    }
    if Abs(lit) in solution && (Value(lit, solution) == Some(true) || (lit < 0 && solution[-lit].None?)) {
      var v: int := Abs(lit);
      assert lit == (if solution[v] == Some(true) then v else -v);
    }
  }

  /** A subset as large as its superset is the whole set. */
  lemma SubsetSameSize(a: set<int>, b: set<int>)
    requires a <= b && |a| == |b|
    ensures a == b
  {
    if a != b {
      if forall y :: y in b ==> y in a {
        assert false;
      }
      var x :| x in b && x !in a;
      SubsetCard(a, b - {x});
    }
  }

  /** The trail invariant: a consistent table, true and distinct trail literals, non-negative level starts. */
  ghost predicate TrailInv(t: State, trail: seq<int>, trailLim: seq<int>)
  {
    AssignmentSetModel.Valid(t) && AllTrue(trail, t.data) && DistinctVars(trail) && 0 !in trail
    && forall k :: 0 <= k < |trailLim| ==> trailLim[k] >= 0
  }

  /** Every queued literal is a true, non-zero literal. */
  predicate QueueInv(t: State, queue: seq<int>)
  {
    AllTrue(queue, t.data) && 0 !in queue
  }

  /** Every recorded reason is a stored clause. */
  predicate ReasonsIn(reason: map<int, Option<Clause>>, clauses: seq<Clause>)
  {
    forall v :: v in reason && reason[v].Some? ==> reason[v].value in clauses
  }

  /** The solver's invariant over its state, with the clauses' literals given as a map. */
  ghost predicate SolverInv(t: State, trail: seq<int>, trailLim: seq<int>, reason: map<int, Option<Clause>>,
                            clauses: seq<Clause>, lits: LitsMap, vars: set<int>, watches: map<int, seq<Clause>>)
  {
    TrailInv(t, trail, trailLim) && ReasonsIn(reason, clauses) && DbOk(lits, vars) && WatchOk(watches, lits)
  }

  /** Storing a fresh clause of two or more literals and watching its first two keeps the invariant. */
  lemma StoreInv(t: State, trail: seq<int>, trailLim: seq<int>, reason: map<int, Option<Clause>>,
                 clauses: seq<Clause>, lits: LitsMap, vars: set<int>, watches: map<int, seq<Clause>>,
                 c: Clause, l: seq<int>, vars': set<int>)
    requires SolverInv(t, trail, trailLim, reason, clauses, lits, vars, watches)
    requires c !in lits && vars <= vars' && ClauseOk(l, vars')
    ensures SolverInv(t, trail, trailLim, reason, clauses + [c], lits[c := l], vars', AddedWatches(watches, c, l[0], l[1]))
  {
    DbGrow(lits, vars, vars');
    AddWatched(watches, lits, vars', c, l);
  }

  /**
   * Rewatching a pending clause and appending it to the list of its new
   * second watch keeps the invariant, with one clause fewer pending.
   */
  lemma VisitInv(t: State, trail: seq<int>, trailLim: seq<int>, reason: map<int, Option<Clause>>,
                 clauses: seq<Clause>, lits: LitsMap, vars: set<int>, watches: map<int, seq<Clause>>,
                 pending: seq<Clause>, c: Clause, lit: int,
                 l': seq<int>, lits': LitsMap, watches': map<int, seq<Clause>>)
    requires SolverInv(t, trail, trailLim, reason, clauses, lits, vars, watches)
    requires PendingOk(watches, pending + [c], lit, lits)
    requires c in lits && |lits[c]| >= 2 && -lit in lits[c][..2]
    requires l' == Rewatched(lits[c], t.data, lit).0 && lits' == lits[c := l']
    requires watches' == watches[-l'[1] := Watchers(watches, -l'[1]) + [c]]
    ensures SolverInv(t, trail, trailLim, reason, clauses, lits', vars, watches')
    ensures PendingOk(watches', pending, lit, lits')
  {
    RewatchedPermutes(lits[c], t.data, lit);
    RewatchedSatisfied(lits[c], t.data, lit);
    RewatchedSecond(lits[c], t.data, lit);
    PermutedOk(lits[c], l', vars);
    DbStep(lits, vars, c, l');
    WatchStep(watches, pending, c, lit, lits, l', watches', lits');
  }

  /** On a conflict the clauses still pending go back on the list of `lit`. */
  lemma ConflictInv(t: State, trail: seq<int>, trailLim: seq<int>, reason: map<int, Option<Clause>>,
                    clauses: seq<Clause>, lits: LitsMap, vars: set<int>, watches: map<int, seq<Clause>>,
                    pending: seq<Clause>, lit: int)
    requires SolverInv(t, trail, trailLim, reason, clauses, lits, vars, watches)
    requires PendingOk(watches, pending, lit, lits)
    ensures SolverInv(t, trail, trailLim, reason, clauses, lits, vars, watches[lit := watches[lit] + pending])
  {
    ConflictRestore(watches, pending, lit, lits);
  }

  /** Taking the list of `lit` out to work through it keeps the invariant. */
  lemma StartInv(t: State, trail: seq<int>, trailLim: seq<int>, reason: map<int, Option<Clause>>,
                 clauses: seq<Clause>, lits: LitsMap, vars: set<int>, watches: map<int, seq<Clause>>, lit: int)
    requires SolverInv(t, trail, trailLim, reason, clauses, lits, vars, watches)
    ensures SolverInv(t, trail, trailLim, reason, clauses, lits, vars, watches[lit := []])
    ensures PendingOk(watches[lit := []], Watchers(watches, lit), lit, lits)
  {
    StartPending(watches, lits, lit);
  }

  /** The head of the queue is a true literal, and the rest of the queue keeps the queue invariant. */
  lemma QueueHead(t: State, queue: seq<int>)
    requires QueueInv(t, queue) && queue != []
    ensures queue[0] != 0 && Value(queue[0], t.data) == Some(true) && QueueInv(t, queue[1..])
  {
    assert forall k :: 0 <= k < |queue| - 1 ==> queue[1..][k] == queue[k + 1];
  }

  /** The unit a stored clause yields is a non-zero literal over a known variable. */
  lemma UnitOk(lits: LitsMap, vars: set<int>, c: Clause, a: Assignments, lit: int)
    requires DbOk(lits, vars) && c in lits && |lits[c]| >= 2 && -lit in lits[c][..2]
    requires Rewatched(lits[c], a, lit).1.Some?
    ensures Rewatched(lits[c], a, lit).1.value != 0 && Abs(Rewatched(lits[c], a, lit).1.value) in vars
  {
    RewatchedUnit(lits[c], a, lit);
    assert ClauseOk(lits[c], vars);
  }

  /** Each clause keeps its literals up to order. */
  ghost predicate Permuted(before: LitsMap, after: LitsMap)
  {
    forall c :: c in before ==> c in after && multiset(after[c]) == multiset(before[c])
  }

  lemma PermutedTrans(a: LitsMap, b: LitsMap, c: LitsMap)
    requires Permuted(a, b) && Permuted(b, c)
    ensures Permuted(a, c)
  {
  }

  lemma PermutedStep(before: LitsMap, lits: LitsMap, c: Clause, l': seq<int>)
    requires Permuted(before, lits) && c in lits && multiset(l') == multiset(lits[c])
    ensures Permuted(before, lits[c := l'])
  {
  }

  /** The variables of `vars` that the table does not assign. */
  function Unassigned(vars: set<int>, t: State): nat
  {
    |vars - AssignedKeys(t.data)|
  }

  /** An extension assigns at least as much. */
  lemma ExtendsCount(vars: set<int>, a: State, b: State)
    requires Extends(a.data, b.data)
    ensures Unassigned(vars, b) <= Unassigned(vars, a)
  {
    forall v | v in AssignedKeys(a.data) ensures v in AssignedKeys(b.data) {
      assert Status(a.data, v).Some?;
    }
    SubsetCard(vars - AssignedKeys(b.data), vars - AssignedKeys(a.data));
  }

  /** Assigning an unassigned variable of `vars` leaves one fewer unassigned. */
  lemma StoreCount(vars: set<int>, t: State, lit: int)
    requires Value(lit, t.data).None? && Abs(lit) in vars
    ensures Unassigned(vars, Assigned(t, Abs(lit), Some(lit > 0))) == Unassigned(vars, t) - 1
  {
    ValueUnassigned(lit, t.data);
    var v := Abs(lit);
    AssignedKeysUpdate(t.data, v, Some(lit > 0));
    assert v !in AssignedKeys(t.data);
    assert AssignedKeys(t.data) - {v} == AssignedKeys(t.data);
    assert Assigned(t, v, Some(lit > 0)).data == t.data[v := Some(lit > 0)];
    CountStep(vars, AssignedKeys(t.data), v);
  }

  /** The last pending clause is stored and watches `-lit`. */
  lemma PendingLast(watches: map<int, seq<Clause>>, pending: seq<Clause>, c: Clause, lit: int, lits: LitsMap)
    requires PendingOk(watches, pending + [c], lit, lits)
    ensures c in lits && |lits[c]| >= 2 && -lit in lits[c][..2]
  {
    assert (pending + [c])[|pending|] == c;
  }

  lemma LitsOfAt(cs: seq<Clause>, c: Clause)
    requires c in LitsOf(cs)
    ensures c in cs && LitsOf(cs)[c] == c.lits
  {
  }

  /** When only `c` changed, the literal map differs from the earlier one at `c` alone. */
  lemma LitsOfChanged(cs: seq<Clause>, c: Clause, before: LitsMap)
    requires c in cs && (forall d :: d in before <==> d in cs)
    requires forall d :: d in cs && d != c ==> before[d] == d.lits
    ensures LitsOf(cs) == before[c := c.lits]
  {
  }

  /** Making an unassigned literal true and appending it to the trail keeps the trail invariant. */
  lemma StoreStep(t: State, trail: seq<int>, trailLim: seq<int>, queue: seq<int>, lit: int)
    requires TrailInv(t, trail, trailLim) && lit != 0 && Value(lit, t.data).None?
    ensures var t' := Assigned(t, Abs(lit), Some(lit > 0));
            TrailInv(t', trail + [lit], trailLim) && Extends(t.data, t'.data) && Value(lit, t'.data) == Some(true)
            && (QueueInv(t, queue) ==> QueueInv(t', queue + [lit]))
  {
    SetItemValid(t, Abs(lit), Some(lit > 0));
    EnqueueTrail(trail, t.data, lit);
    if AllTrue(queue, t.data) {
      EnqueueTrue(queue, t.data, lit);
    }
  }

  /** Unassigning the variable of the last trail literal keeps the invariant on the shorter trail. */
  lemma UndoStep(t: State, trail: seq<int>, trailLim: seq<int>)
    requires TrailInv(t, trail, trailLim) && trail != []
    ensures var v := Abs(trail[|trail| - 1]);
            var t' := Assigned(t, v, None);
            TrailInv(t', trail[..|trail| - 1], trailLim) && Extends(t'.data, t.data) && Status(t'.data, v).None?
  {
    var v := Abs(trail[|trail| - 1]);
    SetItemValid(t, v, None);
    UndoTrail(trail, t.data);
    var t' := Assigned(t, v, None);
    forall x | Status(t'.data, x).Some? ensures Status(t.data, x) == Status(t'.data, x) {
      assert x != v;
    }
  }

  /** The current literals of each clause of `cs`. */
  ghost function LitsOf(cs: seq<Clause>): LitsMap
    reads cs
  {
    map c | c in cs :: c.lits
  }

  lemma LitsOfSnoc(cs: seq<Clause>, c: Clause)
    ensures LitsOf(cs + [c]) == LitsOf(cs)[c := c.lits]
  {
  }

  /** `max(btlevel, level)` over the levels `analyze` reads, from 0: their maximum, or 0. */
  function MaxLevel(s: seq<int>): (m: int)
    ensures m >= 0 && forall k :: 0 <= k < |s| ==> s[k] <= m
    ensures m == 0 || exists k :: 0 <= k < |s| && s[k] == m
    decreases |s|
  {
    if s == [] then 0
    else
      var m := MaxLevel(s[..|s| - 1]);
      assert forall k :: 0 <= k < |s| - 1 ==> s[k] == s[..|s| - 1][k];
      if s[|s| - 1] > m then s[|s| - 1] else m
  }

  lemma MaxLevelSnoc(s: seq<int>, x: int)
    ensures MaxLevel(s + [x]) == if x > MaxLevel(s) then x else MaxLevel(s)
  {
    assert (s + [x])[..|s|] == s;
  }

  lemma VarsOfTake(s: seq<int>, i: nat)
    requires i < |s|
    ensures VarsOf(s[..i + 1]) == VarsOf(s[..i]) + {Abs(s[i])}
  {
    var a := s[..i + 1];
    var b := s[..i];
    assert forall k :: 0 <= k < i ==> a[k] == b[k];
    forall v | v in VarsOf(a) ensures v in VarsOf(b) + {Abs(s[i])} {
      var k :| 0 <= k < |a| && Abs(a[k]) == v;
      if k < i {
        assert Abs(b[k]) == v;
      }
    }
  }

  lemma VarsOfAppend(x: seq<int>, y: seq<int>)
    ensures VarsOf(x + y) == VarsOf(x) + VarsOf(y)
  {
    var s := x + y;
    forall v | v in VarsOf(s) ensures v in VarsOf(x) + VarsOf(y) {
      var k :| 0 <= k < |s| && Abs(s[k]) == v;
      if k < |x| {
        assert s[k] == x[k];
      } else {
        assert s[k] == y[k - |x|];
      }
    }
    forall v | v in VarsOf(x) + VarsOf(y) ensures v in VarsOf(s) {
      if v in VarsOf(x) {
        var k :| 0 <= k < |x| && Abs(x[k]) == v;
        assert s[k] == x[k];
      } else {
        var k :| 0 <= k < |y| && Abs(y[k]) == v;
        assert s[|x| + k] == y[k];
      }
    }
  }

  /**
   * The levels after undoing the literals `undone`: each variable keeps its
   * level, or has level -1 and is one of the undone variables.
   */
  ghost predicate LevelsSince(before: map<int, int>, after: map<int, int>, undone: seq<int>)
  {
    forall v :: LevelOf(after, v) == LevelOf(before, v) || (LevelOf(after, v) == -1 && v in VarsOf(undone))
  }

  lemma LevelsSinceTrans(a: map<int, int>, b: map<int, int>, c: map<int, int>, u1: seq<int>, u2: seq<int>, u: seq<int>)
    requires LevelsSince(a, b, u1) && LevelsSince(b, c, u2) && VarsOf(u1) + VarsOf(u2) <= VarsOf(u)
    ensures LevelsSince(a, c, u)
  {
  }

  /**
   * Each level read is the level the learned literal's variable had
   * before, or -1 when the variable had been undone before it was read.
   */
  ghost predicate ReadSince(learned: seq<int>, read: seq<int>, before: map<int, int>, undone: seq<int>)
  {
    |read| <= |learned|
    && forall k :: 0 <= k < |read| ==>
         read[k] == LevelOf(before, Abs(learned[k])) || (read[k] == -1 && Abs(learned[k]) in VarsOf(undone))
  }

  lemma ReadSinceTrace(learned0: seq<int>, read0: seq<int>, learned: seq<int>, read: seq<int>,
                       before: map<int, int>, levels: map<int, int>, undone: seq<int>)
    requires ReadSince(learned0, read0, before, undone) && |read0| == |learned0|
    requires learned0 <= learned && read0 <= read && ReadFrom(learned, read, |learned0|, levels)
    requires LevelsSince(before, levels, undone)
    ensures ReadSince(learned, read, before, undone)
  {
    forall k | 0 <= k < |read|
      ensures read[k] == LevelOf(before, Abs(learned[k])) || (read[k] == -1 && Abs(learned[k]) in VarsOf(undone))
    {
      if k < |read0| {
        assert read[k] == read0[k] && learned[k] == learned0[k];
      }
    }
  }

  /** Popping the trail from `t1` down to `t2` adds to what was undone since `whole`. */
  lemma UndoneGrow(whole: seq<int>, t1: seq<int>, t2: seq<int>)
    requires t1 <= whole && t2 <= t1
    ensures VarsOf(whole[|t1|..]) + VarsOf(t1[|t2|..]) == VarsOf(whole[|t2|..])
  {
    assert whole[|t2|..] == t1[|t2|..] + whole[|t1|..];
    VarsOfAppend(t1[|t2|..], whole[|t1|..]);
  }

  lemma ReadSinceGrow(learned: seq<int>, read: seq<int>, before: map<int, int>, u: seq<int>, u': seq<int>)
    requires ReadSince(learned, read, before, u) && VarsOf(u) <= VarsOf(u')
    ensures ReadSince(learned, read, before, u')
  {
  }

  /** Undoing one more literal, the one just before those already undone. */
  lemma LevelsUndo(before: map<int, int>, levels: map<int, int>, whole: seq<int>, n: nat)
    requires n < |whole| && LevelsSince(before, levels, whole[n + 1..])
    ensures LevelsSince(before, levels[Abs(whole[n]) := -1], whole[n..])
  {
    assert whole[n..] == [whole[n]] + whole[n + 1..];
    VarsOfAppend([whole[n]], whole[n + 1..]);
    assert Abs(whole[n]) in VarsOf([whole[n]]);
  }

  /**
   * What the trace of `analyze` has gathered: the variables seen, the count
   * of those on the current level still to be resolved, the learned
   * literals, and the backtrack level.
   */
  datatype Tally = Tally(seen: set<int>, counter: int, learned: seq<int>, btlevel: int)

  /** The part of the tally `analyze` promises: non-zero literals, and the backtrack level the maximum of the levels read. */
  predicate TallyOk(t: Tally, read: seq<int>, level: int)
  {
    0 !in t.learned && |read| == |t.learned| && t.btlevel == MaxLevel(read)
    && forall k :: 0 <= k < |read| ==> read[k] != level
  }

  /**
   * `record`'s choice of the second watch: the index of the first literal
   * whose level (`levels.get(abs(lit), 0)`) is highest.
   */
  function MaxLevelIndex(s: seq<int>, levels: map<int, int>): (i: nat)
    requires s != []
    ensures i < |s| && forall k :: 0 <= k < |s| ==> LevelOf(levels, Abs(s[k])) <= LevelOf(levels, Abs(s[i]))
    ensures forall k :: 0 <= k < i ==> LevelOf(levels, Abs(s[k])) < LevelOf(levels, Abs(s[i]))
    decreases |s|
  {
    if |s| == 1 then 0
    else
      var i := MaxLevelIndex(s[..|s| - 1], levels);
      assert forall k :: 0 <= k < |s| - 1 ==> s[k] == s[..|s| - 1][k];
      if LevelOf(levels, Abs(s[|s| - 1])) > LevelOf(levels, Abs(s[i])) then |s| - 1 else i
  }

  /**
   * `record`'s reordering of a learned clause: the last literal (the
   * asserting one) is swapped to the front, then the literal of highest
   * level is swapped into second place.
   */
  function Arranged(lits: seq<int>, levels: map<int, int>): (r: seq<int>)
    requires lits != []
  {
    var front := Swap(lits, 0, |lits| - 1);
    if |front| >= 2 then Swap(front, 1, MaxLevelIndex(front, levels)) else front
  }

  /** The reordering only permutes the literals. */
  lemma ArrangedPermutes(lits: seq<int>, levels: map<int, int>)
    requires lits != []
    ensures |Arranged(lits, levels)| == |lits| && multiset(Arranged(lits, levels)) == multiset(lits)
    ensures forall x :: x in Arranged(lits, levels) <==> x in lits
    ensures NoDup(lits) ==> NoDup(Arranged(lits, levels))
  {
    var front := Swap(lits, 0, |lits| - 1);
    SwapPermutes(lits, 0, |lits| - 1);
    if |front| >= 2 {
      SwapPermutes(front, 1, MaxLevelIndex(front, levels));
    }
  }

  /**
   * When some other literal has a higher level than the asserting one, the
   * asserting literal ends first and a literal of the highest level second.
   */
  lemma ArrangedWatches(lits: seq<int>, levels: map<int, int>, j: nat)
    requires |lits| >= 2 && j < |lits| - 1
    requires LevelOf(levels, Abs(lits[|lits| - 1])) < LevelOf(levels, Abs(lits[j]))
    ensures Arranged(lits, levels)[0] == lits[|lits| - 1]
    ensures forall k :: 0 <= k < |lits| ==>
              LevelOf(levels, Abs(lits[k])) <= LevelOf(levels, Abs(Arranged(lits, levels)[1]))
  {
    var front := Swap(lits, 0, |lits| - 1);
    var i := MaxLevelIndex(front, levels);
    var j' := if j == 0 then |lits| - 1 else j;
    assert front[j'] == lits[j];
    assert i != 0;
    forall k | 0 <= k < |lits| ensures LevelOf(levels, Abs(lits[k])) <= LevelOf(levels, Abs(front[i])) {
      var k' := if k == 0 then |lits| - 1 else if k == |lits| - 1 then 0 else k;
      assert front[k'] == lits[k];
    }
  }

  /** The levels read from index `from` on are those of the learned literals' variables. */
  predicate ReadFrom(learned: seq<int>, read: seq<int>, from: nat, levels: map<int, int>)
  {
    |read| == |learned| && forall k :: from <= k < |learned| ==> read[k] == LevelOf(levels, Abs(learned[k]))
  }

  /**
   * The `for lit in reason` loop of `analyze`: each literal of a variable
   * not yet seen marks it seen, and counts it when it is on `level`, the
   * current one; otherwise its negation is learned and the backtrack level
   * raised to its level. Levels are read as from a `defaultdict(int)`.
   */
  method TraceReason(levels: map<int, int>, level: int, reason: seq<int>, t0: Tally, ghost read0: seq<int>)
    returns (t: Tally, ghost read: seq<int>)
    requires 0 !in reason && TallyOk(t0, read0, level)
    ensures TallyOk(t, read, level) && forall v :: v in t.seen <==> v in t0.seen || v in VarsOf(reason)
    ensures t0.learned <= t.learned && t.counter >= t0.counter && read0 <= read
    ensures forall k :: |t0.learned| <= k < |t.learned| ==> -t.learned[k] in reason && Abs(t.learned[k]) !in t0.seen
    ensures ReadFrom(t.learned, read, |t0.learned|, levels)
  {
    t := t0;
    read := read0;
    for i := 0 to |reason|
      invariant TallyOk(t, read, level)
      invariant t.seen == t0.seen + VarsOf(reason[..i])
      invariant t0.learned <= t.learned && t.counter >= t0.counter && read0 <= read
      invariant forall k :: |t0.learned| <= k < |t.learned| ==> -t.learned[k] in reason && Abs(t.learned[k]) !in t0.seen
      invariant ReadFrom(t.learned, read, |t0.learned|, levels)
    {
      t, read := TraceStep(levels, level, reason, i, t0, read0, t, read);
    }
    assert reason[..|reason|] == reason;
  }

  /** One turn of the loop of `TraceReason`, keeping its invariant. */
  method TraceStep(levels: map<int, int>, level: int, reason: seq<int>, i: nat, ghost t0: Tally, ghost read0: seq<int>,
                   t1: Tally, ghost read1: seq<int>)
    returns (t: Tally, ghost read: seq<int>)
    requires 0 !in reason && i < |reason|
    requires TallyOk(t1, read1, level)
    requires t1.seen == t0.seen + VarsOf(reason[..i])
    requires t0.learned <= t1.learned && t1.counter >= t0.counter && read0 <= read1
    requires forall k :: |t0.learned| <= k < |t1.learned| ==> -t1.learned[k] in reason && Abs(t1.learned[k]) !in t0.seen
    requires ReadFrom(t1.learned, read1, |t0.learned|, levels)
    ensures TallyOk(t, read, level)
    ensures t.seen == t0.seen + VarsOf(reason[..i + 1])
    ensures t0.learned <= t.learned && t.counter >= t0.counter && read0 <= read
    ensures forall k :: |t0.learned| <= k < |t.learned| ==> -t.learned[k] in reason && Abs(t.learned[k]) !in t0.seen
    ensures ReadFrom(t.learned, read, |t0.learned|, levels)
  {
    VarsOfTake(reason, i);
    t, read := TraceLiteral(levels, level, reason[i], t1, read1);
    ReadFromStep(t1.learned, read1, |t0.learned|, levels, reason[i], t.learned, read);
    LearnedFromReason(reason, i, t0.seen, t1.seen, |t0.learned|, t1.learned, t.learned);
  }

  /** The literals learned from `reason` are negations of its literals, of variables not seen at the start. */
  lemma LearnedFromReason(reason: seq<int>, i: nat, seen0: set<int>, seen1: set<int>, from: nat,
                          learned1: seq<int>, learned: seq<int>)
    requires i < |reason| && seen0 <= seen1 && from <= |learned1|
    requires forall k :: from <= k < |learned1| ==> -learned1[k] in reason && Abs(learned1[k]) !in seen0
    requires learned == learned1 || (learned == learned1 + [-reason[i]] && Abs(reason[i]) !in seen1)
    ensures forall k :: from <= k < |learned| ==> -learned[k] in reason && Abs(learned[k]) !in seen0
  {
    if learned != learned1 {
      forall k | from <= k < |learned|
        ensures -learned[k] in reason && Abs(learned[k]) !in seen0
      {
        if k < |learned1| {
          assert learned[k] == learned1[k];
        } else {
          assert learned[k] == -reason[i];
        }
      }
    }
  }

  lemma ReadFromStep(learned: seq<int>, read: seq<int>, from: nat, levels: map<int, int>, lit: int,
                     learned': seq<int>, read': seq<int>)
    requires ReadFrom(learned, read, from, levels) && from <= |learned|
    requires (learned' == learned && read' == read)
          || (learned' == learned + [-lit] && read' == read + [LevelOf(levels, Abs(lit))])
    ensures ReadFrom(learned', read', from, levels)
  {
    if learned' != learned {
      assert Abs(learned'[|learned|]) == Abs(lit);
    }
  }

  /** One literal of the `for lit in reason` loop of `analyze`. */
  method TraceLiteral(levels: map<int, int>, level: int, lit: int, t0: Tally, ghost read0: seq<int>)
    returns (t: Tally, ghost read: seq<int>)
    requires lit != 0 && TallyOk(t0, read0, level)
    ensures TallyOk(t, read, level) && t.seen == t0.seen + {Abs(lit)}
    ensures t.counter >= t0.counter
    ensures t.learned == t0.learned || (t.learned == t0.learned + [-lit] && Abs(lit) !in t0.seen)
    ensures (t.learned == t0.learned && read == read0)
         || (t.learned == t0.learned + [-lit] && read == read0 + [LevelOf(levels, Abs(lit))])
  {
    t := t0;
    read := read0;
    var v := Abs(lit);
    if v !in t.seen {
      var seen := t.seen + {v};
      var lv := LevelOf(levels, v);
      if lv == level {
        t := t.(seen := seen, counter := t.counter + 1);
      } else {
        MaxLevelSnoc(read, lv);
        t := Tally(seen, t.counter, t.learned + [-lit], if lv > t.btlevel then lv else t.btlevel);
        read := read + [lv];
      }
    }
  }

  /** A table whose assigned keys are as many as its keys assigns every key. */
  lemma AllAssigned(t: State)
    requires |AssignedKeys(t.data)| == |t.data.Keys|
    ensures forall v :: v in t.data ==> t.data[v].Some?
  {
    assert AssignedKeys(t.data) <= t.data.Keys;
    SubsetSameSize(AssignedKeys(t.data), t.data.Keys);
    forall v | v in t.data ensures t.data[v].Some? {
      assert v in AssignedKeys(t.data);
    }
  }

  /** The two in-place swaps `record` makes on a learned clause. */
  method Arrange(c: Clause, levels: map<int, int>)
    requires c.lits != []
    modifies c
    ensures c.lits == Arranged(old(c.lits), levels)
  {
    c.lits := Swap(c.lits, 0, |c.lits| - 1);
    if |c.lits| >= 2 {
      var maxI := MaxLevelIndex(c.lits, levels);
      c.lits := Swap(c.lits, 1, maxI);
    }
  }

  class MiniSATSolver {
    var clauses: seq<Clause>
    var watches: map<int, seq<Clause>>
    /** The assignment table, by value: its updates are those `AssignmentSet.SetItem` is proved to perform. */
    var assignments: State
    var levels: map<int, int>
    var propQueue: seq<int>
    var trail: seq<int>
    var trailLim: seq<int>
    var reason: map<int, Option<Clause>>
    /** None while undecided; `Some(false)` once an empty clause was added. */
    var status: Option<bool>
    /** A bound on the variables of the stored clauses. */
    ghost var vars: set<int>

    /** The current literals of every stored clause. */
    ghost function Lits(): LitsMap
      reads this`clauses, clauses
    {
      LitsOf(clauses)
    }

    ghost predicate TrailOk()
      reads this
    {
      TrailInv(assignments, trail, trailLim)
    }

    ghost predicate ReasonsOk()
      reads this
    {
      ReasonsIn(reason, clauses)
    }

    ghost predicate Valid()
      reads this, clauses
    {
      SolverInv(assignments, trail, trailLim, reason, clauses, Lits(), vars, watches)
    }

    /** Valid, and every queued literal is true. */
    ghost predicate Ready()
      reads this, clauses
    {
      Valid() && QueueInv(assignments, propQueue)
    }

    constructor ()
      ensures Ready() && assignments == Empty
      ensures clauses == [] && watches == map[] && levels == map[] && reason == map[]
      ensures propQueue == [] && trail == [] && trailLim == [] && status == None
    {
      clauses := [];
      watches := map[];
      assignments := Empty;
      levels := map[];
      propQueue := [];
      trail := [];
      trailLim := [];
      reason := map[];
      status := None;
      vars := {};
      new;
      EmptyValid();
    }

    /** `decision_level`: the number of decisions on the trail. */
    function DecisionLevel(): (n: nat)
      reads this
      ensures n == |trailLim|
    {
      |trailLim|
    }

    /** `number_assigned`: the variables holding True or False. */
    function NumberAssigned(): (n: int)
      reads this
      requires TrailOk()
      ensures n == |AssignedKeys(assignments.data)|
    {
      assignments.nassigned
    }

    /** `number_variables`: every key of the table, assigned or not. */
    function NumberVariables(): (n: nat)
      reads this
      requires TrailOk()
      ensures n == |assignments.data.Keys| && n >= NumberAssigned()
    {
      NumAssignedAtMostLen(assignments);
      |assignments.data.Keys|
    }

    /**
     * `enqueue(lit, cause)`: an assigned literal changes nothing and its value
     * is returned; an unassigned one is made true, queued, put on the trail
     * at the current level with its cause, and True is returned.
     */
    method Enqueue(lit: int, cause: Option<Clause>) returns (r: bool)
      requires TrailOk() && lit != 0
      requires Value(lit, assignments.data).None? && cause.Some? ==> cause.value in clauses
      modifies this
      ensures TrailOk() && (old(ReasonsOk()) ==> ReasonsOk())
      ensures clauses == old(clauses) && watches == old(watches) && trailLim == old(trailLim)
      ensures status == old(status) && vars == old(vars)
      ensures Extends(old(assignments.data), assignments.data) && Value(lit, assignments.data).Some?
      ensures old(Value(lit, assignments.data)).Some? ==>
                r == old(Value(lit, assignments.data)).value && unchanged(this)
      ensures old(Value(lit, assignments.data)).None? ==>
                r && Value(lit, assignments.data) == Some(true)
                && assignments == Assigned(old(assignments), Abs(lit), Some(lit > 0))
                && propQueue == old(propQueue) + [lit] && trail == old(trail) + [lit]
                && levels == old(levels)[Abs(lit) := |trailLim|] && reason == old(reason)[Abs(lit) := cause]
      ensures old(QueueInv(assignments, propQueue)) ==> QueueInv(assignments, propQueue)
    {
      var status := Value(lit, assignments.data);
      if status.Some? {
        return status.value;
      }
      StoreStep(assignments, trail, trailLim, propQueue, lit);
      assignments := Assigned(assignments, Abs(lit), Some(lit > 0));
      propQueue := propQueue + [lit];
      trail := trail + [lit];
      levels := levels[Abs(lit) := |trailLim|];
      reason := reason[Abs(lit) := cause];
      return true;
    }

    /** `undo_one`: the last trail literal is taken off and its variable unassigned. */
    method UndoOne()
      requires TrailOk() && trail != []
      modifies this
      ensures TrailOk() && (old(ReasonsOk()) ==> ReasonsOk())
      ensures clauses == old(clauses) && watches == old(watches) && trailLim == old(trailLim)
      ensures propQueue == old(propQueue) && status == old(status) && vars == old(vars)
      ensures var v := Abs(old(trail)[|old(trail)| - 1]);
              trail == old(trail)[..|old(trail)| - 1]
              && assignments == Assigned(old(assignments), v, None)
              && reason == old(reason)[v := None] && levels == old(levels)[v := -1]
              && Status(assignments.data, v).None?
      ensures Extends(assignments.data, old(assignments.data))
    {
      UndoStep(assignments, trail, trailLim);
      var p := trail[|trail| - 1];
      trail := trail[..|trail| - 1];
      var v := Abs(p);
      assignments := Assigned(assignments, v, None);
      reason := reason[v := None];
      levels := levels[v := -1];
    }

    /**
     * `cancel`: the last decision level is closed and the trail cut back to
     * where that level began; a trail already shorter is left alone.
     */
    method Cancel()
      requires Valid() && trailLim != []
      modifies this
      ensures Valid() && Lits() == old(Lits())
      ensures clauses == old(clauses) && watches == old(watches)
      ensures propQueue == old(propQueue) && status == old(status) && vars == old(vars)
      ensures trailLim == old(trailLim)[..|old(trailLim)| - 1]
      ensures var keep := old(trailLim)[|old(trailLim)| - 1];
              trail == old(trail)[..if keep < |old(trail)| then keep else |old(trail)|]
      ensures forall k :: |trail| <= k < |old(trail)| ==> Status(assignments.data, Abs(old(trail)[k])).None?
      ensures Extends(assignments.data, old(assignments.data))
    {
      var keep := trailLim[|trailLim| - 1];
      trailLim := trailLim[..|trailLim| - 1];
      var c := |trail| - keep;
      if c > 0 {
        UndoMany(c);
      } else {
        UndoMany(0);
      }
    }

    /** `for _ in range(n): self.undo_one()`: the last `n` trail literals are undone. */
    method UndoMany(n: nat)
      requires Valid() && n <= |trail|
      modifies this
      ensures Valid() && Lits() == old(Lits())
      ensures clauses == old(clauses) && watches == old(watches) && trailLim == old(trailLim)
      ensures propQueue == old(propQueue) && status == old(status) && vars == old(vars)
      ensures trail == old(trail)[..|old(trail)| - n]
      ensures forall k :: |trail| <= k < |old(trail)| ==> Status(assignments.data, Abs(old(trail)[k])).None?
      ensures Extends(assignments.data, old(assignments.data))
    {
      var i := 0;
      while i < n
        invariant 0 <= i <= n
        invariant Valid() && Lits() == old(Lits())
        invariant clauses == old(clauses) && watches == old(watches) && trailLim == old(trailLim)
        invariant propQueue == old(propQueue) && status == old(status) && vars == old(vars)
        invariant trail == old(trail)[..|old(trail)| - i]
        invariant forall k :: |trail| <= k < |old(trail)| ==> Status(assignments.data, Abs(old(trail)[k])).None?
        invariant Extends(assignments.data, old(assignments.data))
      {
        UndoOne();
        i := i + 1;
      }
    }

    /** `cancel_until(level)`: decision levels are closed until at most `level` remain. */
    method CancelUntil(level: int)
      requires Valid() && level >= 0
      modifies this
      ensures Valid() && Lits() == old(Lits())
      ensures clauses == old(clauses) && watches == old(watches)
      ensures propQueue == old(propQueue) && status == old(status) && vars == old(vars)
      ensures |trailLim| == if |old(trailLim)| <= level then |old(trailLim)| else level
      ensures trailLim == old(trailLim)[..|trailLim|] && trail <= old(trail)
      ensures forall k :: |trail| <= k < |old(trail)| ==> Status(assignments.data, Abs(old(trail)[k])).None?
      ensures Extends(assignments.data, old(assignments.data))
    {
      while |trailLim| > level
        invariant Valid() && Lits() == old(Lits())
        invariant clauses == old(clauses) && watches == old(watches)
        invariant propQueue == old(propQueue) && status == old(status) && vars == old(vars)
        invariant |trailLim| <= |old(trailLim)| && (|old(trailLim)| > level ==> |trailLim| >= level)
        invariant |old(trailLim)| <= level ==> trailLim == old(trailLim)
        invariant trailLim == old(trailLim)[..|trailLim|] && trail <= old(trail)
        invariant forall k :: |trail| <= k < |old(trail)| ==> Status(assignments.data, Abs(old(trail)[k])).None?
        invariant Extends(assignments.data, old(assignments.data))
        decreases |trailLim|
      {
        Cancel();
      }
    }

    /** `assume(lit)`: a new decision level opens at the end of the trail, and `lit` is enqueued there. */
    method Assume(lit: int) returns (r: bool)
      requires TrailOk() && lit != 0
      modifies this
      ensures TrailOk() && (old(ReasonsOk()) ==> ReasonsOk())
      ensures trailLim == old(trailLim) + [|old(trail)|]
      ensures clauses == old(clauses) && watches == old(watches) && status == old(status) && vars == old(vars)
      ensures Extends(old(assignments.data), assignments.data)
      ensures old(Value(lit, assignments.data)).Some? ==>
                r == old(Value(lit, assignments.data)).value && trail == old(trail) && assignments == old(assignments)
      ensures old(Value(lit, assignments.data)).None? ==>
                r && Value(lit, assignments.data) == Some(true) && trail == old(trail) + [lit]
                && propQueue == old(propQueue) + [lit] && levels == old(levels)[Abs(lit) := |trailLim|]
                && reason == old(reason)[Abs(lit) := None]
      ensures old(QueueInv(assignments, propQueue)) ==> QueueInv(assignments, propQueue)
    {
      trailLim := trailLim + [|trail|];
      r := Enqueue(lit, None);
    }

    /**
     * `add_clause(clause)`: an empty clause sets the status to False; a unit
     * clause has its literal enqueued and is not stored; a longer clause is
     * watched on the negations of its first two literals and stored.
     */
    method AddClause(c: Clause)
      requires Ready() && c !in clauses && NoDup(c.lits) && 0 !in c.lits
      modifies this
      ensures Ready() && vars == old(vars) + VarsOf(c.lits)
      ensures Extends(old(assignments.data), assignments.data)
      ensures |c.lits| == 0 ==>
                status == Some(false) && clauses == old(clauses) && watches == old(watches)
                && assignments == old(assignments) && trail == old(trail) && propQueue == old(propQueue)
      ensures |c.lits| == 1 ==>
                status == old(status) && clauses == old(clauses) && watches == old(watches)
                && (old(Value(c.lits[0], assignments.data)).Some? ==>
                      assignments == old(assignments) && trail == old(trail) && propQueue == old(propQueue))
                && (old(Value(c.lits[0], assignments.data)).None? ==>
                      assignments == Assigned(old(assignments), Abs(c.lits[0]), Some(c.lits[0] > 0))
                      && trail == old(trail) + [c.lits[0]] && propQueue == old(propQueue) + [c.lits[0]])
                && Value(c.lits[0], assignments.data).Some?
      ensures |c.lits| >= 2 ==>
                status == old(status) && clauses == old(clauses) + [c]
                && watches == AddedWatches(old(watches), c, c.lits[0], c.lits[1])
                && assignments == old(assignments) && trail == old(trail) && propQueue == old(propQueue)
      ensures trailLim == old(trailLim)
    {
      ghost var vars' := vars + VarsOf(c.lits);
      if |c.lits| == 0 {
        DbGrow(Lits(), vars, vars');
        status := Some(false);
        vars := vars';
      } else if |c.lits| == 1 {
        DbGrow(Lits(), vars, vars');
        vars := vars';
        var _ := Enqueue(c.lits[0], None);
      } else {
        StoreClause(c, vars');
      }
    }

    /** The stored-clause branch of `add_clause`. */
    method StoreClause(c: Clause, ghost vars': set<int>)
      requires Ready() && c !in clauses && vars <= vars' && ClauseOk(c.lits, vars')
      modifies this
      ensures Ready() && vars == vars' && Lits() == old(Lits())[c := c.lits]
      ensures clauses == old(clauses) + [c] && watches == AddedWatches(old(watches), c, c.lits[0], c.lits[1])
      ensures assignments == old(assignments) && trail == old(trail) && trailLim == old(trailLim)
      ensures propQueue == old(propQueue) && status == old(status)
    {
      StoreInv(assignments, trail, trailLim, reason, clauses, Lits(), vars, watches, c, c.lits, vars');
      LitsOfSnoc(clauses, c);
      watches := AddedWatches(watches, c, c.lits[0], c.lits[1]);
      clauses := clauses + [c];
      vars := vars';
    }

    /** `add_clause` given a list of literals: they become a new, non-learned clause first. */
    method AddClauseLits(lits: seq<int>) returns (c: Clause)
      requires Ready() && 0 !in lits
      modifies this
      ensures fresh(c) && c.lits == Dedup(lits) && !c.learned
      ensures Ready() && vars == old(vars) + VarsOf(c.lits) && trailLim == old(trailLim)
      ensures |c.lits| >= 2 ==> clauses == old(clauses) + [c]
      ensures |c.lits| < 2 ==> clauses == old(clauses)
      ensures status == if lits == [] then Some(false) else old(status)
    {
      if lits != [] {
        assert lits[0] in Dedup(lits);
      }
      c := new Clause(lits, false);
      AddClause(c);
    }

    /**
     * `add_clause` with the result of `enqueue` checked: a unit clause whose
     * literal is already false sets the status to False, as an empty clause
     * does. Otherwise it does what `AddClause` does.
     */
    method AddClauseChecked(c: Clause)
      requires Ready() && c !in clauses && NoDup(c.lits) && 0 !in c.lits
      modifies this
      ensures Ready() && vars == old(vars) + VarsOf(c.lits) && trailLim == old(trailLim)
      ensures |c.lits| == 0 ==>
                status == Some(false) && clauses == old(clauses)
                && assignments == old(assignments) && trail == old(trail)
      ensures |c.lits| == 1 ==>
                clauses == old(clauses)
                && (old(Value(c.lits[0], assignments.data)).Some? ==>
                      assignments == old(assignments) && trail == old(trail)
                      && status == if old(Value(c.lits[0], assignments.data)) == Some(false) then Some(false) else old(status))
                && (old(Value(c.lits[0], assignments.data)).None? ==>
                      status == old(status)
                      && assignments == Assigned(old(assignments), Abs(c.lits[0]), Some(c.lits[0] > 0))
                      && trail == old(trail) + [c.lits[0]])
      ensures |c.lits| >= 2 ==>
                status == old(status) && clauses == old(clauses) + [c]
                && assignments == old(assignments) && trail == old(trail)
    {
      ghost var vars' := vars + VarsOf(c.lits);
      if |c.lits| == 0 {
        DbGrow(Lits(), vars, vars');
        status := Some(false);
        vars := vars';
      } else if |c.lits| == 1 {
        AddUnitChecked(c, vars');
      } else {
        StoreClause(c, vars');
      }
    }

    /** A one-literal clause: its literal is enqueued, and a literal already false sets the status to False. */
    method AddUnitChecked(c: Clause, ghost vars': set<int>)
      requires Ready() && |c.lits| == 1 && c.lits[0] != 0 && vars' == vars + VarsOf(c.lits)
      modifies this
      ensures Ready() && vars == vars' && trailLim == old(trailLim) && clauses == old(clauses)
      ensures old(Value(c.lits[0], assignments.data)).Some? ==>
                assignments == old(assignments) && trail == old(trail)
                && status == if old(Value(c.lits[0], assignments.data)) == Some(false) then Some(false) else old(status)
      ensures old(Value(c.lits[0], assignments.data)).None? ==>
                status == old(status)
                && assignments == Assigned(old(assignments), Abs(c.lits[0]), Some(c.lits[0] > 0))
                && trail == old(trail) + [c.lits[0]]
    {
      DbGrow(Lits(), vars, vars');
      vars := vars';
      var ok := Enqueue(c.lits[0], None);
      if !ok {
        status := Some(false);
      }
    }

    /** `AddClauseChecked` given a list of literals, made a new, non-learned clause first. */
    method AddClauseLitsChecked(lits: seq<int>) returns (c: Clause)
      requires Ready() && 0 !in lits
      modifies this
      ensures fresh(c) && c.lits == Dedup(lits) && !c.learned
      ensures Ready() && vars == old(vars) + VarsOf(c.lits) && trailLim == old(trailLim)
      ensures |c.lits| == 0 ==>
                status == Some(false) && clauses == old(clauses)
                && assignments == old(assignments) && trail == old(trail)
      ensures |Dedup(lits)| == 1 ==>
                clauses == old(clauses)
                && (old(Value(Dedup(lits)[0], assignments.data)).Some? ==>
                      assignments == old(assignments) && trail == old(trail)
                      && status == if old(Value(Dedup(lits)[0], assignments.data)) == Some(false) then Some(false) else old(status))
                && (old(Value(Dedup(lits)[0], assignments.data)).None? ==>
                      status == old(status)
                      && assignments == Assigned(old(assignments), Abs(Dedup(lits)[0]), Some(Dedup(lits)[0] > 0))
                      && trail == old(trail) + [Dedup(lits)[0]])
      ensures |c.lits| >= 2 ==>
                status == old(status) && clauses == old(clauses) + [c]
                && assignments == old(assignments) && trail == old(trail)
    {
      if lits != [] {
        assert lits[0] in Dedup(lits);
      }
      c := new Clause(lits, false);
      AddClauseChecked(c);
    }

    /**
     * One step of the inner loop of `propagate`: `rewatch` the clause and
     * append it to the list of the negation of its new second literal.
     */
    method Visit(c: Clause, lit: int, ghost pending: seq<Clause>) returns (unit: Option<int>)
      requires Valid() && PendingOk(watches, pending + [c], lit, Lits())
      requires c in clauses && |c.lits| >= 2 && -lit in c.lits[..2]
      modifies this`watches, c
      ensures Valid() && PendingOk(watches, pending, lit, Lits())
      ensures (c.lits, unit) == Rewatched(old(c.lits), assignments.data, lit)
      ensures Lits() == old(Lits())[c := c.lits]
    {
      ghost var lits := Lits();
      unit := c.Rewatch(assignments.data, lit);
      LitsOfChanged(clauses, c, lits);
      ghost var lits' := lits[c := c.lits];
      assert Lits() == lits';
      var watches' := watches[-c.lits[1] := Watchers(watches, -c.lits[1]) + [c]];
      VisitInv(assignments, trail, trailLim, reason, clauses, lits, vars, watches, pending, c, lit,
               c.lits, lits', watches');
      watches := watches';
      assert Lits() == lits';
    }

    /**
     * Since the state `(a0, trail0, lits0)`: the trail only grew, the table
     * only gained assignments, and every clause kept its literals up to order.
     */
    ghost predicate Since(a0: Assignments, trail0: seq<int>, lits0: LitsMap)
      reads this, clauses
    {
      trail0 <= trail && Extends(a0, assignments.data) && Permuted(lits0, Lits())
    }

    /** The propagation measure: fewer unassigned variables, or the same queue. */
    ghost predicate Progress(u0: nat, queue0: seq<int>)
      reads this
    {
      Unassigned(vars, assignments) <= u0 && (Unassigned(vars, assignments) < u0 || propQueue == queue0)
    }

    /**
     * One turn of the inner loop of `propagate`: the last clause watching
     * `-lit` is rewatched. A unit literal that is false is a conflict: the
     * queue is cleared, the clauses not yet visited go back on the list of
     * `lit`, and the clause is returned, all of its literals false. Any
     * other unit literal is enqueued with the clause as its reason.
     */
    method VisitLast(lit: int, cs: seq<Clause>, ghost a0: Assignments, ghost trail0: seq<int>,
                     ghost lits0: LitsMap, ghost u0: nat, ghost queue0: seq<int>)
      returns (conflict: Option<Clause>)
      requires cs != [] && Valid() && PendingOk(watches, cs, lit, Lits())
      requires lit != 0 && Value(lit, assignments.data) == Some(true) && QueueInv(assignments, propQueue)
      requires Since(a0, trail0, lits0) && Progress(u0, queue0)
      modifies this, clauses
      ensures Valid() && Since(a0, trail0, lits0)
      ensures clauses == old(clauses) && vars == old(vars) && trailLim == old(trailLim) && status == old(status)
      ensures conflict.None? ==> PendingOk(watches, cs[..|cs| - 1], lit, Lits()) && Progress(u0, queue0)
      ensures conflict.None? ==> Value(lit, assignments.data) == Some(true) && QueueInv(assignments, propQueue)
      ensures conflict.Some? ==> propQueue == [] && conflict.value in clauses && Falsified(conflict.value.lits, assignments.data)
    {
      var c := cs[|cs| - 1];
      var rest := cs[..|cs| - 1];
      assert cs == rest + [c];
      ghost var lits := Lits();
      PendingLast(watches, rest, c, lit, lits);
      LitsOfAt(clauses, c);
      var unit := Visit(c, lit, rest);
      RewatchedPermutes(lits[c], assignments.data, lit);
      PermutedStep(lits0, lits, c, c.lits);
      if unit.Some? {
        if Value(unit.value, assignments.data) == Some(false) {
          RewatchedConflict(lits[c], assignments.data, lit);
        } else {
          UnitOk(lits, vars, c, assignments.data, lit);
        }
      }
      conflict := Settle(unit, c, lit, rest, a0, trail0, lits0, u0, queue0);
    }

    /**
     * What follows the rewatching of `c`: a false unit is a conflict, any
     * other unit is enqueued with `c` as its reason.
     */
    method Settle(unit: Option<int>, c: Clause, lit: int, rest: seq<Clause>, ghost a0: Assignments,
                  ghost trail0: seq<int>, ghost lits0: LitsMap, ghost u0: nat, ghost queue0: seq<int>)
      returns (conflict: Option<Clause>)
      requires Valid() && PendingOk(watches, rest, lit, Lits()) && Since(a0, trail0, lits0) && Progress(u0, queue0)
      requires lit != 0 && Value(lit, assignments.data) == Some(true) && QueueInv(assignments, propQueue)
      requires c in clauses
      requires unit.Some? && Value(unit.value, assignments.data) == Some(false) ==> Falsified(c.lits, assignments.data)
      requires unit.Some? && Value(unit.value, assignments.data) != Some(false) ==> unit.value != 0 && Abs(unit.value) in vars
      modifies this
      ensures Valid() && Since(a0, trail0, lits0)
      ensures clauses == old(clauses) && vars == old(vars) && trailLim == old(trailLim) && status == old(status)
      ensures conflict.None? ==> PendingOk(watches, rest, lit, Lits()) && Progress(u0, queue0)
      ensures conflict.None? ==> Value(lit, assignments.data) == Some(true) && QueueInv(assignments, propQueue)
      ensures conflict.Some? ==> propQueue == [] && conflict.value == c && Falsified(c.lits, assignments.data)
    {
      if unit.Some? {
        if Value(unit.value, assignments.data) == Some(false) {
          OnConflict(lit, rest, c, a0, trail0, lits0);
          return Some(c);
        }
        EnqueueUnit(unit.value, c, lit, rest, a0, trail0, lits0, u0, queue0);
      }
      return None;
    }

    /** A conflict in the inner loop: the queue is cleared and the clauses not yet visited go back on the list of `lit`. */
    method OnConflict(lit: int, rest: seq<Clause>, c: Clause, ghost a0: Assignments, ghost trail0: seq<int>,
                      ghost lits0: LitsMap)
      requires Valid() && PendingOk(watches, rest, lit, Lits()) && Since(a0, trail0, lits0)
      modifies this`propQueue, this`watches
      ensures Valid() && Since(a0, trail0, lits0) && propQueue == []
    {
      ConflictInv(assignments, trail, trailLim, reason, clauses, Lits(), vars, watches, rest, lit);
      propQueue := [];
      watches := watches[lit := watches[lit] + rest];
    }

    /** `self.enqueue(unit, clause)` inside `propagate`, with what the loop needs to know afterwards. */
    method EnqueueUnit(unit: int, c: Clause, lit: int, rest: seq<Clause>, ghost a0: Assignments,
                       ghost trail0: seq<int>, ghost lits0: LitsMap, ghost u0: nat, ghost queue0: seq<int>)
      requires Valid() && PendingOk(watches, rest, lit, Lits()) && Since(a0, trail0, lits0) && Progress(u0, queue0)
      requires lit != 0 && Value(lit, assignments.data) == Some(true) && QueueInv(assignments, propQueue)
      requires unit != 0 && Abs(unit) in vars && c in clauses && Value(unit, assignments.data) != Some(false)
      modifies this
      ensures Valid() && Since(a0, trail0, lits0)
      ensures clauses == old(clauses) && vars == old(vars) && trailLim == old(trailLim) && status == old(status)
      ensures PendingOk(watches, rest, lit, Lits()) && Progress(u0, queue0)
      ensures Value(lit, assignments.data) == Some(true) && QueueInv(assignments, propQueue)
    {
      ghost var before := assignments;
      ghost var lits := Lits();
      if Value(unit, assignments.data).None? {
        StoreCount(vars, assignments, unit);
      }
      var _ := Enqueue(unit, Some(c));
      assert Lits() == lits;
      ExtendsTrans(a0, before.data, assignments.data);
      ExtendsValue(lit, before.data, assignments.data);
    }

    /** The inner loop of `propagate`, over the clauses that watched `-lit`, last first. */
    method ProcessWatchers(lit: int, cs0: seq<Clause>) returns (conflict: Option<Clause>)
      requires Valid() && PendingOk(watches, cs0, lit, Lits())
      requires lit != 0 && Value(lit, assignments.data) == Some(true) && QueueInv(assignments, propQueue)
      modifies this, clauses
      ensures Valid() && Since(old(assignments.data), old(trail), old(Lits()))
      ensures clauses == old(clauses) && vars == old(vars) && trailLim == old(trailLim) && status == old(status)
      ensures conflict.None? ==> QueueInv(assignments, propQueue)
      ensures conflict.None? ==> Progress(old(Unassigned(vars, assignments)), old(propQueue))
      ensures conflict.Some? ==> propQueue == [] && conflict.value in clauses && Falsified(conflict.value.lits, assignments.data)
    {
      var cs := cs0;
      while cs != []
        invariant Valid() && PendingOk(watches, cs, lit, Lits())
        invariant clauses == old(clauses) && vars == old(vars) && trailLim == old(trailLim) && status == old(status)
        invariant Value(lit, assignments.data) == Some(true) && QueueInv(assignments, propQueue)
        invariant Since(old(assignments.data), old(trail), old(Lits()))
        invariant Progress(old(Unassigned(vars, assignments)), old(propQueue))
        decreases |cs|
      {
        conflict := VisitLast(lit, cs, old(assignments.data), old(trail), old(Lits()),
                              old(Unassigned(vars, assignments)), old(propQueue));
        if conflict.Some? {
          return;
        }
        cs := cs[..|cs| - 1];
      }
      return None;
    }

    /**
     * `propagate`: literals are taken from the front of the queue until it
     * is empty or a conflict is found. Either way the queue ends empty, the
     * trail only grows, every clause keeps its literals up to order, and a
     * returned conflict clause is stored with all of its literals false.
     */
    method Propagate() returns (conflict: Option<Clause>)
      requires Ready()
      modifies this, clauses
      ensures Ready() && propQueue == [] && Since(old(assignments.data), old(trail), old(Lits()))
      ensures clauses == old(clauses) && vars == old(vars) && trailLim == old(trailLim) && status == old(status)
      ensures conflict.Some? ==> conflict.value in clauses && Falsified(conflict.value.lits, assignments.data)
    {
      while propQueue != []
        invariant Ready() && Since(old(assignments.data), old(trail), old(Lits()))
        invariant clauses == old(clauses) && vars == old(vars) && trailLim == old(trailLim) && status == old(status)
        decreases Unassigned(vars, assignments), |propQueue|
      {
        conflict := PropagateHead(old(assignments.data), old(trail), old(Lits()));
        if conflict.Some? {
          return;
        }
      }
      return None;
    }

    /** One turn of `propagate`: the literal at the front of the queue is taken off and its watchers visited. */
    method PropagateHead(ghost a0: Assignments, ghost trail0: seq<int>, ghost lits0: LitsMap)
      returns (conflict: Option<Clause>)
      requires Ready() && propQueue != [] && Since(a0, trail0, lits0)
      modifies this, clauses
      ensures Valid() && Since(a0, trail0, lits0)
      ensures clauses == old(clauses) && vars == old(vars) && trailLim == old(trailLim) && status == old(status)
      ensures conflict.None? ==> QueueInv(assignments, propQueue)
      ensures conflict.None? ==>
                (Unassigned(vars, assignments) < old(Unassigned(vars, assignments))
                 || (Unassigned(vars, assignments) == old(Unassigned(vars, assignments)) && |propQueue| < old(|propQueue|)))
      ensures conflict.Some? ==> propQueue == [] && conflict.value in clauses && Falsified(conflict.value.lits, assignments.data)
    {
      ghost var before := assignments;
      ghost var lits := Lits();
      ghost var u := Unassigned(vars, assignments);
      var lit, cs := TakeHead();
      ghost var queue := propQueue;
      conflict := ProcessWatchers(lit, cs);
      assert conflict.None? ==> Progress(u, queue);
      ExtendsTrans(a0, before.data, assignments.data);
      PermutedTrans(lits0, lits, Lits());
    }

    /**
     * The head of the queue is taken off, and the list of clauses watching
     * its negation is taken out of `watches`, to be rebuilt while it is visited.
     */
    method TakeHead() returns (lit: int, cs: seq<Clause>)
      requires Ready() && propQueue != []
      modifies this`propQueue, this`watches
      ensures lit == old(propQueue[0]) && propQueue == old(propQueue[1..]) && cs == old(Watchers(watches, lit))
      ensures Valid() && PendingOk(watches, cs, lit, Lits())
      ensures lit != 0 && Value(lit, assignments.data) == Some(true) && QueueInv(assignments, propQueue)
    {
      QueueHead(assignments, propQueue);
      lit := propQueue[0];
      propQueue := propQueue[1..];
      cs := Watchers(watches, lit);
      StartInv(assignments, trail, trailLim, reason, clauses, Lits(), vars, watches, lit);
      watches := watches[lit := []];
    }

    /**
     * The inner `while True` of `analyze`: trail literals are undone, last
     * first, until one of a seen variable; it is returned with the reason
     * recorded for it before the undo. An empty trail is an IndexError, a
     * variable without a reason entry a KeyError.
     */
    method PopUntilSeen(seen: set<int>) returns (r: Result<(int, Option<Clause>)>)
      requires Valid()
      modifies this
      ensures Valid() && Lits() == old(Lits())
      ensures clauses == old(clauses) && watches == old(watches) && trailLim == old(trailLim)
      ensures propQueue == old(propQueue) && status == old(status) && vars == old(vars)
      ensures trail <= old(trail)
      ensures r.Ok? ==> |trail| < |old(trail)| && r.value.0 == old(trail)[|trail|] && r.value.0 != 0
      ensures r.Ok? ==> Abs(r.value.0) in seen && (r.value.1.Some? ==> r.value.1.value in clauses)
      ensures r.Err? ==> (r.error == IndexError && trail == []) || r.error == KeyError
      ensures LevelsSince(old(levels), levels, old(trail)[|trail|..])
    {
      while true
        invariant Valid() && Lits() == old(Lits())
        invariant clauses == old(clauses) && watches == old(watches) && trailLim == old(trailLim)
        invariant propQueue == old(propQueue) && status == old(status) && vars == old(vars)
        invariant trail <= old(trail)
        invariant LevelsSince(old(levels), levels, old(trail)[|trail|..])
        decreases |trail|
      {
        if trail == [] {
          return Err(IndexError);
        }
        var p := trail[|trail| - 1];
        assert p in trail;
        if Abs(p) !in reason {
          return Err(KeyError);
        }
        var conflict := reason[Abs(p)];
        LevelsUndo(old(levels), levels, old(trail), |trail| - 1);
        UndoOne();
        if Abs(p) in seen {
          return Ok((p, conflict));
        }
      }
    }

    /**
     * `analyze(conflict)`: the reasons are traced back from the conflict
     * through the trail, undoing it, until one literal of the current level
     * is left unresolved, the unique implication point. The learned clause
     * is the negations gathered from lower levels followed by the negated
     * UIP, which is the last literal undone; the backtrack level is the
     * highest level of the gathered literals, or 0. Python exceptions on a
     * state the search does not produce are results here: an empty trail,
     * a missing reason entry, and a decision literal (no reason)
     * reached before the UIP.
     */
    method Analyze(conflict0: Clause) returns (r: Result<(Clause, int)>, ghost learned: seq<int>, ghost uip: int,
                                               ghost read: seq<int>)
      requires Valid() && conflict0 in clauses
      modifies this
      ensures Valid() && Lits() == old(Lits())
      ensures clauses == old(clauses) && watches == old(watches) && trailLim == old(trailLim)
      ensures propQueue == old(propQueue) && status == old(status) && vars == old(vars)
      ensures trail <= old(trail)
      ensures r.Ok? ==> fresh(r.value.0) && r.value.0.learned && r.value.0.lits == Dedup(learned)
      ensures r.Ok? ==> |trail| < |old(trail)| && uip == old(trail)[|trail|] && learned != [] && learned[|learned| - 1] == -uip
      ensures r.Ok? ==> |learned| == |read| + 1 && 0 !in learned && r.value.1 == MaxLevel(read)
      ensures r.Ok? ==> forall k :: 0 <= k < |read| ==> read[k] != |trailLim|
      ensures r.Ok? ==> ReadSince(learned, read, old(levels), old(trail)[|trail|..])
      ensures LevelsSince(old(levels), levels, old(trail)[|trail|..])
      ensures r.Err? ==> r.error == IndexError || r.error == KeyError || r.error == AttributeError
    {
      var error, t, p;
      error, t, read, p := TraceConflict(conflict0);
      if error.Some? {
        return Err(error.value), [], 0, [];
      }
      var learnedLits := t.learned + [-p.value];
      learned := learnedLits;
      assert forall k :: 0 <= k < |read| ==> learned[k] == t.learned[k];
      uip := p.value;
      ghost var lits := Lits();
      var c := new Clause(learnedLits, true);
      assert Lits() == lits;
      r := Ok((c, t.btlevel));
    }

    /**
     * The loop of `analyze`: reasons are traced and the trail undone until
     * the counter of literals left on the current level drops to 0; `p` is
     * then the UIP. An exception ends the loop with `error` set.
     */
    method TraceConflict(conflict0: Clause) returns (error: Option<Error>, t: Tally, ghost read: seq<int>, p: Option<int>)
      requires Valid() && conflict0 in clauses
      modifies this
      ensures Valid() && Lits() == old(Lits())
      ensures clauses == old(clauses) && watches == old(watches) && trailLim == old(trailLim)
      ensures propQueue == old(propQueue) && status == old(status) && vars == old(vars)
      ensures trail <= old(trail) && TallyOk(t, read, |trailLim|)
      ensures error.None? ==> p.Some? && |trail| < |old(trail)| && p.value == old(trail)[|trail|] && p.value != 0
      ensures LevelsSince(old(levels), levels, old(trail)[|trail|..])
      ensures ReadSince(t.learned, read, old(levels), old(trail)[|trail|..])
      ensures error.Some? ==> error.value == IndexError || error.value == KeyError || error.value == AttributeError
    {
      p := None;
      var conflict: Option<Clause> := Some(conflict0);
      t := Tally({}, 0, [], 0);
      read := [];
      error := None;
      while error.None?
        invariant Valid() && Lits() == old(Lits())
        invariant clauses == old(clauses) && watches == old(watches) && trailLim == old(trailLim)
        invariant propQueue == old(propQueue) && status == old(status) && vars == old(vars)
        invariant trail <= old(trail) && TallyOk(t, read, |trailLim|)
        invariant conflict.Some? ==> conflict.value in clauses
        invariant error.None? && p.Some? ==> |trail| < |old(trail)| && p.value == old(trail)[|trail|] && p.value != 0
        invariant LevelsSince(old(levels), levels, old(trail)[|trail|..])
        invariant ReadSince(t.learned, read, old(levels), old(trail)[|trail|..])
        invariant error.Some? ==> error.value == IndexError || error.value == KeyError || error.value == AttributeError
        decreases if error.None? then 1 else 0, |trail| + (if p.None? then 1 else 0)
      {
        if conflict.None? {
          error := Some(AttributeError);
        } else {
          StoredNonZero(conflict.value);
          var reasonLits := conflict.value.CalculateReason(p);
          var popped;
          t, read, popped := AnalyzeRound(reasonLits, t, read, old(trail), old(levels));
          if popped.Err? {
            error := Some(popped.error);
          } else {
            p := Some(popped.value.0);
            conflict := popped.value.1;
            t := t.(counter := t.counter - 1);
            if t.counter == 0 {
              break;
            }
          }
        }
      }
    }

    /**
     * One round of `analyze`: trace the literals of the reason, then pop
     * the trail back to a variable seen. `trail0` and `levels0` are the
     * trail and the levels when the analysis started.
     */
    method AnalyzeRound(reasonLits: seq<int>, t0: Tally, ghost read0: seq<int>, ghost trail0: seq<int>,
                        ghost levels0: map<int, int>)
      returns (t: Tally, ghost read: seq<int>, popped: Result<(int, Option<Clause>)>)
      requires Valid() && 0 !in reasonLits && TallyOk(t0, read0, |trailLim|) && trail <= trail0
      requires LevelsSince(levels0, levels, trail0[|trail|..])
      requires ReadSince(t0.learned, read0, levels0, trail0[|trail|..])
      modifies this
      ensures Valid() && Lits() == old(Lits())
      ensures clauses == old(clauses) && watches == old(watches) && trailLim == old(trailLim)
      ensures propQueue == old(propQueue) && status == old(status) && vars == old(vars)
      ensures trail <= old(trail) && TallyOk(t, read, |trailLim|)
      ensures popped.Ok? ==> |trail| < |old(trail)| && popped.value.0 == old(trail)[|trail|] && popped.value.0 != 0
      ensures popped.Ok? && popped.value.1.Some? ==> popped.value.1.value in clauses
      ensures popped.Err? ==> popped.error == IndexError || popped.error == KeyError
      ensures LevelsSince(levels0, levels, trail0[|trail|..])
      ensures ReadSince(t.learned, read, levels0, trail0[|trail|..])
    {
      t, read := TraceReason(levels, |trailLim|, reasonLits, t0, read0);
      ReadSinceTrace(t0.learned, read0, t.learned, read, levels0, levels, trail0[|trail|..]);
      ghost var (trail1, levels1) := (trail, levels);
      popped := PopUntilSeen(t.seen);
      UndoneGrow(trail0, trail1, trail);
      LevelsSinceTrans(levels0, levels1, levels, trail0[|trail1|..], trail1[|trail|..], trail0[|trail|..]);
      ReadSinceGrow(t.learned, read, levels0, trail0[|trail1|..], trail0[|trail|..]);
    }

    /**
     * `record(learned_clause)`: the clause is reordered as `Arranged` says,
     * added with `add_clause`, and its first literal enqueued with the
     * clause as its reason.
     */
    method Record(c: Clause)
      requires Ready() && c !in clauses && NoDup(c.lits) && 0 !in c.lits && c.lits != []
      modifies this, c
      ensures c.lits == Arranged(old(c.lits), old(levels))
      ensures Ready() && Value(c.lits[0], assignments.data).Some?
      ensures clauses == if |c.lits| >= 2 then old(clauses) + [c] else old(clauses)
      ensures trailLim == old(trailLim) && status == old(status)
      ensures old(trail) <= trail && Extends(old(assignments.data), assignments.data)
    {
      ArrangedPermutes(c.lits, levels);
      Arrange(c, levels);
      AddClause(c);
      ghost var before := assignments;
      var _ := Enqueue(c.lits[0], Some(c));
      ExtendsTrans(old(assignments.data), before.data, assignments.data);
    }

    /**
     * `search()`: propagate; with no conflict, return a copy of the table
     * once every variable is assigned, or else assume the literal `decide`
     * (the branching policy) picks. On a conflict at the level the search
     * started from, the problem is unsatisfiable; on a deeper one, analyze
     * it, backtrack to the higher of its backtrack level and that starting
     * level, and record the learned clause. A policy that picks literal 0
     * or an assigned literal fails its assertion. `fuel` bounds the number
     * of rounds.
     */
    method Search(decide: State -> int, fuel: nat) returns (r: SearchResult, ghost conflict: Option<Clause>)
      requires Ready()
      modifies this, clauses
      ensures Valid()
      ensures r.Model? ==> r.solution == assignments && forall v :: v in r.solution.data ==> r.solution.data[v].Some?
      ensures r.Unsatisfiable? ==>
                |trailLim| == old(|trailLim|) && conflict.Some?
                && conflict.value in clauses && Falsified(conflict.value.lits, assignments.data)
      ensures r.Failed? ==> r.error in {AssertionError, IndexError, KeyError, AttributeError}
    {
      var rootLevel := |trailLim|;
      var n := fuel;
      while n > 0
        invariant Ready() && |trailLim| >= rootLevel == old(|trailLim|)
        invariant fresh((set c | c in clauses) - (set c | c in old(clauses)))
        decreases n
      {
        n := n - 1;
        var found := Propagate();
        if found.None? {
          if NumberAssigned() == NumberVariables() {
            AllAssigned(assignments);
            return Model(assignments), None;
          }
          var p := decide(assignments);
          if p == 0 || Value(p, assignments.data).Some? {
            return Failed(AssertionError), None;
          }
          var _ := Assume(p);
        } else {
          if rootLevel == |trailLim| {
            return Unsatisfiable, found;
          }
          var error := Learn(found.value, rootLevel);
          if error.Some? {
            return Failed(error.value), None;
          }
        }
      }
      return OutOfFuel, None;
    }

    /**
     * The conflict branch of `search` below its starting level: analyze,
     * backtrack to the higher of the backtrack level and `rootLevel`, and
     * record the learned clause; an exception of `analyze` is returned.
     */
    method Learn(conflict: Clause, rootLevel: int) returns (error: Option<Error>)
      requires Valid() && propQueue == [] && conflict in clauses && 0 <= rootLevel < |trailLim|
      modifies this, clauses
      ensures Ready() && |trailLim| >= rootLevel
      ensures fresh((set c | c in clauses) - (set c | c in old(clauses)))
      ensures error.Some? ==> error.value in {IndexError, KeyError, AttributeError}
    {
      ghost var before := clauses;
      var analyzed, learned, uip, read := Analyze(conflict);
      if analyzed.Err? {
        return Some(analyzed.error);
      }
      var (c, bt) := analyzed.value;
      Backjump(c, if bt > rootLevel then bt else rootLevel, learned);
      AppendedNew(before, c);
      return None;
    }

    /** The tail of the conflict branch: backtrack to `level`, then record the learned clause. */
    method Backjump(c: Clause, level: int, ghost learned: seq<int>)
      requires Valid() && propQueue == [] && c !in clauses && c.lits == Dedup(learned) && learned != [] && 0 !in learned
      requires level >= 0
      modifies this, c
      ensures Ready() && |trailLim| >= if |old(trailLim)| <= level then |old(trailLim)| else level
      ensures clauses == old(clauses) || clauses == old(clauses) + [c]
    {
      CancelUntil(level);
      assert learned[0] in c.lits;
      Record(c);
    }

    /** A stored clause has no literal 0. */
    lemma StoredNonZero(c: Clause)
      requires Valid() && c in clauses
      ensures 0 !in c.lits && forall x :: x in c.lits ==> x != 0
    {
      LitsOfAt(clauses, c);
      assert ClauseOk(Lits()[c], vars);
    }

    /** The variables of the stored clauses. */
    function ClauseVars(): (r: set<int>)
      reads this, clauses
      ensures forall i, k :: 0 <= i < |clauses| && 0 <= k < |clauses[i].lits| ==> Abs(clauses[i].lits[k]) in r
      ensures forall v :: v in r ==> v >= 0
    {
      set i, k | 0 <= i < |clauses| && 0 <= k < |clauses[i].lits| :: Abs(clauses[i].lits[k])
    }

    /**
     * `_setup_assignments`: every variable of a stored clause that the table
     * does not hold yet is added as unassigned; nothing else changes.
     */
    method SetupAssignments()
      requires Valid()
      modifies this
      ensures Valid() && forall v :: v in assignments.data <==> v in old(assignments.data) || v in ClauseVars()
      ensures forall v :: Status(assignments.data, v) == Status(old(assignments.data), v)
      ensures clauses == old(clauses) && watches == old(watches) && trail == old(trail) && trailLim == old(trailLim)
      ensures propQueue == old(propQueue) && levels == old(levels) && reason == old(reason)
      ensures status == old(status) && vars == old(vars)
    {
      var t := AddUnassigned(assignments, ClauseVars());
      SameStatusInv(assignments, t, trail, trailLim);
      assignments := t;
    }
  }

  /** Appending a clause adds at most that clause to the stored ones. */
  lemma AppendedNew(before: seq<Clause>, c: Clause)
    ensures (set x | x in before) - (set x | x in before) == {}
    ensures (set x | x in before + [c]) - (set x | x in before) <= {c}
  {
  }

  /** Some rule has no literals. */
  predicate HasEmpty(rules: seq<seq<int>>)
  {
    exists k :: 0 <= k < |rules| && rules[k] == []
  }

  /**
   * `from_rules(rules)`: a new solver with each rule's literals added in
   * order by `add_clause`, then `_setup_assignments`. The status is False
   * exactly when some rule is empty, no decision has been made, and every
   * variable of a stored clause is a key of the table.
   */
  method FromRules(rules: seq<seq<int>>) returns (s: MiniSATSolver)
    requires forall k :: 0 <= k < |rules| ==> 0 !in rules[k]
    ensures fresh(s) && s.Ready() && s.trailLim == []
    ensures s.status == if HasEmpty(rules) then Some(false) else None
    ensures forall i, k :: 0 <= i < |s.clauses| && 0 <= k < |s.clauses[i].lits| ==>
              Abs(s.clauses[i].lits[k]) in s.assignments.data
  {
    s := new MiniSATSolver();
    for i := 0 to |rules|
      invariant fresh(s) && s.Ready() && s.trailLim == []
      invariant s.status == if HasEmpty(rules[..i]) then Some(false) else None
      invariant fresh((set c | c in s.clauses))
    {
      assert rules[..i + 1] == rules[..i] + [rules[i]];
      assert HasEmpty(rules[..i + 1]) <==> HasEmpty(rules[..i]) || rules[i] == [] by {
        if rules[i] == [] {
          assert rules[..i + 1][i] == [];
        }
        if HasEmpty(rules[..i + 1]) && rules[i] != [] {
          var k :| 0 <= k < i + 1 && rules[..i + 1][k] == [];
          assert rules[..i][k] == [];
        }
      }
      var c := s.AddClauseLits(rules[i]);
    }
    assert rules[..|rules|] == rules;
    s.SetupAssignments();
  }

  /** A table over positive variables. */
  predicate PositiveKeys(m: map<int, Option<bool>>)
  {
    forall v :: v in m ==> v > 0
  }

  /** The table shares a literal with every rule, as `validate` checks. */
  predicate SatisfiesAll(rules: seq<seq<int>>, m: map<int, Option<bool>>)
  {
    forall k :: 0 <= k < |rules| ==> SharesLiteral(rules[k], m)
  }

  /** No table over positive variables satisfies every rule. */
  ghost predicate Unsatisfiable(rules: seq<seq<int>>)
  {
    forall m :: PositiveKeys(m) ==> !SatisfiesAll(rules, m)
  }

  /** Some rule is the literal `t`, possibly repeated: every table satisfying the rules makes `t` true. */
  predicate Forced(rules: seq<seq<int>>, t: int)
  {
    exists k :: 0 <= k < |rules| && rules[k] != [] && forall j :: 0 <= j < |rules[k]| ==> rules[k][j] == t
  }

  lemma ForcedTrue(rules: seq<seq<int>>, t: int, m: map<int, Option<bool>>)
    requires Forced(rules, t) && SatisfiesAll(rules, m)
    ensures t in SolutionLiterals(m)
  {
    var k :| 0 <= k < |rules| && rules[k] != [] && forall j :: 0 <= j < |rules[k]| ==> rules[k][j] == t;
    assert SharesLiteral(rules[k], m);
  }

  /** A literal and its negation are never both literals of a table over positive variables. */
  lemma OppositeLiterals(m: map<int, Option<bool>>, x: int)
    requires x != 0 && PositiveKeys(m)
    ensures !(x in SolutionLiterals(m) && -x in SolutionLiterals(m))
  {
    SolutionLiteralMeaning(m, x);
    SolutionLiteralMeaning(m, -x);
  }

  /** Rules forcing a literal and its negation have no solution. */
  lemma ClashUnsatisfiable(rules: seq<seq<int>>, x: int)
    requires x != 0 && Forced(rules, x) && Forced(rules, -x)
    ensures Unsatisfiable(rules)
  {
    forall m | PositiveKeys(m)
      ensures !SatisfiesAll(rules, m)
    {
      if SatisfiesAll(rules, m) {
        ForcedTrue(rules, x, m);
        ForcedTrue(rules, -x, m);
        OppositeLiterals(m, x);
      }
    }
  }

  /** Rules with an empty rule have no solution. */
  lemma EmptyUnsatisfiable(rules: seq<seq<int>>)
    requires HasEmpty(rules)
    ensures Unsatisfiable(rules)
  {
    var k :| 0 <= k < |rules| && rules[k] == [];
    forall m | PositiveKeys(m)
      ensures !SatisfiesAll(rules, m)
    {
      assert !SharesLiteral(rules[k], m);
    }
  }

  /** More rules keep what fewer rules force, and keep them unsatisfiable. */
  lemma RulesGrow(rules: seq<seq<int>>, i: nat)
    requires i < |rules|
    ensures forall t :: Forced(rules[..i], t) ==> Forced(rules[..i + 1], t)
    ensures Unsatisfiable(rules[..i]) ==> Unsatisfiable(rules[..i + 1])
  {
    forall t | Forced(rules[..i], t)
      ensures Forced(rules[..i + 1], t)
    {
      var k :| 0 <= k < i && rules[..i][k] != [] && forall j :: 0 <= j < |rules[..i][k]| ==> rules[..i][k][j] == t;
      assert rules[..i + 1][k] == rules[..i][k];
    }
    if Unsatisfiable(rules[..i]) {
      forall m | PositiveKeys(m)
        ensures !SatisfiesAll(rules[..i + 1], m)
      {
        if SatisfiesAll(rules[..i + 1], m) {
          assert SatisfiesAll(rules[..i], m) by {
            forall k | 0 <= k < i ensures SharesLiteral(rules[..i][k], m) {
              assert rules[..i][k] == rules[..i + 1][k];
            }
          }
        }
      }
    }
  }

  /** A rule whose literals are all one literal forces it. */
  lemma UnitRuleForced(rules: seq<seq<int>>, i: nat, x: int)
    requires i < |rules| && Dedup(rules[i]) == [x]
    ensures Forced(rules[..i + 1], x)
  {
    assert rules[i][0] in Dedup(rules[i]);
    assert rules[..i + 1][i] == rules[i];
    forall j | 0 <= j < |rules[i]| ensures rules[i][j] == x {
      assert rules[i][j] in Dedup(rules[i]);
    }
  }

  /** The table's assigned variables are those of the trail. */
  ghost predicate FromTrail(data: map<int, Option<bool>>, trail: seq<int>)
  {
    forall v :: Status(data, v).Some? ==> exists j :: 0 <= j < |trail| && Abs(trail[j]) == v
  }

  /**
   * `from_rules` with `AddClauseChecked` in place of `add_clause`: a status
   * of False now means the rules have no solution, and an empty rule still
   * sets it.
   */
  method FromRulesChecked(rules: seq<seq<int>>) returns (s: MiniSATSolver)
    requires forall k :: 0 <= k < |rules| ==> 0 !in rules[k]
    ensures fresh(s) && s.Ready() && s.trailLim == []
    ensures HasEmpty(rules) ==> s.status == Some(false)
    ensures s.status == Some(false) ==> Unsatisfiable(rules)
  {
    s := new MiniSATSolver();
    for i := 0 to |rules|
      invariant fresh(s) && s.Ready() && s.trailLim == []
      invariant fresh((set c | c in s.clauses))
      invariant HasEmpty(rules[..i]) ==> s.status == Some(false)
      invariant s.status == Some(false) ==> Unsatisfiable(rules[..i])
      invariant forall j :: 0 <= j < |s.trail| ==> Forced(rules[..i], s.trail[j])
      invariant FromTrail(s.assignments.data, s.trail)
    {
      CheckedRound(s, rules, i);
    }
    assert rules[..|rules|] == rules;
    s.SetupAssignments();
  }

  /** One rule of `FromRulesChecked`. */
  method CheckedRound(s: MiniSATSolver, rules: seq<seq<int>>, i: nat)
    requires i < |rules| && 0 !in rules[i]
    requires s.Ready() && s.trailLim == []
    requires HasEmpty(rules[..i]) ==> s.status == Some(false)
    requires s.status == Some(false) ==> Unsatisfiable(rules[..i])
    requires forall j :: 0 <= j < |s.trail| ==> Forced(rules[..i], s.trail[j])
    requires FromTrail(s.assignments.data, s.trail)
    modifies s
    ensures s.Ready() && s.trailLim == []
    ensures fresh((set c | c in s.clauses) - (set c | c in old(s.clauses)))
    ensures HasEmpty(rules[..i + 1]) ==> s.status == Some(false)
    ensures s.status == Some(false) ==> Unsatisfiable(rules[..i + 1])
    ensures forall j :: 0 <= j < |s.trail| ==> Forced(rules[..i + 1], s.trail[j])
    ensures FromTrail(s.assignments.data, s.trail)
  {
    RulesGrow(rules, i);
    HasEmptySnoc(rules, i);
    ghost var data := s.assignments;
    ghost var trail := s.trail;
    var c := s.AddClauseLitsChecked(rules[i]);
    if |c.lits| == 1 {
      var x := c.lits[0];
      UnitRuleForced(rules, i, x);
      if Value(x, data.data) == Some(false) {
        ClashWithTrail(rules[..i + 1], data.data, trail, x);
      } else if Value(x, data.data).None? {
        FromTrailAssign(data, trail, x);
      }
    }
    if HasEmpty(rules[..i + 1]) && s.status == Some(false) {
      EmptyUnsatisfiable(rules[..i + 1]);
    }
  }

  /** A unit rule false under a table built from forced literals clashes with one of them. */
  lemma ClashWithTrail(rules: seq<seq<int>>, data: map<int, Option<bool>>, trail: seq<int>, x: int)
    requires x != 0 && Forced(rules, x) && Value(x, data) == Some(false)
    requires FromTrail(data, trail)
    requires forall j :: 0 <= j < |trail| ==> Value(trail[j], data) == Some(true)
    requires forall j :: 0 <= j < |trail| ==> Forced(rules, trail[j])
    ensures Unsatisfiable(rules)
  {
    var j :| 0 <= j < |trail| && Abs(trail[j]) == Abs(x);
    assert Value(trail[j], data) == Some(true);
    assert trail[j] == -x;
    ClashUnsatisfiable(rules, x);
  }

  /** Assigning the variable of a new trail literal keeps the table's variables those of the trail. */
  lemma FromTrailAssign(data: State, trail: seq<int>, x: int)
    requires FromTrail(data.data, trail)
    ensures FromTrail(Assigned(data, Abs(x), Some(x > 0)).data, trail + [x])
  {
    var trail' := trail + [x];
    var data' := Assigned(data, Abs(x), Some(x > 0)).data;
    forall v | Status(data', v).Some?
      ensures exists j :: 0 <= j < |trail'| && Abs(trail'[j]) == v
    {
      SetItemThenGet(data, Abs(x), Some(x > 0), v);
      if v == Abs(x) {
        assert trail'[|trail|] == x;
      } else {
        var j :| 0 <= j < |trail| && Abs(trail[j]) == v;
        assert trail'[j] == trail[j];
      }
    }
  }

  lemma HasEmptySnoc(rules: seq<seq<int>>, i: nat)
    requires i < |rules|
    ensures HasEmpty(rules[..i + 1]) <==> HasEmpty(rules[..i]) || rules[i] == []
  {
    if rules[i] == [] {
      assert rules[..i + 1][i] == [];
    }
    if HasEmpty(rules[..i]) {
      var k :| 0 <= k < i && rules[..i][k] == [];
      assert rules[..i + 1][k] == [];
    }
    if HasEmpty(rules[..i + 1]) && rules[i] != [] {
      var k :| 0 <= k < i + 1 && rules[..i + 1][k] == [];
      assert rules[..i][k] == [];
    }
  }

  /** The rules `x` and `-x` have no solution, and neither rule is empty. */
  lemma ClashingUnits(x: int)
    requires x != 0
    ensures !HasEmpty([[x], [-x]]) && Unsatisfiable([[x], [-x]])
  {
    var rules := [[x], [-x]];
    assert rules[0] != [] && rules[1] != [];
    assert Forced(rules, x) by {
      assert forall j :: 0 <= j < |rules[0]| ==> rules[0][j] == x;
    }
    assert Forced(rules, -x) by {
      assert forall j :: 0 <= j < |rules[1]| ==> rules[1][j] == -x;
    }
    ClashUnsatisfiable(rules, x);
  }

  /**
   * `from_rules` as written on the rules `x` and `-x`: the second unit is
   * enqueued against the first, `enqueue` answers False, and nothing
   * records it, so the status stays undecided though the rules have no
   * solution.
   */
  method FromRulesMissesClash(x: int) returns (s: MiniSATSolver)
    requires x != 0
    ensures s.status == None && Unsatisfiable([[x], [-x]])
  {
    ClashingUnits(x);
    s := FromRules([[x], [-x]]);
  }

  /** Adding the missing keys of `todo` as unassigned, one key at a time. */
  method AddUnassigned(t0: State, todo0: set<int>) returns (t: State)
    requires AssignmentSetModel.Valid(t0) && forall v :: v in todo0 ==> v >= 0
    ensures AssignmentSetModel.Valid(t) && forall v :: v in t.data <==> v in t0.data || v in todo0
    ensures forall v :: Status(t.data, v) == Status(t0.data, v)
  {
    t := t0;
    var todo := todo0;
    while todo != {}
      invariant todo <= todo0 && AssignmentSetModel.Valid(t)
      invariant forall v :: v in t.data <==> v in t0.data || (v in todo0 && v !in todo)
      invariant forall v :: Status(t.data, v) == Status(t0.data, v)
      decreases |todo|
    {
      NonEmptyHasElement(todo);
      var v :| v in todo;
      if v !in t.data {
        AddUnassignedStep(t, v);
        t := Assigned(t, v, None);
      }
      todo := todo - {v};
    }
  }

  /** `assignments[v] = None` for a missing key adds the key and changes no status. */
  lemma AddUnassignedStep(t: State, v: int)
    requires AssignmentSetModel.Valid(t) && v >= 0 && v !in t.data
    ensures AssignmentSetModel.Valid(Assigned(t, v, None))
    ensures forall x :: x in Assigned(t, v, None).data <==> x in t.data || x == v
    ensures forall x :: Status(Assigned(t, v, None).data, x) == Status(t.data, x)
  {
    SetItemValid(t, v, None);
  }

  /** A table with the same statuses keeps the trail invariant. */
  lemma SameStatusInv(t: State, t': State, trail: seq<int>, trailLim: seq<int>)
    requires TrailInv(t, trail, trailLim) && AssignmentSetModel.Valid(t')
    requires forall v :: Status(t'.data, v) == Status(t.data, v)
    ensures TrailInv(t', trail, trailLim)
  {
    ExtendsTrue(trail, t.data, t'.data);
  }

  /** `validate(solution_map)`. */
  method Validate(clauses: seq<Clause>, solution: map<int, Option<bool>>) returns (ok: bool)
    ensures ok <==> forall i :: 0 <= i < |clauses| ==> SharesLiteral(clauses[i].lits, solution)
  {
    var solutionLiterals := SolutionLiterals(solution);
    var i := 0;
    while i < |clauses|
      invariant 0 <= i <= |clauses|
      invariant forall j :: 0 <= j < i ==> SharesLiteral(clauses[j].lits, solution)
    {
      var lits := clauses[i].lits;
      var common := (set k | 0 <= k < |lits| :: lits[k]) * solutionLiterals;
      if common == {} {
        assert !SharesLiteral(lits, solution) by {
          forall k | 0 <= k < |lits| ensures lits[k] !in solutionLiterals {
            assert lits[k] !in common;
          }
        }
        return false;
      }
      NonEmptyHasElement(common);
      var x :| x in common;
      var k :| 0 <= k < |lits| && lits[k] == x;
      i := i + 1;
    }
    return true;
  }
}
