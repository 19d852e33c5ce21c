/**
 * The bookkeeping of the CDCL engine in simplesat/sat/minisat.py, stated on
 * values: the clause database as a map from clause objects to their
 * literals, the watch lists, and the trail of true literals. Each step of
 * the engine is proved here to keep these invariants.
 */
module WatchState {
  import opened Wrappers
  import opened SatUtils
  import opened SeqUtil
  import opened Clauses

  /** The literals of every stored clause. */
  type LitsMap = map<Clause, seq<int>>

  /** A stored clause: two or more distinct non-zero literals over known variables. */
  predicate ClauseOk(l: seq<int>, vars: set<int>)
  {
    |l| >= 2 && NoDup(l) && 0 !in l && forall k :: 0 <= k < |l| ==> Abs(l[k]) in vars
  }

  predicate DbOk(lits: LitsMap, vars: set<int>)
  {
    forall c :: c in lits ==> ClauseOk(lits[c], vars)
  }

  /** `watches[x]`: stored clauses, each once, that watch `-x` in one of their first two places. */
  predicate WatchList(ws: seq<Clause>, x: int, lits: LitsMap)
  {
    NoDup(ws) && forall k :: 0 <= k < |ws| ==> ws[k] in lits && |lits[ws[k]]| >= 2 && -x in lits[ws[k]][..2]
  }

  predicate WatchOk(watches: map<int, seq<Clause>>, lits: LitsMap)
  {
    forall x :: x in watches ==> WatchList(watches[x], x, lits)
  }

  /**
   * Half-way through the clauses watching `lit`: `pending` still watch
   * `-lit`, and none of them is back in the rebuilt list `watches[lit]`.
   */
  predicate PendingOk(watches: map<int, seq<Clause>>, pending: seq<Clause>, lit: int, lits: LitsMap)
  {
    WatchOk(watches, lits) && lit in watches && WatchList(pending, lit, lits)
    && forall k :: 0 <= k < |pending| ==> pending[k] !in watches[lit]
  }

  /** `watches[x]` of a `defaultdict(list)`, read without inserting. */
  function Watchers(watches: map<int, seq<Clause>>, x: int): seq<Clause>
  {
    if x in watches then watches[x] else []
  }

  /** Taking the list of `lit` out to work through it. */
  lemma StartPending(watches: map<int, seq<Clause>>, lits: LitsMap, lit: int)
    requires WatchOk(watches, lits)
    ensures PendingOk(watches[lit := []], Watchers(watches, lit), lit, lits)
  {
  }

  /** A permutation of a stored clause's literals is a stored clause over the same variables. */
  lemma PermutedOk(l: seq<int>, l': seq<int>, vars: set<int>)
    requires ClauseOk(l, vars) && multiset(l') == multiset(l) && NoDup(l')
    ensures ClauseOk(l', vars)
  {
    assert |l'| == |multiset(l')| == |l|;
    forall k | 0 <= k < |l'| ensures Abs(l'[k]) in vars {
      assert l'[k] in multiset(l);
    }
    assert 0 !in multiset(l);
  }

  lemma DbStep(lits: LitsMap, vars: set<int>, c: Clause, l': seq<int>)
    requires DbOk(lits, vars) && ClauseOk(l', vars)
    ensures DbOk(lits[c := l'], vars)
  {
  }

  /** Lists other than the one of the new second watch keep their shape after the clause is rearranged. */
  lemma WatchStepLists(watches: map<int, seq<Clause>>, pending: seq<Clause>, c: Clause, lit: int,
                       lits: LitsMap, l': seq<int>)
    requires PendingOk(watches, pending + [c], lit, lits)
    requires c in lits && |lits[c]| >= 2 && NoDup(lits[c]) && |l'| >= 2 && l'[0] == Other(lits[c], lit)
    ensures WatchOk(watches, lits[c := l'])
  {
    var lits' := lits[c := l'];
    assert (pending + [c])[|pending|] == c;
    forall x | x in watches ensures WatchList(watches[x], x, lits') {
      var ws := watches[x];
      forall k | 0 <= k < |ws| ensures ws[k] in lits' && |lits'[ws[k]]| >= 2 && -x in lits'[ws[k]][..2] {
        if ws[k] == c {
          assert x != lit;
          assert -x in lits[c][..2];
          assert -x == Other(lits[c], lit);
        }
      }
    }
  }

  /** A literal past the first two places of a duplicate-free clause is not one of them. */
  lemma TailNotWatched(s: seq<int>, y: int)
    requires |s| >= 2 && NoDup(s) && y in s[2..]
    ensures y !in s[..2]
  {
    var j :| 0 <= j < |s[2..]| && s[2..][j] == y;
    assert s[j + 2] == y;
    assert s[0] != y && s[1] != y;
  }

  /** The new second watch's list can take the clause: it is not there yet. */
  lemma WatchStepFresh(watches: map<int, seq<Clause>>, pending: seq<Clause>, c: Clause, lit: int,
                       lits: LitsMap, l': seq<int>)
    requires PendingOk(watches, pending + [c], lit, lits)
    requires c in lits && |lits[c]| >= 2 && NoDup(lits[c]) && |l'| == |lits[c]| && (l'[1] == -lit || l'[1] in lits[c][2..])
    ensures c !in Watchers(watches, -l'[1])
  {
    var s := pending + [c];
    assert s[|pending|] == c;
    var x := -l'[1];
    if l'[1] != -lit {
      TailNotWatched(lits[c], l'[1]);
      assert -x !in lits[c][..2];
    }
  }

  /** What the rest of the pending list keeps once its last clause is taken off. */
  lemma PendingDrop(watches: map<int, seq<Clause>>, pending: seq<Clause>, c: Clause, lit: int, lits: LitsMap)
    requires PendingOk(watches, pending + [c], lit, lits)
    ensures WatchList(pending, lit, lits)
    ensures forall k :: 0 <= k < |pending| ==> pending[k] != c && pending[k] !in watches[lit]
  {
    var s := pending + [c];
    assert s[|pending|] == c;
    assert forall k :: 0 <= k < |pending| ==> s[k] == pending[k];
  }

  /** Appending a clause that watches `-x` and is not yet listed under `x`. */
  lemma AddOneWatch(watches: map<int, seq<Clause>>, lits: LitsMap, c: Clause, x: int)
    requires WatchOk(watches, lits) && c in lits && |lits[c]| >= 2 && -x in lits[c][..2]
    requires c !in Watchers(watches, x)
    ensures WatchOk(watches[x := Watchers(watches, x) + [c]], lits)
  {
    var base := Watchers(watches, x);
    var ws := base + [c];
    assert forall k :: 0 <= k < |base| ==> ws[k] == base[k];
    assert ws[|base|] == c;
  }

  /** The pending clauses other than `c` are unaffected by `c`'s new literals. */
  lemma PendingKeep(pending: seq<Clause>, c: Clause, lit: int, lits: LitsMap, lits': LitsMap, l': seq<int>)
    requires WatchList(pending, lit, lits) && (forall k :: 0 <= k < |pending| ==> pending[k] != c)
    requires lits' == lits[c := l']
    ensures WatchList(pending, lit, lits')
  {
  }

  /** The pending clauses are still absent from the rebuilt list after `c` joins some list. */
  lemma PendingAbsent(watches: map<int, seq<Clause>>, watches': map<int, seq<Clause>>, pending: seq<Clause>,
                      c: Clause, lit: int, x: int)
    requires lit in watches && forall k :: 0 <= k < |pending| ==> pending[k] != c && pending[k] !in watches[lit]
    requires watches' == watches[x := Watchers(watches, x) + [c]]
    ensures lit in watches' && forall k :: 0 <= k < |pending| ==> pending[k] !in watches'[lit]
  {
  }

  /**
   * One clause taken off the pending list and rearranged by `rewatch`,
   * then appended to the list of its new second watch, keeps the watch
   * invariant.
   */
  lemma WatchStep(watches: map<int, seq<Clause>>, pending: seq<Clause>, c: Clause, lit: int,
                  lits: LitsMap, l': seq<int>, watches': map<int, seq<Clause>>, lits': LitsMap)
    requires PendingOk(watches, pending + [c], lit, lits)
    requires c in lits && |lits[c]| >= 2 && NoDup(lits[c]) && |l'| == |lits[c]|
    requires l'[0] == Other(lits[c], lit) && (l'[1] == -lit || l'[1] in lits[c][2..])
    requires lits' == lits[c := l'] && watches' == watches[-l'[1] := Watchers(watches, -l'[1]) + [c]]
    ensures PendingOk(watches', pending, lit, lits')
  {
    WatchStepLists(watches, pending, c, lit, lits, l');
    WatchStepFresh(watches, pending, c, lit, lits, l');
    PendingDrop(watches, pending, c, lit, lits);
    var x := -l'[1];
    assert WatchOk(watches, lits');
    assert c in lits' && |lits'[c]| >= 2;
    assert -x in lits'[c][..2];
    assert c !in Watchers(watches, x);
    AddOneWatch(watches, lits', c, x);
    PendingKeep(pending, c, lit, lits, lits', l');
    PendingAbsent(watches, watches', pending, c, lit, -l'[1]);
  }

  /** On a conflict the clauses not yet worked through go back on the list of `lit`. */
  lemma ConflictRestore(watches: map<int, seq<Clause>>, pending: seq<Clause>, lit: int, lits: LitsMap)
    requires PendingOk(watches, pending, lit, lits)
    ensures WatchOk(watches[lit := watches[lit] + pending], lits)
  {
    var ws := watches[lit] + pending;
    forall i, j | 0 <= i < j < |ws| ensures ws[i] != ws[j] {
      if j >= |watches[lit]| {
        assert ws[j] == pending[j - |watches[lit]|];
        if i >= |watches[lit]| {
          assert ws[i] == pending[i - |watches[lit]|];
        }
      }
    }
  }

  /** A clause not yet stored is in no watch list, so storing it keeps the lists valid. */
  lemma WatchOkStore(watches: map<int, seq<Clause>>, lits: LitsMap, c: Clause, l: seq<int>)
    requires WatchOk(watches, lits) && c !in lits
    ensures WatchOk(watches, lits[c := l])
    ensures forall x :: c !in Watchers(watches, x)
  {
  }

  /** The watch lists after a clause joins the list of `-p` and then that of `-q`. */
  function AddedWatches(watches: map<int, seq<Clause>>, c: Clause, p: int, q: int): map<int, seq<Clause>>
  {
    var w1 := watches[-p := Watchers(watches, -p) + [c]];
    w1[-q := Watchers(w1, -q) + [c]]
  }

  /** `add_clause` with two or more literals: the clause joins the lists of its first two negated literals. */
  lemma AddWatched(watches: map<int, seq<Clause>>, lits: LitsMap, vars: set<int>, c: Clause, l: seq<int>)
    requires WatchOk(watches, lits) && DbOk(lits, vars) && c !in lits && ClauseOk(l, vars)
    ensures WatchOk(AddedWatches(watches, c, l[0], l[1]), lits[c := l]) && DbOk(lits[c := l], vars)
  {
    assert l[0] != l[1];
    FirstWatchAdded(watches, lits, c, l);
    var w1 := watches[-l[0] := Watchers(watches, -l[0]) + [c]];
    AddOneWatch(w1, lits[c := l], c, -l[1]);
  }

  /** The stored clause joins the list of its first negated literal, and is not yet in that of its second. */
  lemma FirstWatchAdded(watches: map<int, seq<Clause>>, lits: LitsMap, c: Clause, l: seq<int>)
    requires WatchOk(watches, lits) && c !in lits && |l| >= 2 && l[0] != l[1]
    ensures var w1 := watches[-l[0] := Watchers(watches, -l[0]) + [c]];
            WatchOk(w1, lits[c := l]) && c !in Watchers(w1, -l[1])
  {
    WatchOkStore(watches, lits, c, l);
    AddOneWatch(watches, lits[c := l], c, -l[0]);
  }

  /** Widening the set of known variables. */
  lemma DbGrow(lits: LitsMap, vars: set<int>, vars': set<int>)
    requires DbOk(lits, vars) && vars <= vars'
    ensures DbOk(lits, vars')
  {
  }

  /** Every literal of `s` is true. */
  predicate AllTrue(s: seq<int>, a: Assignments)
  {
    forall k :: 0 <= k < |s| ==> Value(s[k], a) == Some(true)
  }

  /** Every literal of `s` is false. */
  predicate Falsified(s: seq<int>, a: Assignments)
  {
    forall k :: 0 <= k < |s| ==> Value(s[k], a) == Some(false)
  }

  /** No variable occurs twice in `s`. */
  predicate DistinctVars(s: seq<int>)
  {
    forall i, j :: 0 <= i < j < |s| ==> Abs(s[i]) != Abs(s[j])
  }

  /** `b` keeps every assignment `a` makes. */
  ghost predicate Extends(a: Assignments, b: Assignments)
  {
    forall v :: Status(a, v).Some? ==> Status(b, v) == Status(a, v)
  }

  lemma ExtendsTrans(a: Assignments, b: Assignments, c: Assignments)
    requires Extends(a, b) && Extends(b, c)
    ensures Extends(a, c)
  {
  }

  /** An assigned literal keeps its value in an extension. */
  lemma ExtendsValue(lit: int, a: Assignments, b: Assignments)
    requires Value(lit, a).Some? && Extends(a, b)
    ensures Value(lit, b) == Value(lit, a)
  {
    ValueLocal(lit, a, b);
  }

  lemma ExtendsTrue(s: seq<int>, a: Assignments, b: Assignments)
    requires AllTrue(s, a) && Extends(a, b)
    ensures AllTrue(s, b)
  {
    forall k | 0 <= k < |s| ensures Value(s[k], b) == Some(true) {
      ValueLocal(s[k], a, b);
    }
  }

  lemma ExtendsFalse(s: seq<int>, a: Assignments, b: Assignments)
    requires Falsified(s, a) && Extends(a, b)
    ensures Falsified(s, b)
  {
    forall k | 0 <= k < |s| ensures Value(s[k], b) == Some(false) {
      ValueLocal(s[k], a, b);
    }
  }

  /**
   * When the unit `rewatch` returns for a true `lit` is itself false, every
   * literal of the rearranged clause is false.
   */
  lemma RewatchedConflict(lits: seq<int>, a: Assignments, lit: int)
    requires |lits| >= 2 && -lit in lits[..2] && lit != 0 && Value(lit, a) == Some(true)
    requires Rewatched(lits, a, lit).1.Some? && Value(Rewatched(lits, a, lit).1.value, a) == Some(false)
    ensures Falsified(Rewatched(lits, a, lit).0, a)
  {
    RewatchedUnit(lits, a, lit);
    ValueNegation(lit, a);
    var w := WatchSecond(lits, lit);
    forall k | 0 <= k < |w| ensures Value(w[k], a) == Some(false) {
      if k >= 2 {
        assert w[k] == lits[2..][k - 2] == lits[k];
      }
    }
  }

  /** Assigning an unassigned non-zero literal true keeps every true literal true and makes it true. */
  lemma EnqueueTrue(s: seq<int>, a: Assignments, lit: int)
    requires AllTrue(s, a) && lit != 0 && Value(lit, a).None?
    ensures Extends(a, a[Abs(lit) := Some(lit > 0)])
    ensures AllTrue(s + [lit], a[Abs(lit) := Some(lit > 0)])
  {
    var b := a[Abs(lit) := Some(lit > 0)];
    ExtendsTrue(s, a, b);
    var t := s + [lit];
    assert forall k :: 0 <= k < |s| ==> t[k] == s[k];
  }

  /** Assigning an unassigned non-zero literal true extends the assignment and the trail. */
  lemma EnqueueTrail(trail: seq<int>, a: Assignments, lit: int)
    requires AllTrue(trail, a) && DistinctVars(trail) && lit != 0 && Value(lit, a).None?
    ensures Extends(a, a[Abs(lit) := Some(lit > 0)])
    ensures Value(lit, a[Abs(lit) := Some(lit > 0)]) == Some(true)
    ensures AllTrue(trail + [lit], a[Abs(lit) := Some(lit > 0)])
    ensures DistinctVars(trail + [lit])
  {
    var b := a[Abs(lit) := Some(lit > 0)];
    forall k | 0 <= k < |trail| ensures Abs(trail[k]) != Abs(lit) {
      assert Value(trail[k], a) == Some(true);
    }
    ExtendsTrue(trail, a, b);
    var t := trail + [lit];
    assert forall k :: 0 <= k < |trail| ==> t[k] == trail[k];
  }

  /** Unassigning the variable of the last trail literal keeps the rest of the trail true. */
  lemma UndoTrail(trail: seq<int>, a: Assignments)
    requires trail != [] && AllTrue(trail, a) && DistinctVars(trail)
    ensures var v := Abs(trail[|trail| - 1]);
            AllTrue(trail[..|trail| - 1], a[v := None]) && DistinctVars(trail[..|trail| - 1])
  {
    var v := Abs(trail[|trail| - 1]);
    var init := trail[..|trail| - 1];
    forall k | 0 <= k < |init| ensures Value(init[k], a[v := None]) == Some(true) {
      assert init[k] == trail[k];
      ValueLocal(init[k], a, a[v := None]);
    }
  }

  /** Assigning one more variable of `vars` leaves one fewer unassigned. */
  lemma CountStep(vars: set<int>, isSet: set<int>, v: int)
    requires v in vars && v !in isSet
    ensures |vars - (isSet + {v})| == |vars - isSet| - 1
  {
    assert vars - (isSet + {v}) == (vars - isSet) - {v};
  }
}
