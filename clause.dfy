/**
 * A clause of the CDCL engine (`Clause` in simplesat/minisat.py): a
 * duplicate-free list of literals whose first two entries are the watched
 * literals. `rewatch` moves entries around in place to keep that
 * arrangement when a watched literal becomes false.
 */
module Clauses {
  import opened Wrappers
  import opened SatUtils
  import opened SeqUtil

  /** `s` with the entries at `i` and `j` exchanged. */
  function Swap(s: seq<int>, i: nat, j: nat): (r: seq<int>)
    requires i < |s| && j < |s|
    ensures |r| == |s| && r[i] == s[j] && r[j] == s[i]
    ensures forall k :: 0 <= k < |s| && k != i && k != j ==> r[k] == s[k]
  {
    s[i := s[j]][j := s[i]]
  }

  /** Exchanging two entries is a permutation. */
  lemma SwapMultiset(s: seq<int>, i: nat, j: nat)
    requires i < |s| && j < |s|
    ensures multiset(Swap(s, i, j)) == multiset(s)
  {
    if i != j {
      var t := s[i := s[j]];
      assert multiset(t) == multiset(s) - multiset{s[i]} + multiset{s[j]};
      assert s[i] in multiset(s);
    }
  }

  /** Exchanging two entries keeps a sequence duplicate-free. */
  lemma SwapNoDup(s: seq<int>, i: nat, j: nat)
    requires i < |s| && j < |s| && NoDup(s)
    ensures NoDup(Swap(s, i, j))
  {
    var r := Swap(s, i, j);
    forall a, b | 0 <= a < b < |r| ensures r[a] != r[b] {
      var a' := if a == i then j else if a == j then i else a;
      var b' := if b == i then j else if b == j then i else b;
      assert r[a] == s[a'] && r[b] == s[b'] && a' != b';
    }
  }

  /** Exchanging two entries: the same elements, and no duplicates if there were none. */
  lemma SwapPermutes(s: seq<int>, i: nat, j: nat)
    requires i < |s| && j < |s|
    ensures multiset(Swap(s, i, j)) == multiset(s)
    ensures forall x :: x in Swap(s, i, j) <==> x in s
    ensures NoDup(s) ==> NoDup(Swap(s, i, j))
  {
    SwapMultiset(s, i, j);
    var r := Swap(s, i, j);
    assert forall x :: x in r <==> x in multiset(r);
    if NoDup(s) {
      SwapNoDup(s, i, j);
    }
  }

  /** The watched literal other than `-lit`. */
  function Other(lits: seq<int>, lit: int): int
    requires |lits| >= 2
  {
    if lits[0] == -lit then lits[1] else lits[0]
  }

  /** The literals rearranged so that `-lit` is the second watch (the first step of `rewatch`). */
  function WatchSecond(lits: seq<int>, lit: int): (w: seq<int>)
    requires |lits| >= 2 && -lit in lits[..2]
    ensures |w| == |lits| && w[0] == Other(lits, lit) && w[1] == -lit && w[2..] == lits[2..]
  {
    if lits[0] == -lit then Swap(lits, 0, 1) else lits
  }

  /** The index of the first literal at or after `i` that is not false. */
  function FirstNotFalse(s: seq<int>, a: Assignments, i: nat): (r: Option<nat>)
    requires i <= |s|
    ensures r.Some? ==> i <= r.value < |s| && Value(s[r.value], a) != Some(false)
    ensures r.Some? ==> forall k :: i <= k < r.value ==> Value(s[k], a) == Some(false)
    ensures r.None? ==> forall k :: i <= k < |s| ==> Value(s[k], a) == Some(false)
    decreases |s| - i
  {
    if i == |s| then None
    else if Value(s[i], a) != Some(false) then Some(i)
    else FirstNotFalse(s, a, i + 1)
  }

  /**
   * What `rewatch(assignments, lit)` leaves in the clause and returns:
   * a satisfied clause keeps its watches; otherwise the first literal
   * past the watches that is not false takes the place of `-lit`; with
   * none, the other watch is the unit literal.
   */
  function Rewatched(lits: seq<int>, a: Assignments, lit: int): (seq<int>, Option<int>)
    requires |lits| >= 2 && -lit in lits[..2]
  {
    var w := WatchSecond(lits, lit);
    if Value(w[0], a) == Some(true) then (w, None)
    else match FirstNotFalse(w, a, 2)
      case Some(k) => (Swap(w, 1, k), None)
      case None => (w, Some(w[0]))
  }

  /** `rewatch` only permutes the literals. */
  lemma RewatchedPermutes(lits: seq<int>, a: Assignments, lit: int)
    requires |lits| >= 2 && -lit in lits[..2]
    ensures |Rewatched(lits, a, lit).0| == |lits|
    ensures multiset(Rewatched(lits, a, lit).0) == multiset(lits)
    ensures forall x :: x in Rewatched(lits, a, lit).0 <==> x in lits
    ensures NoDup(lits) ==> NoDup(Rewatched(lits, a, lit).0)
  {
    var w := WatchSecond(lits, lit);
    if lits[0] == -lit {
      SwapPermutes(lits, 0, 1);
    }
    var k := FirstNotFalse(w, a, 2);
    if Value(w[0], a) != Some(true) && k.Some? {
      SwapPermutes(w, 1, k.value);
    }
  }

  /** The other watch always ends up first; a satisfied clause gives no unit and keeps `-lit` watched. */
  lemma RewatchedSatisfied(lits: seq<int>, a: Assignments, lit: int)
    requires |lits| >= 2 && -lit in lits[..2]
    ensures Rewatched(lits, a, lit).0[0] == Other(lits, lit)
    ensures Value(Other(lits, lit), a) == Some(true) ==>
              Rewatched(lits, a, lit).1.None? && Rewatched(lits, a, lit).0[1] == -lit
  {
  }

  /**
   * A unit is returned exactly when the other watch is not true and every
   * literal past the watches is false; the unit is the other watch and
   * `-lit` stays watched.
   */
  lemma RewatchedUnit(lits: seq<int>, a: Assignments, lit: int)
    requires |lits| >= 2 && -lit in lits[..2]
    ensures Rewatched(lits, a, lit).1.Some? <==>
              Value(Other(lits, lit), a) != Some(true) && forall k :: 2 <= k < |lits| ==> Value(lits[k], a) == Some(false)
    ensures Rewatched(lits, a, lit).1.Some? ==>
              Rewatched(lits, a, lit).1.value == Other(lits, lit) && Rewatched(lits, a, lit).0 == WatchSecond(lits, lit)
  {
    var w := WatchSecond(lits, lit);
    assert forall k :: 2 <= k < |lits| ==> w[k] == lits[k];
  }

  /**
   * Otherwise the first literal past the watches that is not false is
   * swapped with `-lit`: it becomes the second watch and `-lit` takes its place.
   */
  lemma RewatchedReplaced(lits: seq<int>, a: Assignments, lit: int)
    requires |lits| >= 2 && -lit in lits[..2]
    requires Value(Other(lits, lit), a) != Some(true) && Rewatched(lits, a, lit).1.None?
    ensures exists k :: 2 <= k < |lits|
              && Value(lits[k], a) != Some(false)
              && (forall j :: 2 <= j < k ==> Value(lits[j], a) == Some(false))
              && Rewatched(lits, a, lit).0 == Swap(WatchSecond(lits, lit), 1, k)
              && Rewatched(lits, a, lit).0[1] == lits[k]
              && Rewatched(lits, a, lit).0[k] == -lit
  {
    var w := WatchSecond(lits, lit);
    assert forall k :: 2 <= k < |lits| ==> w[k] == lits[k];
    var k := FirstNotFalse(w, a, 2).value;
    assert Value(lits[k], a) != Some(false);
  }

  /** The second watch afterwards is `-lit` or a literal from past the watches. */
  lemma RewatchedSecond(lits: seq<int>, a: Assignments, lit: int)
    requires |lits| >= 2 && -lit in lits[..2]
    ensures Rewatched(lits, a, lit).0[1] == -lit || Rewatched(lits, a, lit).0[1] in lits[2..]
  {
    var w := WatchSecond(lits, lit);
    if Value(w[0], a) != Some(true) && FirstNotFalse(w, a, 2).Some? {
      var k := FirstNotFalse(w, a, 2).value;
      assert w[k] == lits[2..][k - 2];
    }
  }

  /** Afterwards, unless a unit was found, a watched literal is true or the second watch is not false. */
  lemma RewatchedRestoresWatch(lits: seq<int>, a: Assignments, lit: int)
    requires |lits| >= 2 && -lit in lits[..2]
    requires Rewatched(lits, a, lit).1.None?
    ensures Value(Rewatched(lits, a, lit).0[0], a) == Some(true) || Value(Rewatched(lits, a, lit).0[1], a) != Some(false)
  {
  }

  /** `[-l for l in lits if l != p]`. */
  function NegatedExcept(s: seq<int>, p: Option<int>): (r: seq<int>)
    ensures |r| <= |s|
    ensures forall x :: x in r <==> -x in s && Some(-x) != p
  {
    if s == [] then []
    else
      var rest := NegatedExcept(s[1..], p);
      assert forall y :: y in s <==> y == s[0] || y in s[1..];
      if Some(s[0]) != p then [-s[0]] + rest else rest
  }

  /** Leaving out a literal that occurs once shortens the reason by one; leaving out none keeps its length. */
  lemma {:induction false} NegatedExceptLength(s: seq<int>, p: Option<int>)
    requires NoDup(s)
    ensures p.Some? && p.value in s ==> |NegatedExcept(s, p)| == |s| - 1
    ensures (p.None? || p.value !in s) ==> |NegatedExcept(s, p)| == |s|
  {
    if s != [] {
      assert NoDup(s[1..]);
      NegatedExceptLength(s[1..], p);
      assert s[0] !in s[1..] by {
        forall k | 0 <= k < |s[1..]| ensures s[1..][k] != s[0] {
          assert s[1..][k] == s[k + 1];
        }
      }
      assert forall y :: y in s <==> y == s[0] || y in s[1..];
    }
  }

  /** The reason of a clause whose literals are all false consists of true literals. */
  lemma ReasonOfFalsified(s: seq<int>, p: Option<int>, a: Assignments)
    requires 0 !in s
    requires forall k :: 0 <= k < |s| ==> Value(s[k], a) == Some(false)
    ensures forall x :: x in NegatedExcept(s, p) ==> Value(x, a) == Some(true)
  {
    forall x | x in NegatedExcept(s, p) ensures Value(x, a) == Some(true) {
      var k :| 0 <= k < |s| && s[k] == -x;
      ValueNegation(-x, a);
    }
  }

  class Clause {
    var lits: seq<int>
    const learned: bool

    /** The literals without repetitions, in the order of their first occurrences. */
    constructor (lits: seq<int>, learned: bool)
      ensures this.lits == Dedup(lits) && this.learned == learned
    {
      this.lits := Dedup(lits);
      this.learned := learned;
    }

    /** `rewatch`: rearranges the literals and returns the unit literal, if any, as `Rewatched` says. */
    method Rewatch(a: Assignments, lit: int) returns (unit: Option<int>)
      requires |lits| >= 2 && -lit in lits[..2]
      modifies this
      ensures (lits, unit) == Rewatched(old(lits), a, lit)
    {
      if lits[0] == -lit {
        lits := lits[0 := lits[1]][1 := -lit];
      }
      assert lits == WatchSecond(old(lits), lit);
      if Value(lits[0], a) == Some(true) {
        return None;
      }
      var n := 2;
      while n < |lits|
        invariant 2 <= n <= |lits|
        invariant lits == WatchSecond(old(lits), lit)
        invariant FirstNotFalse(lits, a, 2) == FirstNotFalse(lits, a, n)
      {
        var other := lits[n];
        if Value(other, a) != Some(false) {
          lits := lits[1 := other][n := -lit];
          return None;
        }
        n := n + 1;
      }
      return Some(lits[0]);
    }

    /** `calculate_reason(p)`: the negation of every literal other than `p`. */
    function CalculateReason(p: Option<int>): (r: seq<int>)
      reads this
      ensures forall x :: x in r <==> -x in lits && Some(-x) != p
    {
      NegatedExcept(lits, p)
    }

    function Len(): (n: nat)
      reads this
      ensures n == |lits|
    {
      |lits|
    }
  }
}
