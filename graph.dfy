/**
 * Graph utilities over adjacency maps (item -> the items it depends on):
 * the layered topological sort and the transitive neighbours of every
 * node.
 */
module Graphs {
  import opened Wrappers

  /** Every item some key of the graph points to. */
  function Targets<T(!new)>(g: map<T, set<T>>): (r: set<T>)
    ensures forall x :: x in r <==> exists k :: k in g && x in g[k]
  {
    set k, x | k in g && x in g[k] :: x
  }

  /** The items of the first `n` levels. */
  function UnionUpTo<T(!new)>(levels: seq<set<T>>, n: nat): (r: set<T>)
    requires n <= |levels|
  {
    if n == 0 then {} else UnionUpTo(levels, n - 1) + levels[n - 1]
  }

  /** An item is in the union of the first `n` levels iff one of them holds it. */
  lemma {:induction false} UnionUpToMeaning<T(!new)>(levels: seq<set<T>>, n: nat, x: T)
    requires n <= |levels|
    ensures x in UnionUpTo(levels, n) <==> exists i :: 0 <= i < n && x in levels[i]
  {
    if n > 0 {
      UnionUpToMeaning(levels, n - 1, x);
    }
  }

  // ---------------------------------------------------------------------
  // toposort
  // ---------------------------------------------------------------------

  /**
   * The graph `toposort` works on: a copy of the input with every
   * self-dependency dropped, and every item that only appears as a
   * dependency added with no dependencies of its own. The union over the
   * values is a `reduce` without a start value, so an empty graph raises
   * TypeError.
   */
  function Prepare<T(!new)>(g: map<T, set<T>>): (r: Result<map<T, set<T>>>)
    ensures r.Ok? <==> g != map[]
    ensures r.Err? ==> r.error == TypeError
    ensures r.Ok? ==> r.value.Keys == g.Keys + Targets(g)
    ensures r.Ok? ==> forall k :: k in g ==> r.value[k] == g[k] - {k}
    ensures r.Ok? ==> forall k :: k in r.value && k !in g ==> r.value[k] == {}
  {
    if g == map[] then Err(TypeError)
    else
      var data := map k | k in g :: g[k] - {k};
      var extra := Targets(data) - data.Keys;
      assert Targets(data) + g.Keys == Targets(g) + g.Keys by {
        forall x | x in Targets(g) ensures x in Targets(data) + g.Keys {
          var k :| k in g && x in g[k];
          if x != k {
            assert x in data[k];
          }
        }
      }
      Ok(data + map x | x in extra :: {})
  }

  /** The items with nothing left to wait for. */
  function Ready<T(!new)>(data: map<T, set<T>>): (r: set<T>)
    ensures forall x :: x in r <==> x in data && data[x] == {}
  {
    set x | x in data && data[x] == {}
  }

  /** The graph of one round later: `done` taken out, as items and as dependencies. */
  function Remove<T(!new)>(data: map<T, set<T>>, done: set<T>): (r: map<T, set<T>>)
    ensures r.Keys == data.Keys - done
    ensures forall x :: x in r ==> r[x] == data[x] - done
  {
    map x | x in data && x !in done :: data[x] - done
  }

  /** Taking out a non-empty set of items leaves fewer. */
  lemma FewerKeys<T(!new)>(data: map<T, set<T>>, done: set<T>)
    requires done != {} && done <= data.Keys
    ensures |Remove(data, done).Keys| < |data.Keys|
  {
    var x :| x in done;
    assert Remove(data, done).Keys <= data.Keys - {x};
    assert |Remove(data, done).Keys| <= |data.Keys - {x}|;
  }

  /** The sets `toposort` yields, and the items left when it stops. */
  datatype TopoRun<T> = TopoRun(levels: seq<set<T>>, left: map<T, set<T>>)

  /**
   * The rounds of `toposort`: each round takes every item with no
   * dependency left, until a round finds none.
   */
  function Rounds<T(!new)>(data: map<T, set<T>>): (r: TopoRun<T>)
    decreases |data.Keys|
  {
    var ordered := Ready(data);
    if ordered == {} then TopoRun([], data)
    else
      FewerKeys(data, ordered);
      var rest := Rounds(Remove(data, ordered));
      TopoRun([ordered] + rest.levels, rest.left)
  }

  /** Every dependency points at an item of the graph. */
  ghost predicate Closed<T(!new)>(data: map<T, set<T>>)
  {
    forall x :: x in data ==> data[x] <= data.Keys
  }

  /** Each level holds items of `data` whose dependencies all lie in earlier levels. */
  ghost predicate Layered<T(!new)>(data: map<T, set<T>>, levels: seq<set<T>>)
  {
    forall i, x :: 0 <= i < |levels| && x in levels[i] ==> x in data && data[x] <= UnionUpTo(levels, i)
  }

  /** No item is in two levels, and no level is empty. */
  ghost predicate Disjoint<T(!new)>(levels: seq<set<T>>)
  {
    (forall i :: 0 <= i < |levels| ==> levels[i] != {})
    && forall i, j, x :: 0 <= i < j < |levels| && x in levels[i] ==> x !in levels[j]
  }

  /**
   * The items left when the rounds stop all wait for another item left:
   * following their dependencies never ends, so they lie on or lead to a
   * cycle.
   */
  ghost predicate Stuck<T(!new)>(left: map<T, set<T>>)
  {
    forall x :: x in left ==> left[x] != {} && left[x] <= left.Keys
  }

  lemma {:induction false} UnionCons<T(!new)>(o: set<T>, levels: seq<set<T>>, n: nat)
    requires n <= |levels|
    ensures UnionUpTo([o] + levels, n + 1) == o + UnionUpTo(levels, n)
  {
    var s := [o] + levels;
    if n == 0 {
      assert UnionUpTo(s, 1) == UnionUpTo(s, 0) + s[0];
    } else {
      UnionCons(o, levels, n - 1);
      assert s[n] == levels[n - 1];
    }
  }

  /** One item of a later level: its dependencies lie in the levels before. */
  lemma LayeredAt<T(!new)>(data: map<T, set<T>>, ordered: set<T>, tail: seq<set<T>>, i: nat, x: T)
    requires ordered == Ready(data) && 0 < i <= |tail| && x in tail[i - 1]
    requires x in Remove(data, ordered) && Remove(data, ordered)[x] <= UnionUpTo(tail, i - 1)
    ensures x in data && data[x] <= UnionUpTo([ordered] + tail, i)
  {
    UnionCons(ordered, tail, i - 1);
  }

  /** The rounds' levels are layered. */
  lemma {:induction false} RoundsLayered<T(!new)>(data: map<T, set<T>>)
    ensures Layered(data, Rounds(data).levels)
    decreases |data.Keys|
  {
    var ordered := Ready(data);
    if ordered != {} {
      FewerKeys(data, ordered);
      var rest := Remove(data, ordered);
      RoundsLayered(rest);
      LayeredCons(data, ordered, Rounds(rest).levels);
    }
  }

  /** The ready items in front of levels layered over the rest. */
  lemma LayeredCons<T(!new)>(data: map<T, set<T>>, ordered: set<T>, tail: seq<set<T>>)
    requires ordered == Ready(data) && Layered(Remove(data, ordered), tail)
    ensures Layered(data, [ordered] + tail)
  {
    var levels := [ordered] + tail;
    forall i, x | 0 <= i < |levels| && x in levels[i] ensures x in data && data[x] <= UnionUpTo(levels, i) {
      if i > 0 {
        assert x in tail[i - 1];
        LayeredAt(data, ordered, tail, i, x);
      }
    }
  }

  /** A level lies within the union of any prefix that holds it. */
  lemma {:induction false} LevelInUnion<T(!new)>(levels: seq<set<T>>, j: nat, n: nat)
    requires j < n <= |levels|
    ensures levels[j] <= UnionUpTo(levels, n)
  {
    if j < n - 1 {
      LevelInUnion(levels, j, n - 1);
    }
  }

  /** The levels with what is left make up the graph, and nothing left has come out. */
  lemma {:induction false} RoundsCover<T(!new)>(data: map<T, set<T>>)
    ensures UnionUpTo(Rounds(data).levels, |Rounds(data).levels|) + Rounds(data).left.Keys == data.Keys
    ensures UnionUpTo(Rounds(data).levels, |Rounds(data).levels|) * Rounds(data).left.Keys == {}
    decreases |data.Keys|
  {
    var ordered := Ready(data);
    if ordered != {} {
      FewerKeys(data, ordered);
      var rest := Remove(data, ordered);
      RoundsCover(rest);
      var tail := Rounds(rest).levels;
      assert Rounds(data).levels == [ordered] + tail;
      UnionCons(ordered, tail, |tail|);
    }
  }

  /** No level is empty and no item comes out twice. */
  lemma {:induction false} RoundsDisjoint<T(!new)>(data: map<T, set<T>>)
    ensures Disjoint(Rounds(data).levels)
    decreases |data.Keys|
  {
    var ordered := Ready(data);
    if ordered != {} {
      FewerKeys(data, ordered);
      var rest := Remove(data, ordered);
      RoundsDisjoint(rest);
      RoundsCover(rest);
      var tail := Rounds(rest).levels;
      DisjointCons(ordered, tail, rest.Keys);
    }
  }

  /** A non-empty level in front of disjoint levels that lie outside it. */
  lemma DisjointCons<T(!new)>(ordered: set<T>, tail: seq<set<T>>, rest: set<T>)
    requires ordered != {} && Disjoint(tail) && UnionUpTo(tail, |tail|) <= rest
    requires forall x :: x in ordered ==> x !in rest
    ensures Disjoint([ordered] + tail)
  {
    var levels := [ordered] + tail;
    forall i, j, x | 0 <= i < j < |levels| && x in levels[i] ensures x !in levels[j] {
      if i == 0 {
        LevelInUnion(tail, j - 1, |tail|);
      } else {
        assert x in tail[i - 1];
      }
    }
  }

  /** What is left when the rounds stop waits on itself, given a closed graph. */
  lemma {:induction false} RoundsStuck<T(!new)>(data: map<T, set<T>>)
    requires Closed(data)
    ensures Stuck(Rounds(data).left)
    decreases |data.Keys|
  {
    var ordered := Ready(data);
    if ordered != {} {
      FewerKeys(data, ordered);
      var rest := Remove(data, ordered);
      assert Closed(rest);
      RoundsStuck(rest);
    }
  }

  /** A prepared graph is closed. */
  lemma PreparedClosed<T(!new)>(g: map<T, set<T>>)
    requires g != map[]
    ensures Closed(Prepare(g).value)
  {
    var data := Prepare(g).value;
    forall x | x in data ensures data[x] <= data.Keys {
      if x in g {
        forall y | y in data[x] ensures y in Targets(g) {
          assert y in g[x];
        }
      }
    }
  }

  /** What is left keeps a part of each item's dependencies. */
  lemma {:induction false} RoundsLeftWithin<T(!new)>(data: map<T, set<T>>)
    ensures forall x :: x in Rounds(data).left ==> x in data && Rounds(data).left[x] <= data[x]
    decreases |data.Keys|
  {
    var ordered := Ready(data);
    if ordered != {} {
      FewerKeys(data, ordered);
      RoundsLeftWithin(Remove(data, ordered));
    }
  }

  /** A non-empty set has an element of least rank. */
  lemma {:induction false} LeastRank<T(!new)>(s: set<T>, rank: T -> nat) returns (m: T)
    requires s != {}
    ensures m in s && forall y :: y in s ==> rank(m) <= rank(y)
    decreases |s|
  {
    var x :| x in s;
    if s == {x} {
      m := x;
    } else {
      var n := LeastRank(s - {x}, rank);
      m := if rank(x) <= rank(n) then x else n;
    }
  }

  /** The dependencies of an item (itself aside) all rank below it: the graph has no cycle. */
  ghost predicate Ranked<T(!new)>(g: map<T, set<T>>, rank: T -> nat)
  {
    forall k, d :: k in g && d in g[k] && d != k ==> rank(d) < rank(k)
  }

  /**
   * On a graph without cycles `toposort` raises nothing: no item is left
   * over, so every item comes out in exactly one level.
   */
  lemma AcyclicSorted<T(!new)>(g: map<T, set<T>>, rank: T -> nat)
    requires g != map[] && Ranked(g, rank)
    ensures Rounds(Prepare(g).value).left.Keys == {}
  {
    var data := Prepare(g).value;
    PreparedClosed(g);
    RoundsStuck(data);
    RoundsLeftWithin(data);
    var left := Rounds(data).left;
    forall x, y | x in left && y in left[x] ensures x in g && y in g[x] && y != x {
      assert y in data[x];
    }
    NothingStuck(g, left, rank);
  }

  /** In a ranked graph no non-empty part has every item waiting on another. */
  lemma NothingStuck<T(!new)>(g: map<T, set<T>>, left: map<T, set<T>>, rank: T -> nat)
    requires Ranked(g, rank) && Stuck(left)
    requires forall x, y :: x in left && y in left[x] ==> x in g && y in g[x] && y != x
    ensures left.Keys == {}
  {
    if left.Keys != {} {
      var m := LeastRank(left.Keys, rank);
      assert false;
    }
  }

  /**
   * `toposort`: the item sets, round by round, and ValueError when items
   * are left over (a cycle); TypeError for an empty graph.
   */
  method Toposort<T(!new)>(g: map<T, set<T>>) returns (levels: seq<set<T>>, error: Option<Error>)
    ensures Prepare(g).Err? ==> levels == [] && error == Some(TypeError)
    ensures Prepare(g).Ok? ==> levels == Rounds(Prepare(g).value).levels
    ensures Prepare(g).Ok? ==> (error.Some? <==> Rounds(Prepare(g).value).left.Keys != {})
    ensures error.Some? ==> error.value in {TypeError, ValueError}
  {
    var prepared := Prepare(g);
    if prepared.Err? {
      return [], Some(prepared.error);
    }
    var left;
    levels, left := RunRounds(prepared.value);
    error := if left.Keys != {} then Some(ValueError) else None;
  }

  /** The `while` loop of `toposort`: one level per round. */
  method RunRounds<T(!new)>(start: map<T, set<T>>) returns (levels: seq<set<T>>, left: map<T, set<T>>)
    ensures TopoRun(levels, left) == Rounds(start)
  {
    left := start;
    levels := [];
    while true
      invariant TopoRun(levels + Rounds(left).levels, Rounds(left).left) == Rounds(start)
      decreases |left.Keys|
    {
      var ordered := Ready(left);
      if ordered == {} {
        break;
      }
      FewerKeys(left, ordered);
      ghost var rest := Rounds(Remove(left, ordered));
      assert Rounds(left) == TopoRun([ordered] + rest.levels, rest.left);
      assert levels + ([ordered] + rest.levels) == (levels + [ordered]) + rest.levels;
      levels := levels + [ordered];
      left := Remove(left, ordered);
    }
  }

  /**
   * What `toposort` promises: the self-dependencies are ignored; each
   * level holds items whose other dependencies all come out in earlier
   * levels; no item comes out twice; without an error every item of the
   * graph comes out; with one, every item left waits on another item left.
   */
  lemma ToposortMeaning<T(!new)>(g: map<T, set<T>>)
    requires g != map[]
    ensures Layered(Prepare(g).value, Rounds(Prepare(g).value).levels)
    ensures Disjoint(Rounds(Prepare(g).value).levels)
    ensures var run := Rounds(Prepare(g).value);
            run.left.Keys == {} ==> UnionUpTo(run.levels, |run.levels|) == g.Keys + Targets(g)
    ensures Stuck(Rounds(Prepare(g).value).left)
  {
    var data := Prepare(g).value;
    RoundsLayered(data);
    RoundsCover(data);
    RoundsDisjoint(data);
    PreparedClosed(g);
    RoundsStuck(data);
  }

  // ---------------------------------------------------------------------
  // transitive_neighbors
  // ---------------------------------------------------------------------

  /** Every entry is a key of the graph and holds the key's neighbours. */
  ghost predicate Includes<T(!new)>(g: map<T, set<T>>, t: map<T, set<T>>)
  {
    forall m :: m in t ==> m in g && g[m] <= t[m]
  }

  /** An entry holds only neighbours and what the entries of other neighbours hold. */
  ghost predicate Sound<T(!new)>(g: map<T, set<T>>, t: map<T, set<T>>)
    requires Includes(g, t)
  {
    forall m, x :: m in t && x in t[m] ==> x in g[m] || exists n :: n in g[m] && n != m && n in t && x in t[n]
  }

  /**
   * Every entry not under construction holds the entries of its neighbours,
   * which are all there.
   */
  ghost predicate Done<T(!new)>(g: map<T, set<T>>, t: map<T, set<T>>, open: set<T>)
    requires Includes(g, t)
  {
    forall m, n :: m in t && m !in open && n in g[m] ==> n in t && t[n] <= t[m]
  }

  /** What a call of `_transitive` may assume of the table and the nodes above it. */
  ghost predicate TableInv<T(!new)>(g: map<T, set<T>>, t: map<T, set<T>>, open: set<T>, rank: T -> nat)
  {
    Includes(g, t) && Sound(g, t) && open <= t.Keys && NeighboursIn(g, t, open)
    && (Ranked(g, rank) ==> Done(g, t, open))
  }

  /** Every neighbour of an entry not under construction has an entry. */
  ghost predicate NeighboursIn<T(!new)>(g: map<T, set<T>>, t: map<T, set<T>>, open: set<T>)
    requires Includes(g, t)
  {
    forall m, n :: m in t && m !in open && n in g[m] ==> n in t
  }

  /** Fewer keys of the graph are left without an entry once the table grows. */
  lemma FewerMissing<T(!new)>(keys: set<T>, a: set<T>, b: set<T>, x: T)
    requires x in keys && x !in a && a + {x} <= b
    ensures |keys - b| < |keys - a|
  {
    SubsetSize(keys - b, (keys - a) - {x});
  }

  /** A subset is no larger. */
  lemma {:induction false} SubsetSize<T(!new)>(a: set<T>, b: set<T>)
    requires a <= b
    ensures |a| <= |b|
    decreases |a|
  {
    if a != {} {
      var x :| x in a;
      SubsetSize(a - {x}, b - {x});
    }
  }

  /** No finished entry has `node` as a neighbour (on a ranked graph). */
  ghost predicate NoEdgeInto<T(!new)>(g: map<T, set<T>>, t: map<T, set<T>>, open: set<T>, node: T)
    requires Includes(g, t)
  {
    forall m :: m in t && m !in open && m != node ==> node !in g[m]
  }

  /** The entries made since `before` all rank no higher than `node`. */
  ghost predicate RanksBelow<T(!new)>(before: set<T>, t: map<T, set<T>>, node: T, rank: T -> nat)
  {
    forall m :: m in t && m !in before ==> rank(m) <= rank(node)
  }

  /** The table once the node's entry holds its neighbours. */
  lemma StartInv<T(!new)>(g: map<T, set<T>>, trans: map<T, set<T>>, open: set<T>, rank: T -> nat, node: T)
    requires TableInv(g, trans, open, rank) && node in g && node !in trans
    ensures var t := trans[node := g[node]];
      Includes(g, t) && Sound(g, t) && NeighboursIn(g, t, open + {node}) && (Ranked(g, rank) ==> Done(g, t, open + {node}) && NoEdgeInto(g, t, open, node))
  {
    var t := trans[node := g[node]];
    forall m, x | m in t && x in t[m] ensures x in g[m] || exists n :: n in g[m] && n != m && n in t && x in t[n] {
      if m != node && x !in g[m] {
        var n :| n in g[m] && n != m && n in trans && x in trans[n];
        assert n in t && x in t[n];
      }
    }
  }

  /** The neighbour's entry added to the node's: the table invariants are kept. */
  lemma AbsorbInv<T(!new)>(g: map<T, set<T>>, before: map<T, set<T>>, open: set<T>, rank: T -> nat, node: T, n: T)
    requires Includes(g, before) && Sound(g, before) && node in before && n in before && n in g[node] && n != node
    requires Ranked(g, rank) ==> Done(g, before, open + {node}) && NoEdgeInto(g, before, open, node)
    ensures var t := before[node := before[node] + before[n]];
      Includes(g, t) && Sound(g, t) && (NeighboursIn(g, before, open + {node}) ==> NeighboursIn(g, t, open + {node}))
      && (Ranked(g, rank) ==> Done(g, t, open + {node}) && NoEdgeInto(g, t, open, node))
  {
    var t := before[node := before[node] + before[n]];
    forall m, x | m in t && x in t[m] ensures x in g[m] || exists k :: k in g[m] && k != m && k in t && x in t[k] {
      if x !in g[m] {
        if m == node && x in before[n] {
          assert n in g[m] && n != m && n in t && x in t[n];
        } else {
          var k :| k in g[m] && k != m && k in before && x in before[k];
          assert k in t && x in t[k];
        }
      }
    }
  }

  /** The entries of `before` are still there, unchanged. */
  ghost predicate Frozen<T(!new)>(before: map<T, set<T>>, t: map<T, set<T>>)
  {
    forall m :: m in before ==> m in t && t[m] == before[m]
  }

  /** The node's entry holds the entries of the neighbours handled so far. */
  ghost predicate Absorbed<T(!new)>(t: map<T, set<T>>, node: T, handled: set<T>)
    requires node in t
  {
    forall n :: n in handled ==> n in t && t[n] <= t[node]
  }

  /** The state of `_transitive`'s loop over the node's neighbours. */
  ghost predicate BuildInv<T(!new)>(g: map<T, set<T>>, trans: map<T, set<T>>, t: map<T, set<T>>,
                                    open: set<T>, rank: T -> nat, node: T, handled: set<T>)
  {
    node in t && node !in trans && Frozen(trans, t) && Includes(g, t) && Sound(g, t) && open + {node} <= t.Keys
    && NeighboursIn(g, t, open + {node})
    && (Ranked(g, rank) ==> Done(g, t, open + {node}) && NoEdgeInto(g, t, open, node)
                            && RanksBelow(trans.Keys, t, node, rank))
    && Absorbed(t, node, handled)
  }

  /** With every neighbour absorbed, the node's entry is finished. */
  lemma FinishInv<T(!new)>(g: map<T, set<T>>, trans: map<T, set<T>>, t: map<T, set<T>>,
                           open: set<T>, rank: T -> nat, node: T)
    requires node in g && BuildInv(g, trans, t, open, rank, node, g[node])
    ensures TableInv(g, t, open, rank)
  {
  }

  /** One neighbour handled by a recursive call and absorbed. */
  lemma BuildStep<T(!new)>(g: map<T, set<T>>, trans: map<T, set<T>>, t: map<T, set<T>>, sub: map<T, set<T>>,
                           open: set<T>, rank: T -> nat, node: T, n: T, handled: set<T>)
    requires BuildInv(g, trans, t, open, rank, node, handled) && node in g && n in g[node] && n != node
    requires n in sub && Frozen(t, sub) && TableInv(g, sub, open + {node}, rank)
    requires Ranked(g, rank) ==> RanksBelow(t.Keys, sub, n, rank)
    ensures BuildInv(g, trans, sub[node := sub[node] + sub[n]], open, rank, node, handled + {n})
  {
    if Ranked(g, rank) {
      forall m | m in sub && m !in open && m != node ensures node !in g[m] {
        if m !in t {
          assert rank(m) <= rank(n) < rank(node);
        }
      }
      assert NoEdgeInto(g, sub, open, node);
    }
    AbsorbInv(g, sub, open, rank, node, n);
    var t' := sub[node := sub[node] + sub[n]];
    assert Frozen(trans, t');
    assert Absorbed(t', node, handled + {n});
    if Ranked(g, rank) {
      assert RanksBelow(trans.Keys, t', node, rank);
    }
  }

  /**
   * `_transitive`: the node's entry, built from its neighbours and their
   * entries, each neighbour handled first; a node that already has an entry
   * is left as it is (so on a cycle an entry can miss what lies beyond a node
   * still being built). KeyError for a node that is not a key. The table is
   * passed in and handed back. A self-loop needs no recursive call: the
   * source's call returns at once, the node having its entry.
   */
  method Transitive<T(!new)>(node: T, g: map<T, set<T>>, trans: map<T, set<T>>,
                             ghost open: set<T>, ghost rank: T -> nat)
    returns (r: Result<map<T, set<T>>>)
    requires TableInv(g, trans, open, rank)
    requires Ranked(g, rank) ==> forall s :: s in open ==> rank(node) < rank(s)
    ensures r.Ok? ==> node in r.value && Frozen(trans, r.value) && TableInv(g, r.value, open, rank)
    ensures r.Ok? && Ranked(g, rank) ==> RanksBelow(trans.Keys, r.value, node, rank)
    ensures r.Err? ==> r.error == KeyError && (node !in g || !Closed(g))
    decreases |g.Keys - trans.Keys|, 2
  {
    if node in trans {
      return Ok(trans);
    }
    if node !in g {
      return Err(KeyError);
    }
    StartInv(g, trans, open, rank, node);
    r := Neighbours(node, g, trans, trans[node := g[node]], g[node], open, rank);
    if r.Ok? {
      FinishInv(g, trans, r.value, open, rank, node);
    }
  }

  /** The loop of `_transitive` over the neighbours still to handle. */
  method Neighbours<T(!new)>(node: T, g: map<T, set<T>>, ghost trans: map<T, set<T>>, t: map<T, set<T>>,
                             todo: set<T>, ghost open: set<T>, ghost rank: T -> nat)
    returns (r: Result<map<T, set<T>>>)
    requires node in g && todo <= g[node] && BuildInv(g, trans, t, open, rank, node, g[node] - todo)
    requires Ranked(g, rank) ==> forall s :: s in open ==> rank(node) < rank(s)
    ensures r.Ok? ==> BuildInv(g, trans, r.value, open, rank, node, g[node])
    ensures r.Err? ==> r.error == KeyError && !Closed(g)
    decreases |g.Keys - trans.Keys|, 1
  {
    var t := t;
    var todo := todo;
    while todo != {}
      invariant todo <= g[node] && BuildInv(g, trans, t, open, rank, node, g[node] - todo)
      decreases todo
    {
      var n :| n in todo;
      var next := Absorb(node, n, g, trans, t, open, rank, g[node] - todo);
      if next.Err? {
        return next;
      }
      t := next.value;
      assert g[node] - (todo - {n}) == (g[node] - todo) + {n};
      todo := todo - {n};
    }
    return Ok(t);
  }

  /** One neighbour: its entry built (unless it is the node itself), then added to the node's. */
  method Absorb<T(!new)>(node: T, n: T, g: map<T, set<T>>, ghost trans: map<T, set<T>>, t: map<T, set<T>>,
                         ghost open: set<T>, ghost rank: T -> nat, ghost handled: set<T>)
    returns (r: Result<map<T, set<T>>>)
    requires node in g && n in g[node] && BuildInv(g, trans, t, open, rank, node, handled)
    requires Ranked(g, rank) ==> forall s :: s in open ==> rank(node) < rank(s)
    ensures r.Ok? ==> BuildInv(g, trans, r.value, open, rank, node, handled + {n})
    ensures r.Err? ==> r.error == KeyError && !Closed(g)
    decreases |g.Keys - trans.Keys|, 0
  {
    if n == node {
      return Ok(t);
    }
    FewerMissing(g.Keys, trans.Keys, t.Keys, node);
    var sub := Transitive(n, g, t, open + {node}, rank);
    if sub.Err? {
      return sub;
    }
    BuildStep(g, trans, t, sub.value, open, rank, node, n, handled);
    return Ok(sub.value[node := sub.value[node] + sub.value[n]]);
  }

  /**
   * `transitive_neighbors`: `_transitive` run from every key in turn on one
   * shared table. It succeeds exactly when every neighbour is itself a key
   * (otherwise KeyError); then the table has an entry per key, holding the
   * key's neighbours and only what neighbours' entries hold, and on a graph
   * without cycles each entry is exactly the set reachable from its key.
   * The keys are taken in an unspecified order, as a dict's may be.
   */
  method TransitiveNeighbors<T(!new)>(g: map<T, set<T>>, ghost rank: T -> nat) returns (r: Result<map<T, set<T>>>)
    ensures r.Ok? <==> Closed(g)
    ensures r.Ok? ==> r.value.Keys == g.Keys && Includes(g, r.value) && Sound(g, r.value)
    ensures r.Ok? && Ranked(g, rank) ==> Done(g, r.value, {})
    ensures r.Err? ==> r.error == KeyError
  {
    var trans: map<T, set<T>> := map[];
    var keys := g.Keys;
    while keys != {}
      invariant keys <= g.Keys && g.Keys - keys <= trans.Keys && TableInv(g, trans, {}, rank)
      decreases keys
    {
      var node :| node in keys;
      var next := Transitive(node, g, trans, {}, rank);
      if next.Err? {
        return next;
      }
      trans := next.value;
      keys := keys - {node};
    }
    assert trans.Keys == g.Keys;
    return Ok(trans);
  }

  /** The nodes reachable from `m` by one or more edges, on a graph without cycles. */
  ghost function Reach<T(!new)>(g: map<T, set<T>>, rank: T -> nat, m: T): (r: set<T>)
    requires Ranked(g, rank) && Closed(g) && m in g
    ensures g[m] <= r
    decreases rank(m)
  {
    g[m] + set n, x | n in g[m] && n != m && x in Reach(g, rank, n) :: x
  }

  /**
   * A finished table on a graph without cycles holds exactly the reachable
   * nodes: what `transitive_neighbors` returns there is `Reach`.
   */
  lemma {:induction false} ReachExact<T(!new)>(g: map<T, set<T>>, t: map<T, set<T>>, rank: T -> nat, m: T)
    requires Ranked(g, rank) && Closed(g) && t.Keys == g.Keys && Includes(g, t) && Sound(g, t) && Done(g, t, {})
    requires m in g
    ensures t[m] == Reach(g, rank, m)
    decreases rank(m)
  {
    forall n | n in g[m] && n != m ensures t[n] == Reach(g, rank, n) {
      ReachExact(g, t, rank, n);
    }
    forall x | x in t[m] ensures x in Reach(g, rank, m) {
      if x !in g[m] {
        var n :| n in g[m] && n != m && n in t && x in t[n];
      }
    }
    forall x | x in Reach(g, rank, m) ensures x in t[m] {
      if x !in g[m] {
        var n :| n in g[m] && n != m && x in Reach(g, rank, n);
      }
    }
  }
}
