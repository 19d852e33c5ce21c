/**
 * The group prioritizer (simplesat/priority_queue.py, `GroupPrioritizer`).
 *
 * Items are ints sorted into groups; an item's priority is the pair (its
 * group, its position in the group when the group is sorted by a key
 * function). Priorities are computed lazily: `update` marks them dirty and
 * the next read recomputes them all.
 */
module GroupPrioritizerModel {
  import opened Wrappers
  import opened SetFacts

  /** The order `sorted(items, key=key)` puts items in; ties in the key fall back to the item. */
  predicate KeyLess(key: int -> int, a: int, b: int)
  {
    key(a) < key(b) || (key(a) == key(b) && a < b)
  }

  /** The position of `x` in the sorted group: how many items come before it. */
  function Rank(items: set<int>, key: int -> int, x: int): nat
  {
    |set y | y in items && KeyLess(key, y, x)|
  }

  lemma StrictSubsetCard(a: set<int>, b: set<int>)
    requires a < b
    ensures |a| < |b|
  {
    assert b == a + (b - a);
    assert b - a != {};
  }

  /** Ranks in a group run below its size and follow the key order, hence are distinct. */
  lemma {:induction false} RankOrder(items: set<int>, key: int -> int, x: int, y: int)
    requires x in items && y in items
    ensures Rank(items, key, x) < |items|
    ensures KeyLess(key, x, y) ==> Rank(items, key, x) < Rank(items, key, y)
    ensures x != y ==> Rank(items, key, x) != Rank(items, key, y)
  {
    var below := set z | z in items && KeyLess(key, z, x);
    assert x !in below;
    StrictSubsetCard(below, items);
    if x != y {
      var (a, b) := if KeyLess(key, x, y) then (x, y) else (y, x);
      var sa := set z | z in items && KeyLess(key, z, a);
      var sb := set z | z in items && KeyLess(key, z, b);
      assert a in sb && a !in sa;
      assert sa < sb;
      StrictSubsetCard(sa, sb);
    }
  }

  /**
   * `owner` names the one group each item is in: every item of a group is
   * owned by that group, and every owned item is in its owner.
   */
  ghost predicate Owns(groups: map<int, set<int>>, owner: map<int, int>)
  {
    && (forall x :: x in owner ==> owner[x] in groups && x in groups[owner[x]])
    && (forall g :: g in groups ==> forall x :: x in groups[g] ==> x in owner && owner[x] == g)
  }

  /** Under an owner map, no item is in two groups. */
  lemma OwnedGroupsDisjoint(groups: map<int, set<int>>, owner: map<int, int>, g: int, h: int, x: int)
    requires Owns(groups, owner)
    requires g in groups && h in groups && x in groups[g] && x in groups[h]
    ensures g == h
  {
  }

  /** The priority of each item: its group and its rank in the group. */
  ghost function Priorities(groups: map<int, set<int>>, owner: map<int, int>, key: int -> int): (p: map<int, (int, nat)>)
    requires Owns(groups, owner)
    ensures p.Keys == owner.Keys
    ensures forall g :: g in groups ==> forall x :: x in groups[g] ==> p[x] == (g, Rank(groups[g], key, x))
  {
    map x | x in owner :: (owner[x], Rank(groups[owner[x]], key, x))
  }

  /** What `_prioritize` has filled in once the groups outside `todo` are done. */
  ghost predicate PartialPriorities(groups: map<int, set<int>>, target: map<int, (int, nat)>,
                                    p: map<int, (int, nat)>, todo: set<int>)
  {
    && (forall x :: x in p ==> x in target && p[x] == target[x])
    && (forall g :: g in groups && g !in todo ==> forall x :: x in groups[g] ==> x in p)
  }

  /** The priorities of one group: each item's group and rank. */
  function GroupPriorities(items: set<int>, g: int, key: int -> int): (p: map<int, (int, nat)>)
    ensures p.Keys == items
    ensures forall x :: x in items ==> p[x].0 == g && p[x].1 < |items|
  {
    var p := map x | x in items :: (g, Rank(items, key, x));
    forall x | x in items ensures p[x].1 < |items| {
      RankOrder(items, key, x, x);
    }
    p
  }

  lemma PrioritizeStep(groups: map<int, set<int>>, owner: map<int, int>, key: int -> int,
                       target: map<int, (int, nat)>, p: map<int, (int, nat)>, todo: set<int>, g: int)
    requires Owns(groups, owner) && target == Priorities(groups, owner, key) && g in todo && g in groups
    requires PartialPriorities(groups, target, p, todo)
    ensures PartialPriorities(groups, target, p + GroupPriorities(groups[g], g, key), todo - {g})
  {
    var items := groups[g];
    var q := GroupPriorities(items, g, key);
    var p' := p + q;
    forall x | x in p' ensures x in target && p'[x] == target[x] {
      if x in q {
        assert x in groups[g];
        assert q[x] == (g, Rank(items, key, x));
      }
    }
    forall h | h in groups && h !in todo - {g} ensures forall x :: x in groups[h] ==> x in p' {
    }
  }

  lemma PrioritizeDone(groups: map<int, set<int>>, owner: map<int, int>, key: int -> int,
                       target: map<int, (int, nat)>, p: map<int, (int, nat)>)
    requires Owns(groups, owner) && target == Priorities(groups, owner, key)
    requires PartialPriorities(groups, target, p, {})
    ensures p == target
  {
    forall x | x in target ensures x in p {
      var g := owner[x];
      assert g in groups && g !in {} && x in groups[g];
    }
    forall x | x in p ensures x in target && p[x] == target[x] { }
    assert p.Keys == target.Keys;
  }

  /**
   * `update(items, group)` on the groups: the items leave every other group
   * and join `group`, which is created if it is new.
   */
  function MoveItems(groups: map<int, set<int>>, items: set<int>, group: int): (r: map<int, set<int>>)
    ensures r.Keys == groups.Keys + {group}
    ensures r[group] == (if group in groups then groups[group] else {}) + items
    ensures forall g :: g in groups && g != group ==> r[g] == groups[g] - items
  {
    var current := if group in groups then groups[group] else {};
    (map g | g in groups :: groups[g] - items)[group := current + items]
  }

  /** The owner map after `update(items, group)`: the items now belong to `group`. */
  function Reassign(owner: map<int, int>, items: set<int>, group: int): (o: map<int, int>)
    ensures o.Keys == owner.Keys + items
    ensures forall x :: x in o ==> o[x] == if x in items then group else owner[x]
  {
    owner + map x | x in items :: group
  }

  /** Moving items hands each of them to `group` and leaves every other item with its group. */
  lemma MoveItemsOwns(groups: map<int, set<int>>, owner: map<int, int>, items: set<int>, group: int)
    requires Owns(groups, owner)
    ensures Owns(MoveItems(groups, items, group), Reassign(owner, items, group))
  {
    var r := MoveItems(groups, items, group);
    var o := Reassign(owner, items, group);
    forall x | x in o ensures o[x] in r && x in r[o[x]] {
      if x !in items {
        assert x in groups[owner[x]];
      }
    }
    forall g | g in r ensures forall x :: x in r[g] ==> x in o && o[x] == g {
      forall x | x in r[g] ensures x in o && o[x] == g {
        if x !in items {
          assert g in groups && x in groups[g];
        }
      }
    }
  }

  /** The groups part-way through `update`: the groups outside `todo`, other than `group`, have lost `items`. */
  function StripOthers(before: map<int, set<int>>, items: set<int>, group: int, todo: set<int>): map<int, set<int>>
  {
    map g | g in before :: if g in todo || g == group then before[g] else before[g] - items
  }

  lemma StripOthersStep(before: map<int, set<int>>, items: set<int>, group: int, todo: set<int>, g: int)
    requires g in todo && todo <= before.Keys
    ensures var s := StripOthers(before, items, group, todo);
            g != group ==> s[g := s[g] - items] == StripOthers(before, items, group, todo - {g})
    ensures g == group ==> StripOthers(before, items, group, todo) == StripOthers(before, items, group, todo - {g})
  {
  }

  lemma StripOthersDone(before: map<int, set<int>>, items: set<int>, group: int)
    ensures var s := StripOthers(before, items, group, {});
            s[group := (if group in s then s[group] else {}) + items] == MoveItems(before, items, group)
  {
  }

  /**
   * Every item is in exactly one group (the one `owner` names), `known` is
   * the set of all grouped items, and the priorities computed last are
   * current unless marked dirty.
   */
  ghost predicate PrioritizerValid(groups: map<int, set<int>>, owner: map<int, int>, known: set<int>,
                                   itemPriority: map<int, (int, nat)>, dirty: bool, key: int -> int)
  {
    && Owns(groups, owner)
    && known == owner.Keys
    && itemPriority.Keys <= known
    && (!dirty ==> itemPriority == Priorities(groups, owner, key))
  }

  lemma UpdateKeepsValid(groups: map<int, set<int>>, owner: map<int, int>, known: set<int>,
                         itemPriority: map<int, (int, nat)>, dirty: bool, key: int -> int,
                         items: set<int>, group: int)
    requires PrioritizerValid(groups, owner, known, itemPriority, dirty, key)
    ensures PrioritizerValid(MoveItems(groups, items, group), Reassign(owner, items, group),
                             known + items, itemPriority, true, key)
  {
    MoveItemsOwns(groups, owner, items, group);
    assert (Reassign(owner, items, group)).Keys == known + items;
  }

  /**
   * The loop of `update`: every group other than `group` loses `items`,
   * then `group` (new or old) gains them.
   */
  method MoveGroups(groups: map<int, set<int>>, items: set<int>, group: int) returns (r: map<int, set<int>>)
    ensures r == MoveItems(groups, items, group)
  {
    r := groups;
    var todo := groups.Keys;
    while todo != {}
      invariant todo <= groups.Keys
      invariant r == StripOthers(groups, items, group, todo)
      decreases |todo|
    {
      NonEmptyHasElement(todo);
      var g :| g in todo;
      StripOthersStep(groups, items, group, todo, g);
      if g != group {
        r := r[g := r[g] - items];
      }
      todo := todo - {g};
    }
    StripOthersDone(groups, items, group);
    var current := if group in r then r[group] else {};
    r := r[group := current + items];
  }

  class GroupPrioritizer {
    const key: int -> int
    var groups: map<int, set<int>>
    var itemPriority: map<int, (int, nat)>
    var known: set<int>
    var dirty: bool
    /** The group each known item is in. */
    ghost var owner: map<int, int>

    ghost predicate Valid()
      reads this
    {
      PrioritizerValid(groups, owner, known, itemPriority, dirty, key)
    }

    constructor (key: int -> int)
      ensures Valid() && this.key == key && groups == map[] && known == {} && dirty
    {
      this.key := key;
      groups := map[];
      itemPriority := map[];
      known := {};
      dirty := true;
      owner := map[];
    }

    /** `item in gp`: read from the priorities last computed, which may be stale. */
    function Contains(item: int): (b: bool)
      reads this
      requires Valid()
      ensures b ==> item in known
      ensures !dirty ==> (b <==> item in known)
    {
      item in itemPriority
    }

    /** `_prioritize()`: every item gets (its group, its rank in the group). */
    method Prioritize()
      requires Valid()
      modifies this`itemPriority, this`dirty
      ensures Valid() && !dirty && itemPriority == Priorities(groups, owner, key)
    {
      ghost var target := Priorities(groups, owner, key);
      var priorities: map<int, (int, nat)> := map[];
      var todo := groups.Keys;
      while todo != {}
        invariant todo <= groups.Keys
        invariant PartialPriorities(groups, target, priorities, todo)
        decreases |todo|
      {
        NonEmptyHasElement(todo);
        var g :| g in todo;
        PrioritizeStep(groups, owner, key, target, priorities, todo, g);
        priorities := priorities + GroupPriorities(groups[g], g, key);
        todo := todo - {g};
      }
      PrioritizeDone(groups, owner, key, target, priorities);
      itemPriority := priorities;
      dirty := false;
    }

    /** `gp[item]`: recomputes if stale, then the priority or KeyError. */
    method GetItem(item: int) returns (r: Result<(int, nat)>)
      requires Valid()
      modifies this`itemPriority, this`dirty
      ensures Valid() && !dirty
      ensures r == if item in known then Ok(Priorities(groups, owner, key)[item]) else Err(KeyError)
    {
      if dirty {
        Prioritize();
      }
      if item !in itemPriority {
        return Err(KeyError);
      }
      r := Ok(itemPriority[item]);
    }

    /**
     * `get(item)`: None (the default) unless the item is in the priorities
     * last computed; then its fresh priority.
     */
    method Get(item: int) returns (r: Option<(int, nat)>)
      requires Valid()
      modifies this`itemPriority, this`dirty
      ensures Valid()
      ensures r == if item in old(itemPriority) then Some(Priorities(groups, owner, key)[item]) else None
    {
      if item !in itemPriority {
        return None;
      }
      var p := GetItem(item);
      r := Some(p.value);
    }

    /** `items()`: every known item with its priority, recomputed if stale. */
    method Items() returns (r: map<int, (int, nat)>)
      requires Valid()
      modifies this`itemPriority, this`dirty
      ensures Valid() && !dirty
      ensures r == Priorities(groups, owner, key) && r.Keys == known
    {
      if dirty {
        Prioritize();
      }
      r := itemPriority;
    }

    /** `update(items, group)`: the items move to `group` and leave every other group. */
    method Update(items: set<int>, group: int)
      requires Valid()
      modifies this`groups, this`known, this`dirty, this`owner
      ensures Valid() && dirty
      ensures known == old(known) + items
      ensures groups == MoveItems(old(groups), items, group)
    {
      UpdateKeepsValid(groups, owner, known, itemPriority, dirty, key, items, group);
      groups := MoveGroups(groups, items, group);
      known := known + items;
      owner := Reassign(owner, items, group);
      dirty := true;
    }

    /** `group(g)`: the members of `g`, or KeyError when `g` was never updated. */
    function Group(g: int): (r: Result<set<int>>)
      reads this
      ensures r.Ok? <==> g in groups
      ensures r.Ok? ==> r.value == groups[g]
    {
      if g in groups then Ok(groups[g]) else Err(KeyError)
    }
  }
}
