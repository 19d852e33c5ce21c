/**
 * The solver's variable assignment table (simplesat/sat/assignment_set.py).
 *
 * It maps variable ids to True, False or None (known but unassigned), keeps
 * the number of variables whose value is not None, and records a changelog:
 * for every key whose value differs from the one it had when the log was
 * last taken, the pair (value then, value now). A key absent from the table
 * reads as the MISSING marker in the changelog.
 *
 * The operations are first given as functions on a `State` value; the class
 * `AssignmentSet` holds the same three fields and each of its methods is
 * proved to move its fields exactly as the matching function does.
 */
module AssignmentSetModel {
  import opened Wrappers
  import opened SatUtils

  /** A key's slot in the table: absent (MISSING) or holding a value. */
  datatype Slot = Missing | Held(value: Option<bool>)

  /** A changelog entry: the slot when the log was last taken, and the slot now. */
  datatype Change = Change(orig: Slot, latest: Slot)

  datatype State = State(nassigned: int, data: map<int, Option<bool>>, changelog: map<int, Change>)

  /** The outcome of a deletion: the new state and the exception raised, if any. */
  datatype Step = Step(state: State, raised: Option<Error>)

  const Empty := State(0, map[], map[])

  function SlotOf(data: map<int, Option<bool>>, k: int): Slot
  {
    if k in data then Held(data[k]) else Missing
  }

  /** The keys whose value is True or False. */
  function AssignedKeys(data: map<int, Option<bool>>): set<int>
  {
    set k | k in data && data[k].Some?
  }

  /** The table's invariant: the counter is right, and every log entry is a real change ending in the current slot. */
  ghost predicate Valid(st: State)
  {
    && st.nassigned == |AssignedKeys(st.data)|
    && (forall k :: k in st.data ==> k >= 0)
    && (forall k :: k in st.changelog ==>
          st.changelog[k].latest == SlotOf(st.data, k) && st.changelog[k].orig != st.changelog[k].latest)
  }

  /**
   * The changelog describes exactly the difference between `base` (the table
   * when the log was last taken) and the table now.
   */
  ghost predicate LogTracks(st: State, base: map<int, Option<bool>>)
  {
    forall k :: (k in st.changelog <==> SlotOf(base, k) != SlotOf(st.data, k))
           && (k in st.changelog ==> st.changelog[k].orig == SlotOf(base, k))
  }

  /** `_update_changelog(key, value)`: record that `key` now holds `value`. */
  function UpdateChangelog(st: State, k: int, value: Slot): map<int, Change>
  {
    var orig := if k in st.changelog then st.changelog[k].orig else SlotOf(st.data, k);
    if orig == value then st.changelog - {k} else st.changelog[k := Change(orig, value)]
  }

  /** `AS[key] = value`. */
  function Assigned(st: State, k: int, v: Option<bool>): State
    requires k >= 0
  {
    var prev := Status(st.data, k);
    var n := st.nassigned - (if prev.Some? then 1 else 0) + (if v.Some? then 1 else 0);
    State(n, st.data[k := v], UpdateChangelog(st, k, Held(v)))
  }

  /**
   * `del AS[key]` as written: the changelog is updated first, then the key is
   * removed, or KeyError is raised when it is absent. The counter is not
   * touched.
   */
  function DeletedAsWritten(st: State, k: int): Step
  {
    var log := UpdateChangelog(st, k, Missing);
    if k in st.data then Step(State(st.nassigned, st.data - {k}, log), None)
    else Step(State(st.nassigned, st.data, log), Some(KeyError))
  }

  /** `del AS[key]` with the counter decremented when the removed value was assigned. */
  function Deleted(st: State, k: int): Step
  {
    var log := UpdateChangelog(st, k, Missing);
    if k in st.data then
      var n := st.nassigned - (if st.data[k].Some? then 1 else 0);
      Step(State(n, st.data - {k}, log), None)
    else Step(State(st.nassigned, st.data, log), Some(KeyError))
  }

  /** `get_changelog()`: the log taken, and the state with an empty log. */
  function GetChangelog(st: State): (map<int, Change>, State)
  {
    (st.changelog, st.(changelog := map[]))
  }

  lemma AssignedKeysUpdate(data: map<int, Option<bool>>, k: int, v: Option<bool>)
    ensures AssignedKeys(data[k := v]) == (AssignedKeys(data) - {k}) + (if v.Some? then {k} else {})
  {
  }

  lemma AssignedKeysRemove(data: map<int, Option<bool>>, k: int)
    ensures AssignedKeys(data - {k}) == AssignedKeys(data) - {k}
  {
  }

  lemma EmptyValid()
    ensures Valid(Empty) && LogTracks(Empty, map[])
  {
    assert AssignedKeys(map[]) == {};
  }

  /** `__setitem__` keeps the counter equal to the number of keys whose value is not None. */
  lemma {:induction false} SetItemCount(st: State, k: int, v: Option<bool>)
    requires st.nassigned == |AssignedKeys(st.data)| && k >= 0
    ensures Assigned(st, k, v).nassigned == |AssignedKeys(st.data[k := v])|
  {
    AssignedKeysUpdate(st.data, k, v);
    var a := AssignedKeys(st.data);
    if k in a {
      assert |a - {k}| == |a| - 1;
    } else {
      assert a - {k} == a;
    }
  }

  /** `__setitem__` keeps the table's invariant. */
  lemma {:induction false} SetItemValid(st: State, k: int, v: Option<bool>)
    requires Valid(st) && k >= 0
    ensures Valid(Assigned(st, k, v))
  {
    SetItemCount(st, k, v);
    var st' := Assigned(st, k, v);
    forall j | j in st'.changelog
      ensures st'.changelog[j].latest == SlotOf(st'.data, j) && st'.changelog[j].orig != st'.changelog[j].latest
    {
      if j != k {
        assert SlotOf(st'.data, j) == SlotOf(st.data, j);
      }
    }
  }

  /** After `AS[k] = v` the log still describes the difference from the last time it was taken. */
  lemma {:induction false} SetItemTracks(st: State, base: map<int, Option<bool>>, k: int, v: Option<bool>)
    requires LogTracks(st, base) && k >= 0
    ensures LogTracks(Assigned(st, k, v), base)
  {
    var st' := Assigned(st, k, v);
    forall j
      ensures (j in st'.changelog <==> SlotOf(base, j) != SlotOf(st'.data, j))
      ensures (j in st'.changelog ==> st'.changelog[j].orig == SlotOf(base, j))
    {
      if j != k {
        assert SlotOf(st'.data, j) == SlotOf(st.data, j);
      }
    }
  }

  /** Reading a key right after writing it gives the written value. */
  lemma SetItemThenGet(st: State, k: int, v: Option<bool>, j: int)
    requires k >= 0
    ensures Status(Assigned(st, k, v).data, j) == if j == k then v else Status(st.data, j)
  {
  }

  /** The counted deletion keeps the table's invariant and the meaning of the log. */
  lemma {:induction false} DelItemValid(st: State, base: map<int, Option<bool>>, k: int)
    requires Valid(st) && LogTracks(st, base)
    ensures Valid(Deleted(st, k).state) && LogTracks(Deleted(st, k).state, base)
    ensures Deleted(st, k).raised == (if k in st.data then None else Some(KeyError))
  {
    var st' := Deleted(st, k).state;
    var a := AssignedKeys(st.data);
    if k in st.data {
      AssignedKeysRemove(st.data, k);
      if k in a {
        assert |a - {k}| == |a| - 1;
      } else {
        assert a - {k} == a;
      }
    } else {
      DelMissingUnchanged(st, k);
    }
    forall j
      ensures (j in st'.changelog <==> SlotOf(base, j) != SlotOf(st'.data, j))
      ensures (j in st'.changelog ==> st'.changelog[j].orig == SlotOf(base, j))
    {
      if j != k {
        assert SlotOf(st'.data, j) == SlotOf(st.data, j);
      }
    }
  }

  /** Deleting an absent key raises KeyError and, on a valid table, changes nothing. */
  lemma DelMissingUnchanged(st: State, k: int)
    requires Valid(st) && k !in st.data
    ensures Deleted(st, k) == Step(st, Some(KeyError))
    ensures DeletedAsWritten(st, k) == Step(st, Some(KeyError))
  {
    if k in st.changelog {
      assert st.changelog[k := Change(st.changelog[k].orig, Missing)] == st.changelog;
    } else {
      assert st.changelog - {k} == st.changelog;
    }
  }

  /**
   * The deletion as written leaves the counter too high: assign key 0 then
   * delete it, and the counter says 1 while no key is assigned.
   */
  lemma DelItemAsWrittenMiscounts()
    ensures Valid(Assigned(Empty, 0, Some(true)))
    ensures DeletedAsWritten(Assigned(Empty, 0, Some(true)), 0).state.nassigned == 1
    ensures AssignedKeys(DeletedAsWritten(Assigned(Empty, 0, Some(true)), 0).state.data) == {}
    ensures !Valid(DeletedAsWritten(Assigned(Empty, 0, Some(true)), 0).state)
  {
    EmptyValid();
    SetItemValid(Empty, 0, Some(true));
    var st := DeletedAsWritten(Assigned(Empty, 0, Some(true)), 0).state;
    assert st.data == map[];
    assert AssignedKeys(st.data) == {};
  }

  /** Taking the log empties it, and the empty log describes the table as it is now. */
  lemma GetChangelogResets(st: State)
    requires Valid(st)
    ensures GetChangelog(st).0 == st.changelog
    ensures Valid(GetChangelog(st).1) && LogTracks(GetChangelog(st).1, st.data)
    ensures GetChangelog(st).1.data == st.data && GetChangelog(st).1.changelog == map[]
  {
  }

  /** The counter never exceeds the number of keys, which includes those mapped to None. */
  lemma NumAssignedAtMostLen(st: State)
    requires Valid(st)
    ensures st.nassigned <= |st.data.Keys|
  {
    assert AssignedKeys(st.data) <= st.data.Keys;
    SubsetCard(AssignedKeys(st.data), st.data.Keys);
  }

  lemma SubsetCard(a: set<int>, b: set<int>)
    requires a <= b
    ensures |a| <= |b|
  {
    assert b == a + (b - a);
  }

  /** The state with `drift` taken off the counter. */
  function Uncounted(st: State, drift: int): State
  {
    st.(nassigned := st.nassigned - drift)
  }

  /** An assignment moves the counter the same way whatever it is off by. */
  lemma SetItemUncounted(st: State, drift: int, k: int, v: Option<bool>)
    requires k >= 0
    ensures Uncounted(Assigned(st, k, v), drift) == Assigned(Uncounted(st, drift), k, v)
  {
  }

  /**
   * The deletion as written is the counted one with the counter off by one
   * more when the deleted value was assigned.
   */
  lemma DelItemAsWrittenDrift(st: State, drift: int, k: int)
    ensures DeletedAsWritten(st, k).raised == Deleted(Uncounted(st, drift), k).raised
    ensures Uncounted(DeletedAsWritten(st, k).state, drift + (if Status(st.data, k).Some? then 1 else 0))
         == Deleted(Uncounted(st, drift), k).state
  {
  }

  class AssignmentSet {
    var nassigned: int
    var data: map<int, Option<bool>>
    var changelog: map<int, Change>
    /** The table as it was when the changelog was last taken. */
    ghost var baseline: map<int, Option<bool>>
    /** How many assigned values `del` has removed: the counter still counts them. */
    ghost var deletedAssigned: nat

    function Snapshot(): State
      reads this
    {
      State(nassigned, data, changelog)
    }

    /** The invariant, with the counter off by the assigned values deleted so far. */
    ghost predicate Inv()
      reads this
    {
      Valid(Uncounted(Snapshot(), deletedAssigned)) && LogTracks(Snapshot(), baseline)
    }

    constructor ()
      ensures Inv() && Snapshot() == Empty && baseline == map[] && deletedAssigned == 0
    {
      nassigned := 0;
      data := map[];
      changelog := map[];
      baseline := map[];
      deletedAssigned := 0;
      new;
      EmptyValid();
    }

    /** `AS[key] = value`; the key must not be negative. */
    method SetItem(key: int, value: Option<bool>)
      requires Inv() && key >= 0
      modifies this
      ensures Inv() && baseline == old(baseline) && deletedAssigned == old(deletedAssigned)
      ensures Snapshot() == Assigned(old(Snapshot()), key, value)
    {
      SetItemUncounted(Snapshot(), deletedAssigned, key, value);
      SetItemValid(Uncounted(Snapshot(), deletedAssigned), key, value);
      SetItemTracks(Snapshot(), baseline, key, value);
      var prev := Get(key);
      if prev.Some? {
        nassigned := nassigned - 1;
      }
      if value.Some? {
        nassigned := nassigned + 1;
      }
      UpdateLog(key, Held(value));
      data := data[key := value];
    }

    /** `_update_changelog(key, value)`. */
    method UpdateLog(key: int, value: Slot)
      modifies this`changelog
      ensures changelog == UpdateChangelog(old(Snapshot()), key, value)
    {
      var orig: Slot;
      if key in changelog {
        orig := changelog[key].orig;
      } else if key in data {
        orig := Held(data[key]);
      } else {
        orig := Missing;
      }
      if orig == value {
        changelog := changelog - {key};
      } else {
        changelog := changelog[key := Change(orig, value)];
      }
    }

    /**
     * `del AS[key]`: the changelog records the key as missing, then the key
     * is removed, or KeyError is raised when it is absent. The counter is
     * left as it was, so it goes on counting a removed assigned value.
     */
    method DelItem(key: int) returns (raised: Option<Error>)
      requires Inv()
      modifies this
      ensures Inv() && baseline == old(baseline)
      ensures Step(Snapshot(), raised) == DeletedAsWritten(old(Snapshot()), key)
      ensures deletedAssigned == old(deletedAssigned) + (if Status(old(data), key).Some? then 1 else 0)
      ensures raised == (if key in old(data) then None else Some(KeyError))
    {
      ghost var drift := if Status(data, key).Some? then 1 else 0;
      DelItemAsWrittenDrift(Snapshot(), deletedAssigned, key);
      DelItemValid(Uncounted(Snapshot(), deletedAssigned), baseline, key);
      UpdateLog(key, Missing);
      if key !in data {
        return Some(KeyError);
      }
      data := data - {key};
      deletedAssigned := deletedAssigned + drift;
      raised := None;
    }

    /** `AS.get(key)`: None for a missing key as for a key mapped to None. */
    function Get(key: int): (r: Option<bool>)
      reads this
      ensures r.Some? <==> key in data && data[key].Some?
      ensures r.Some? ==> r.value == data[key].value
    {
      Status(data, key)
    }

    /** `len(AS)`: every key, including those mapped to None. */
    function Len(): (n: nat)
      reads this
      requires Inv()
      ensures n == |data.Keys| && n >= nassigned - deletedAssigned
    {
      NumAssignedAtMostLen(Uncounted(Snapshot(), deletedAssigned));
      |data.Keys|
    }

    /** `key in AS`. */
    function Contains(key: int): (b: bool)
      reads this
      ensures b <==> SlotOf(data, key).Held?
    {
      key in data
    }

    /**
     * `AS.num_assigned`: the number of keys mapped to True or False, plus
     * the assigned values deleted so far.
     */
    function NumAssigned(): (n: int)
      reads this
      requires Inv()
      ensures n == |AssignedKeys(data)| + deletedAssigned
    {
      nassigned
    }

    /** `get_changelog()`: returns the log and starts a fresh one. */
    method TakeChangelog() returns (log: map<int, Change>)
      requires Inv()
      modifies this
      ensures Inv() && log == old(changelog) && changelog == map[]
      ensures data == old(data) && nassigned == old(nassigned) && baseline == data
      ensures deletedAssigned == old(deletedAssigned)
    {
      GetChangelogResets(Uncounted(Snapshot(), deletedAssigned));
      log := changelog;
      changelog := map[];
      baseline := data;
    }

    /** `copy()`: a new, separate table with the same contents, counter and log. */
    method Copy() returns (c: AssignmentSet)
      requires Inv()
      ensures fresh(c) && c.Inv() && c.Snapshot() == Snapshot() && c.baseline == baseline
      ensures c.deletedAssigned == deletedAssigned
    {
      c := new AssignmentSet();
      c.data := data;
      c.changelog := changelog;
      c.nassigned := nassigned;
      c.baseline := baseline;
      c.deletedAssigned := deletedAssigned;
    }
  }
}
