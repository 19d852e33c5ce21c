/**
 * The lazy-deletion priority queue and the group prioritizer
 * (simplesat/priority_queue.py).
 *
 * Each queued task has one live entry (priority, id, task); the id comes from
 * a counter that advances on every `push`, so among equal priorities the
 * earlier push wins. Removing a task only marks its entry; marked entries are
 * skipped when they reach the top. What a caller can observe is the map from
 * live tasks to their (priority, id) key and the counter: `QState` below, with
 * `PushQ`, `PopQ` and `PopN` saying what `push`, `pop` and `pop_many` do to
 * it. The class keeps the entry list itself and is proved to move that map as
 * those functions do.
 */
module PriorityQueueModel {
  import opened Wrappers
  import opened SeqUtil
  import opened SetFacts

  /** The sort key of an entry: priority, then insertion id. */
  datatype Key = Key(priority: int, id: nat)

  predicate Before(a: Key, b: Key)
  {
    a.priority < b.priority || (a.priority == b.priority && a.id < b.id)
  }

  /** A heap entry `[priority, id, task]`. */
  datatype Entry = Entry(priority: int, id: nat, task: int)

  function KeyOf(e: Entry): Key
  {
    Key(e.priority, e.id)
  }

  /** What the queue shows its callers: each live task's key, and the id counter. */
  datatype QState = QState(finder: map<int, Key>, nextId: nat)

  const EmptyQ := QState(map[], 0)

  ghost predicate DistinctIds(f: map<int, Key>)
  {
    forall t, u :: t in f && u in f && t != u ==> f[t].id != f[u].id
  }

  ghost predicate QValid(q: QState)
  {
    DistinctIds(q.finder) && forall t :: t in q.finder ==> q.finder[t].id < q.nextId
  }

  /** `t` is the live task that `pop` returns: its key comes before every other. */
  ghost predicate IsMinTask(f: map<int, Key>, t: int)
  {
    t in f && forall u :: u in f && u != t ==> Before(f[t], f[u])
  }

  /** `push(task, priority)`: a new id is drawn; the same task at the same priority is left as it is. */
  function PushQ(q: QState, task: int, priority: int): (r: QState)
    ensures task in r.finder && r.finder[task].priority == priority
    ensures task in q.finder && q.finder[task].priority == priority ==> r.finder == q.finder
    ensures !(task in q.finder && q.finder[task].priority == priority) ==> r.finder[task].id == q.nextId
    ensures forall t :: t != task ==> (t in r.finder <==> t in q.finder)
    ensures forall t :: t in q.finder && t != task ==> r.finder[t] == q.finder[t]
    ensures r.nextId == q.nextId + 1
  {
    var id := q.nextId;
    if task in q.finder && q.finder[task].priority == priority then q.(nextId := id + 1)
    else QState(q.finder[task := Key(priority, id)], id + 1)
  }

  lemma PushQValid(q: QState, task: int, priority: int)
    requires QValid(q)
    ensures QValid(PushQ(q, task, priority))
  {
  }

  lemma {:induction false} MinTaskExists(f: map<int, Key>)
    requires f != map[] && DistinctIds(f)
    ensures exists t :: IsMinTask(f, t)
    decreases |f.Keys|
  {
    var t := PickKey(f);
    var rest := f - {t};
    if forall u :: u in f ==> u == t {
      assert IsMinTask(f, t);
    } else {
      var other :| other in f && other != t;
      assert other in rest;
      assert |rest.Keys| < |f.Keys| by {
        assert rest.Keys == f.Keys - {t};
      }
      MinTaskExists(rest);
      var m :| IsMinTask(rest, m);
      if Before(f[t], f[m]) {
        assert IsMinTask(f, t) by {
          forall u | u in f && u != t ensures Before(f[t], f[u]) {
            if u != m {
              assert u in rest && Before(rest[m], rest[u]);
            }
          }
        }
      } else {
        assert f[t].id != f[m].id;
        assert IsMinTask(f, m) by {
          forall u | u in f && u != m ensures Before(f[m], f[u]) {
            if u != t {
              assert u in rest;
            }
          }
        }
      }
    }
  }

  /** At most one task is the minimum. */
  lemma MinTaskUnique(f: map<int, Key>, t: int, u: int)
    requires IsMinTask(f, t) && IsMinTask(f, u)
    ensures t == u
  {
  }

  ghost function MinTask(f: map<int, Key>): (t: int)
    requires f != map[] && DistinctIds(f)
    ensures IsMinTask(f, t)
  {
    MinTaskExists(f);
    var t :| IsMinTask(f, t);
    t
  }

  /** `pop()`: a task with the least (priority, id), removed; KeyError when no task is live. */
  ghost function PopQ(q: QState): (r: Result<(int, QState)>)
    requires QValid(q)
    ensures r.Err? <==> q.finder == map[]
    ensures r.Err? ==> r.error == KeyError
    ensures r.Ok? ==> (IsMinTask(q.finder, r.value.0)
                       && r.value.1 == QState(q.finder - {r.value.0}, q.nextId) && QValid(r.value.1))
  {
    if q.finder == map[] then Err(KeyError)
    else
      var t := MinTask(q.finder);
      Ok((t, QState(q.finder - {t}, q.nextId)))
  }

  /** The outcome of the remaining pops, with what was popped so far put in front. */
  function Prepend(done: seq<int>, r: (Result<seq<int>>, QState)): (Result<seq<int>>, QState)
  {
    if r.0.Err? then r else (Ok(done + r.0.value), r.1)
  }

  lemma PrependTwice(a: seq<int>, b: seq<int>, r: (Result<seq<int>>, QState))
    ensures Prepend(a, Prepend(b, r)) == Prepend(a + b, r)
  {
    if r.0.Ok? {
      assert a + (b + r.0.value) == (a + b) + r.0.value;
    }
  }

  /**
   * `pop_many(n)`: `n` pops in a row. KeyError when fewer than `n` tasks are
   * live; the pops done before the error stay done, so the queue is then empty.
   */
  ghost function PopN(q: QState, n: nat): (r: (Result<seq<int>>, QState))
    requires QValid(q)
    ensures QValid(r.1)
    ensures r.0.Ok? <==> n <= |q.finder.Keys|
    ensures r.0.Ok? ==> |r.0.value| == n && |r.1.finder.Keys| == |q.finder.Keys| - n
    ensures r.0.Err? ==> r.1.finder == map[] && r.0.error == KeyError
    decreases n
  {
    if n == 0 then (Ok([]), q)
    else match PopQ(q)
      case Err(e) => (Err(e), q)
      case Ok((t, q')) =>
        assert q'.finder.Keys == q.finder.Keys - {t};
        Prepend([t], PopN(q', n - 1))
  }

  function PushAll(q: QState, tasks: seq<int>, priority: int): QState
    decreases |tasks|
  {
    if tasks == [] then q
    else PushAll(PushQ(q, tasks[0], priority), tasks[1..], priority)
  }

  /** The finder after pushing `tasks` (all distinct) at one priority, ids from `base`. */
  ghost predicate Layout(f: map<int, Key>, tasks: seq<int>, priority: int, base: nat)
  {
    && (forall t :: t in f <==> t in tasks)
    && (forall i :: 0 <= i < |tasks| ==> f[tasks[i]] == Key(priority, base + i))
  }

  lemma {:induction false} PushAllLayout(q: QState, done: seq<int>, tasks: seq<int>, priority: int, base: nat)
    requires NoDup(done + tasks)
    requires Layout(q.finder, done, priority, base) && q.nextId == base + |done|
    ensures Layout(PushAll(q, tasks, priority).finder, done + tasks, priority, base)
    decreases |tasks|
  {
    if tasks == [] {
      assert done + tasks == done;
    } else {
      var t := tasks[0];
      assert t !in done by {
        assert (done + tasks)[|done|] == t;
        forall i | 0 <= i < |done| ensures done[i] != t {
          assert (done + tasks)[i] == done[i];
        }
      }
      var q' := PushQ(q, t, priority);
      assert done + tasks == (done + [t]) + tasks[1..];
      assert Layout(q'.finder, done + [t], priority, base);
      PushAllLayout(q', done + [t], tasks[1..], priority, base);
    }
  }

  /** Popping a queue laid out by `Layout` gives its tasks back in order. */
  lemma {:induction false} PopNLayout(q: QState, tasks: seq<int>, priority: int, base: nat)
    requires NoDup(tasks) && Layout(q.finder, tasks, priority, base) && QValid(q)
    ensures PopN(q, |tasks|).0 == Ok(tasks)
    decreases |tasks|
  {
    if tasks != [] {
      var t := tasks[0];
      assert IsMinTask(q.finder, t) by {
        forall u | u in q.finder && u != t ensures Before(q.finder[t], q.finder[u]) {
          var i := FirstIndex(tasks, u);
        }
      }
      var r := PopQ(q);
      MinTaskUnique(q.finder, t, r.value.0);
      var q' := r.value.1;
      assert Layout(q'.finder, tasks[1..], priority, base + 1) by {
        forall u ensures u in q'.finder <==> u in tasks[1..] {
          if u in tasks[1..] {
            var i := FirstIndex(tasks[1..], u);
            assert tasks[1 + i] == u;
          }
          if u in tasks && u != t {
            var i := FirstIndex(tasks, u);
            assert tasks[1..][i - 1] == u;
          }
        }
        forall i | 0 <= i < |tasks| - 1 ensures q'.finder[tasks[1..][i]] == Key(priority, base + 1 + i) {
          assert tasks[1..][i] == tasks[i + 1];
        }
      }
      PopNLayout(q', tasks[1..], priority, base + 1);
      assert [t] + tasks[1..] == tasks;
    }
  }

  lemma {:induction false} LayoutSize(f: map<int, Key>, tasks: seq<int>, priority: int, base: nat)
    requires NoDup(tasks) && Layout(f, tasks, priority, base)
    ensures |f.Keys| == |tasks|
  {
    assert f.Keys == ElementSet(tasks) by {
      forall x ensures x in f.Keys <==> x in ElementSet(tasks) {
        assert x in f <==> x in tasks;
      }
    }
    NoDupElementSet(tasks);
  }

  lemma {:induction false} PushAllValid(q: QState, tasks: seq<int>, priority: int)
    requires QValid(q)
    ensures QValid(PushAll(q, tasks, priority))
    decreases |tasks|
  {
    if tasks != [] {
      PushQValid(q, tasks[0], priority);
      PushAllValid(PushQ(q, tasks[0], priority), tasks[1..], priority);
    }
  }

  /** Distinct tasks pushed at one priority come back out of `pop_many()` in push order. */
  lemma EqualPriorityFifo(tasks: seq<int>, priority: int)
    requires NoDup(tasks)
    ensures QValid(PushAll(EmptyQ, tasks, priority))
    ensures var q := PushAll(EmptyQ, tasks, priority);
            PopN(q, |q.finder.Keys|).0 == Ok(tasks)
  {
    var q := PushAll(EmptyQ, tasks, priority);
    PushAllValid(EmptyQ, tasks, priority);
    assert [] + tasks == tasks;
    PushAllLayout(EmptyQ, [], tasks, priority, 0);
    LayoutSize(q.finder, tasks, priority, 0);
    PopNLayout(q, tasks, priority, 0);
  }

  /** The index `heappop` takes: an entry no other entry's (priority, id) comes before. */
  function MinIndex(pq: seq<Entry>): (m: nat)
    requires pq != []
    ensures m < |pq|
    ensures forall i :: 0 <= i < |pq| ==> !Before(KeyOf(pq[i]), KeyOf(pq[m]))
  {
    if |pq| == 1 then 0
    else
      var m := MinIndex(pq[1..]);
      assert forall i :: 1 <= i < |pq| ==> pq[i] == pq[1..][i - 1];
      if Before(KeyOf(pq[1 + m]), KeyOf(pq[0])) then 1 + m else 0
  }

  /** The entry list without the entry at `m`. */
  function RemoveAt(s: seq<Entry>, m: nat): (r: seq<Entry>)
    requires m < |s|
    ensures |r| == |s| - 1
    ensures forall i :: 0 <= i < |r| ==> r[i] == s[if i < m then i else i + 1]
  {
    s[..m] + s[m + 1..]
  }

  lemma RemoveAtKeeps(s: seq<Entry>, m: nat, x: Entry)
    requires m < |s| && x in s && x != s[m]
    ensures x in RemoveAt(s, m)
  {
    var i := FirstIndex(s, x);
    if i < m {
      assert RemoveAt(s, m)[i] == x;
    } else {
      assert RemoveAt(s, m)[i - 1] == x;
    }
  }

  /**
   * How the entry list, the finder, the marked ids and the counter fit
   * together. A removed entry is one whose id is in `dead`: the entry object
   * is shared between the list and the finder in the source, so marking it
   * marks the listed entry.
   */
  ghost predicate HeapValid(pq: seq<Entry>, finder: map<int, Key>, dead: set<nat>, nextId: nat)
  {
    && QValid(QState(finder, nextId))
    && (forall d :: d in dead ==> d < nextId)
    && (forall i :: 0 <= i < |pq| ==> pq[i].id < nextId)
    && (forall i, j :: 0 <= i < j < |pq| ==> pq[i].id != pq[j].id)
    && (forall i :: 0 <= i < |pq| && pq[i].id !in dead ==>
          pq[i].task in finder && finder[pq[i].task] == KeyOf(pq[i]))
    && (forall t :: t in finder ==>
          finder[t].id !in dead && Entry(finder[t].priority, finder[t].id, t) in pq)
  }

  lemma EmptyHeapNoTasks(finder: map<int, Key>, dead: set<nat>, nextId: nat)
    requires HeapValid([], finder, dead, nextId)
    ensures finder == map[]
  {
    if finder != map[] {
      var t := PickKey(finder);
      assert false;
    }
  }

  /** A live entry no entry comes before holds the minimum task. */
  lemma LiveMinTask(pq: seq<Entry>, finder: map<int, Key>, dead: set<nat>, nextId: nat, m: nat)
    requires HeapValid(pq, finder, dead, nextId) && m < |pq| && pq[m].id !in dead
    requires forall i :: 0 <= i < |pq| ==> !Before(KeyOf(pq[i]), KeyOf(pq[m]))
    ensures pq[m].task in finder && finder[pq[m].task] == KeyOf(pq[m])
    ensures IsMinTask(finder, pq[m].task)
  {
    var task := pq[m].task;
    forall u | u in finder && u != task ensures Before(finder[task], finder[u]) {
      var i := FirstIndex(pq, Entry(finder[u].priority, finder[u].id, u));
      assert finder[u].id != finder[task].id;
    }
  }

  /** Taking a live entry off the list takes its task out of the finder. */
  lemma DropLive(pq: seq<Entry>, finder: map<int, Key>, dead: set<nat>, nextId: nat, m: nat)
    requires HeapValid(pq, finder, dead, nextId) && m < |pq| && pq[m].id !in dead
    ensures HeapValid(RemoveAt(pq, m), finder - {pq[m].task}, dead, nextId)
    ensures forall i :: 0 <= i < |RemoveAt(pq, m)| ==> RemoveAt(pq, m)[i].id != pq[m].id
  {
    var rest := RemoveAt(pq, m);
    var task := pq[m].task;
    forall i | 0 <= i < |rest| && rest[i].id !in dead
      ensures rest[i].task in finder - {task} && finder[rest[i].task] == KeyOf(rest[i])
    {
      var j := if i < m then i else i + 1;
      assert rest[i] == pq[j] && pq[j].id != pq[m].id;
    }
    forall t | t in finder - {task}
      ensures Entry(finder[t].priority, finder[t].id, t) in rest
    {
      RemoveAtKeeps(pq, m, Entry(finder[t].priority, finder[t].id, t));
    }
  }

  /** Taking a marked entry off the list changes nothing a caller sees. */
  lemma DropDead(pq: seq<Entry>, finder: map<int, Key>, dead: set<nat>, nextId: nat, m: nat)
    requires HeapValid(pq, finder, dead, nextId) && m < |pq| && pq[m].id in dead
    ensures HeapValid(RemoveAt(pq, m), finder, dead, nextId)
  {
    var rest := RemoveAt(pq, m);
    forall t | t in finder
      ensures Entry(finder[t].priority, finder[t].id, t) in rest
    {
      RemoveAtKeeps(pq, m, Entry(finder[t].priority, finder[t].id, t));
    }
  }

  /** `remove(task)`: the given task leaves the finder and its entry is marked. */
  lemma MarkRemoved(pq: seq<Entry>, finder: map<int, Key>, dead: set<nat>, nextId: nat, task: int)
    requires HeapValid(pq, finder, dead, nextId) && task in finder
    ensures HeapValid(pq, finder - {task}, dead + {finder[task].id}, nextId)
  {
  }

  /** A fresh entry for a task that has none. */
  lemma AppendFresh(pq: seq<Entry>, finder: map<int, Key>, dead: set<nat>, nextId: nat, e: Entry)
    requires HeapValid(pq, finder, dead, nextId)
    requires e.id < nextId && e.id !in dead && e.task !in finder
    requires forall i :: 0 <= i < |pq| ==> pq[i].id != e.id
    requires forall t :: t in finder ==> finder[t].id != e.id
    ensures HeapValid(pq + [e], finder[e.task := KeyOf(e)], dead, nextId)
  {
    var pq' := pq + [e];
    assert forall i :: 0 <= i < |pq| ==> pq'[i] == pq[i];
    forall t | t in finder ensures Entry(finder[t].priority, finder[t].id, t) in pq' {
      var i := FirstIndex(pq, Entry(finder[t].priority, finder[t].id, t));
      assert pq'[i] == pq[i];
    }
    assert pq'[|pq|] == e;
  }

  class PriorityQueue {
    /** The entries, in no particular order (the heap layout is not modelled). */
    var pq: seq<Entry>
    var finder: map<int, Key>
    /** Ids of entries whose task was removed (the REMOVED_TASK mark). */
    var dead: set<nat>
    var nextId: nat

    function Abstract(): QState
      reads this
    {
      QState(finder, nextId)
    }

    /** Tasks of entries not marked removed. */
    ghost function LiveTasks(): set<int>
      reads this
    {
      set i | 0 <= i < |pq| && pq[i].id !in dead :: pq[i].task
    }

    ghost predicate Valid()
      reads this
    {
      HeapValid(pq, finder, dead, nextId)
    }

    lemma LiveTasksAreFinder()
      requires Valid()
      ensures LiveTasks() == finder.Keys
    {
      forall t | t in finder ensures t in LiveTasks() {
        var i := FirstIndex(pq, Entry(finder[t].priority, finder[t].id, t));
        assert pq[i].task == t;
      }
    }

    constructor ()
      ensures Valid() && Abstract() == EmptyQ && pq == []
    {
      pq := [];
      finder := map[];
      dead := {};
      nextId := 0;
    }

    /** `len(pq)`: the number of live tasks. */
    function Len(): (n: nat)
      reads this
      requires Valid()
      ensures n == |LiveTasks()|
    {
      LiveTasksAreFinder();
      |finder.Keys|
    }

    /** `bool(pq)`: some task is live. */
    function NonEmpty(): (b: bool)
      reads this
      requires Valid()
      ensures b <==> LiveTasks() != {}
    {
      Len() != 0
    }

    /** `task in pq`: the given task has a live entry. */
    function Contains(task: int): (b: bool)
      reads this
      requires Valid()
      ensures b <==> task in LiveTasks()
    {
      LiveTasksAreFinder();
      task in finder
    }

    /** `clear()`: no entry and no task left; the id counter keeps counting. */
    method Clear()
      requires Valid()
      modifies this
      ensures Valid() && Abstract() == QState(map[], old(nextId)) && pq == []
    {
      pq := [];
      finder := map[];
    }

    /** `remove(task)`: KeyError when the given task is not live; otherwise its entry is marked removed. */
    method Remove(task: int) returns (raised: Option<Error>)
      requires Valid()
      modifies this
      ensures Valid() && pq == old(pq) && nextId == old(nextId)
      ensures raised == (if task in old(finder) then None else Some(KeyError))
      ensures finder == old(finder) - {task}
      ensures dead == old(dead) + (if task in old(finder) then {old(finder)[task].id} else {})
    {
      if task !in finder {
        return Some(KeyError);
      }
      var entry := finder[task];
      MarkRemoved(pq, finder, dead, nextId, task);
      finder := finder - {task};
      dead := dead + {entry.id};
      raised := None;
    }

    /** `discard(task)`: like `remove`, but an absent task is not an error. */
    method Discard(task: int)
      requires Valid()
      modifies this
      ensures Valid() && pq == old(pq) && nextId == old(nextId)
      ensures finder == old(finder) - {task}
    {
      var _ := Remove(task);
    }

    /**
     * `_push(priority, id, task)`: a live task at the same priority is left
     * alone; otherwise its entry (if any) is marked and a new one added. A new
     * entry needs an id that no entry and no mark uses yet.
     */
    method PushEntry(priority: int, id: nat, task: int)
      requires Valid()
      requires !(task in finder && finder[task].priority == priority) ==>
                 && id < nextId && id !in dead
                 && (forall i :: 0 <= i < |pq| ==> pq[i].id != id)
                 && (forall t :: t in finder ==> finder[t].id != id)
      modifies this
      ensures Valid() && nextId == old(nextId)
      ensures finder == if task in old(finder) && old(finder)[task].priority == priority then old(finder)
                        else old(finder)[task := Key(priority, id)]
    {
      if task in finder {
        var oldPriority := finder[task].priority;
        if priority == oldPriority {
          return;
        }
        var _ := Remove(task);
      }
      var entry := Entry(priority, id, task);
      AppendFresh(pq, finder, dead, nextId, entry);
      finder := finder[task := Key(priority, id)];
      pq := pq + [entry];
    }

    /** `push(task, priority)`. */
    method Push(task: int, priority: int)
      requires Valid()
      modifies this
      ensures Valid() && Abstract() == PushQ(old(Abstract()), task, priority)
    {
      var id := nextId;
      nextId := nextId + 1;
      PushEntry(priority, id, task);
    }

    /**
     * `_pop()`: take entries off the top until a live one appears; that entry
     * holds the least live task. KeyError when the entries run out.
     */
    method PopEntry() returns (r: Result<Entry>)
      requires Valid()
      modifies this
      ensures Valid() && nextId == old(nextId) && dead == old(dead)
      ensures r.Err? <==> old(finder) == map[]
      ensures r.Err? ==> r.error == KeyError && finder == old(finder) && pq == []
      ensures r.Ok? ==> && IsMinTask(old(finder), r.value.task)
                        && KeyOf(r.value) == old(finder)[r.value.task]
                        && finder == old(finder) - {r.value.task}
                        && r.value.id !in dead
                        && (forall i :: 0 <= i < |pq| ==> pq[i].id != r.value.id)
    {
      while pq != []
        invariant Valid() && finder == old(finder) && nextId == old(nextId) && dead == old(dead)
        decreases |pq|
      {
        var m := MinIndex(pq);
        var entry := pq[m];
        if entry.id !in dead {
          LiveMinTask(pq, finder, dead, nextId, m);
          DropLive(pq, finder, dead, nextId, m);
          pq := RemoveAt(pq, m);
          finder := finder - {entry.task};
          return Ok(entry);
        }
        DropDead(pq, finder, dead, nextId, m);
        pq := RemoveAt(pq, m);
      }
      EmptyHeapNoTasks(finder, dead, nextId);
      r := Err(KeyError);
    }

    /** `pop()`: the live task with the least (priority, id), removed. */
    method Pop() returns (r: Result<int>)
      requires Valid()
      modifies this
      ensures Valid()
      ensures r.Ok? ==> PopQ(old(Abstract())) == Ok((r.value, Abstract()))
      ensures r.Err? ==> PopQ(old(Abstract())) == Err(KeyError) && r == Err(KeyError)
                         && Abstract() == old(Abstract())
    {
      var e := PopEntry();
      if e.Err? {
        return Err(KeyError);
      }
      MinTaskUnique(old(finder), e.value.task, MinTask(old(finder)));
      r := Ok(e.value.task);
    }

    /**
     * `peek()`: what `pop` would return, without removing it. A marked
     * entry on top makes it pop the least live entry and push it back with its
     * own priority and id.
     */
    method Peek() returns (r: Result<int>)
      requires Valid()
      modifies this
      ensures Valid() && Abstract() == old(Abstract())
      ensures r.Err? <==> old(finder) == map[]
      ensures r.Err? ==> r.error == KeyError
      ensures r.Ok? ==> PopQ(old(Abstract())).Ok? && PopQ(old(Abstract())).value.0 == r.value
    {
      ghost var f0 := finder;
      if pq == [] {
        EmptyHeapNoTasks(finder, dead, nextId);
        return Err(KeyError);
      }
      var m := MinIndex(pq);
      var entry := pq[m];
      if entry.id in dead {
        var popped := PopEntry();
        if popped.Err? {
          return Err(KeyError);
        }
        entry := popped.value;
        assert forall t :: t in finder ==> finder[t].id != entry.id by {
          assert DistinctIds(f0);
        }
        PushEntry(entry.priority, entry.id, entry.task);
        assert finder == f0;
      } else {
        LiveMinTask(pq, finder, dead, nextId, m);
        PushEntry(entry.priority, entry.id, entry.task);
      }
      MinTaskUnique(f0, entry.task, MinTask(f0));
      r := Ok(entry.task);
    }

    /** `pop_many(n)`; with no `n`, as many pops as there are live tasks. */
    method PopMany(n: Option<nat>) returns (r: Result<seq<int>>)
      requires Valid()
      modifies this
      ensures Valid()
      ensures (r, Abstract()) == PopN(old(Abstract()), if n.Some? then n.value else |old(finder).Keys|)
    {
      ghost var q0 := Abstract();
      var count := if n.Some? then n.value else Len();
      LiveTasksAreFinder();
      var result := [];
      var i := 0;
      PrependNothing(PopN(q0, count));
      while i < count
        invariant Valid() && 0 <= i <= count && QValid(q0)
        invariant PopN(q0, count) == Prepend(result, PopN(Abstract(), count - i))
      {
        ghost var before := Abstract();
        var p := Pop();
        if p.Err? {
          PopNFail(before, count - i);
          return Err(KeyError);
        }
        PopManyStep(q0, count, result, i, before, p.value, Abstract());
        result := result + [p.value];
        i := i + 1;
      }
      assert result + [] == result;
      r := Ok(result);
    }
  }

  lemma PrependNothing(r: (Result<seq<int>>, QState))
    ensures Prepend([], r) == r
  {
    if r.0.Ok? {
      assert [] + r.0.value == r.0.value;
    }
  }

  lemma PopManyStep(q0: QState, count: nat, result: seq<int>, i: nat, before: QState, t: int, after: QState)
    requires QValid(q0) && QValid(before) && i < count
    requires PopN(q0, count) == Prepend(result, PopN(before, count - i))
    requires PopQ(before) == Ok((t, after))
    ensures PopN(q0, count) == Prepend(result + [t], PopN(after, count - (i + 1)))
  {
    PopNStep(before, count - i, t, after);
    PrependTwice(result, [t], PopN(after, count - (i + 1)));
  }

  lemma PopNStep(q: QState, n: nat, t: int, q': QState)
    requires QValid(q) && n > 0 && PopQ(q) == Ok((t, q'))
    ensures PopN(q, n) == Prepend([t], PopN(q', n - 1))
  {
  }

  lemma PopNFail(q: QState, n: nat)
    requires QValid(q) && n > 0 && PopQ(q).Err?
    ensures PopN(q, n) == (Err(KeyError), q)
  {
  }
}
