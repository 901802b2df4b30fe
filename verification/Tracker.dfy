/**
  The flow tracker of lib/peak_track.c: a tree of flows, a queue in the order of their last use and
  a pool (include/peak_prealloc.h), all over the same flow records.
 */
module Tracker {
  import opened TrackModel

  class Flow {
    var key: Key
    var id: nat

    constructor ()
    {
      key, id := Key(0, 0, 0, 0, 0), 0;
    }
  }

  ghost predicate Distinct<T>(s: seq<T>) {
    forall i, j :: 0 <= i < j < |s| ==> s[i] != s[j]
  }

  ghost predicate Within<T>(s: seq<T>, p: set<T>) {
    forall i :: 0 <= i < |s| ==> s[i] in p
  }

  /** Tree and queue hold the same flows under the keys of the entries. */
  ghost predicate Tied(flows: map<Key, Flow>, tos: seq<Flow>, order: seq<Entry>) {
    && |tos| == |order| && Unique(order)
    && (forall i :: 0 <= i < |order| ==> order[i].key in flows && flows[order[i].key] == tos[i])
    && (forall k :: k in flows ==> IndexOf(order, k) < |order|)
  }

  lemma {:induction false} IndexKnown(o: seq<Entry>, i: nat, k: Key)
    requires i < |o| && o[i].key == k
    ensures IndexOf(o, k) < |o|
  {
  }

  lemma {:induction false} TiedMoved(flows: map<Key, Flow>, tos: seq<Flow>, o: seq<Entry>, i: nat)
    requires Tied(flows, tos, o) && i < |o|
    ensures Tied(flows, Tailed(tos, i), Tailed(o, i))
  {
    MovedUnique(o, i);
    var t, p := Tailed(tos, i), Tailed(o, i);
    forall j | 0 <= j < |p| ensures p[j].key in flows && flows[p[j].key] == t[j] {
      var m := if j == |p| - 1 then i else if j < i then j else j + 1;
      assert p[j] == o[m] && t[j] == tos[m];
    }
    forall k | k in flows ensures IndexOf(p, k) < |p| {
      var j := IndexOf(o, k);
      IndexKnown(p, if j < i then j else if j == i then |p| - 1 else j - 1, k);
    }
  }

  lemma {:induction false} TiedEvicted(flows: map<Key, Flow>, tos: seq<Flow>, o: seq<Entry>)
    requires Tied(flows, tos, o) && o != []
    ensures Tied(flows - {o[0].key}, tos[1..], o[1..])
  {
    var f := flows - {o[0].key};
    forall k | k in f ensures IndexOf(o[1..], k) < |o[1..]| {
      var j := IndexOf(o, k);
      IndexKnown(o[1..], j - 1, k);
    }
  }

  lemma {:induction false} TiedAdded(flows: map<Key, Flow>, tos: seq<Flow>, o: seq<Entry>, flow: Flow, e: Entry)
    requires Tied(flows, tos, o) && e.key !in flows
    ensures Tied(flows[e.key := flow], tos + [flow], o + [e])
  {
    var f, p := flows[e.key := flow], o + [e];
    forall k | k in f ensures IndexOf(p, k) < |p| {
      IndexKnown(p, if k == e.key then |o| else IndexOf(o, k), k);
    }
    assert forall i :: 0 <= i < |o| ==> p[i] == o[i];
  }

  lemma {:induction false} Absent(flows: map<Key, Flow>, tos: seq<Flow>, o: seq<Entry>, k: Key)
    requires Tied(flows, tos, o)
    ensures k in flows <==> IndexOf(o, k) < |o|
    ensures k in flows ==> flows[k] == tos[IndexOf(o, k)]
  {
  }

  /** Tree, queue and pool describe the same flows. */
  ghost predicate Agree(l: Lru, max: nat, flows: map<Key, Flow>, tos: seq<Flow>, free: seq<Flow>) {
    && max >= 1 && Sound(l, max) && Tied(flows, tos, l.order)
    && Distinct(tos + free) && |tos| + |free| == max
  }

  function Tailed<T>(s: seq<T>, j: nat): seq<T>
    requires j < |s|
  {
    s[..j] + s[j + 1..] + [s[j]]
  }

  lemma {:induction false} Touched(l: Lru, max: nat, fixed: bool, flows: map<Key, Flow>, tos: seq<Flow>, free: seq<Flow>, k: Key, j: nat)
    requires Agree(l, max, flows, tos, free) && k in flows && j < |tos| && tos[j] == flows[k]
    ensures l.order[j].key == k
    ensures After(l, max, fixed, k) == Lru(Tailed(l.order, j), l.next)
    ensures Agree(After(l, max, fixed, k), max, flows, Tailed(tos, j), free)
    ensures IdOf(Tailed(l.order, j), k) == Some(l.order[j].id)
  {
    Absent(flows, tos, l.order, k);
    SamePlace(tos, free, IndexOf(l.order, k), j);
    TiedMoved(flows, tos, l.order, j);
    AfterSound(l, max, fixed, k);
    DistinctMoved(tos, free, j);
    IdMoved(l.order, j, k);
  }

  class Tracks {
    const max: nat
    const no_timeout: bool
    /** RB_HEAD(peak_track_tree, peak_track) */
    var flows: map<Key, Flow>
    /** TAILQ_HEAD(, peak_track) */
    var tos: seq<Flow>
    /** The pool: its free list and its count. */
    var free: seq<Flow>
    var used: nat
    /** next_flow_id */
    var next: nat
    ghost var order: seq<Entry>
    /** The flow records, allocated once. */
    ghost const pool: set<Flow>

    ghost function View(): Lru reads this { Lru(order, next) }

    ghost predicate Laid() reads this, tos {
      |tos| == |order| && forall i :: 0 <= i < |tos| ==> tos[i].key == order[i].key && tos[i].id == order[i].id
    }

    /** Tree, queue and pool describe the same flows. */
    ghost predicate Linked() reads this {
      Agree(View(), max, flows, tos, free) && used == |tos| && Within(tos, pool) && Within(free, pool)
    }

    ghost predicate Valid() reads this, tos { Laid() && Linked() }

    /** peak_track_init with a pool of count flows */
    constructor (count: nat, fixed: bool)
      requires count >= 1
      ensures Valid() && max == count && no_timeout == fixed && View() == Lru([], 0)
      ensures fresh(pool)
    {
      max, no_timeout := count, fixed;
      flows, tos, used, next, order := map[], [], 0, 0, [];
      var list: seq<Flow> := [];
      ghost var all: set<Flow> := {};
      while |list| < count
        invariant |list| <= count && Distinct(list) && Within(list, all) && fresh(all)
      {
        var e := new Flow();
        assert e !in all;
        list := list + [e];
        all := all + {e};
      }
      free, pool := list, all;
      assert [] + list == list;
    }

    /** peak_track_init: a pool of no flows is refused. */
    static method Init(count: nat, fixed: bool) returns (t: Tracks?)
      ensures t == null <==> count == 0
      ensures t != null ==> fresh(t) && fresh(t.pool) && t.Valid()
      ensures t != null ==> t.max == count && t.no_timeout == fixed && t.View() == Lru([], 0)
    {
      if count == 0 {
        return null;
      }
      t := new Tracks(count, fixed);
    }

    /** TAILQ_REMOVE and TAILQ_INSERT_TAIL of a flow that was found. */
    method Touch(flow: Flow, ghost k: Key) returns (ghost j: nat)
      requires Valid() && k in flows && flows[k] == flow
      modifies this`tos, this`order
      ensures Valid() && View() == After(old(View()), max, no_timeout, k)
      ensures j < |old(tos)| && flow == old(tos)[j] && tos == Tailed(old(tos), j)
      ensures flow.key == k && IdOf(order, k) == Some(flow.id)
    {
      Absent(flows, tos, order, k);
      var i := QueuePlace(flow);
      j := i;
      ghost var l := View();
      Touched(l, max, no_timeout, flows, tos, free, k, i);
      assert flow.key == l.order[i].key && flow.id == l.order[i].id;
      MoveUp(i);
      assert View() == Lru(Tailed(l.order, i), l.next);
    }

    /** Where a flow stands in the queue. */
    method QueuePlace(flow: Flow) returns (i: nat)
      requires exists k :: 0 <= k < |tos| && tos[k] == flow
      ensures i < |tos| && tos[i] == flow
    {
      i :| 0 <= i < |tos| && tos[i] == flow;
    }

    method MoveUp(j: nat)
      requires Laid() && j < |tos|
      modifies this`tos, this`order
      ensures Laid()
      ensures tos == Tailed(old(tos), j) && order == Tailed(old(order), j)
    {
      var flow := tos[j];
      tos := tos[..j] + tos[j + 1..];
      tos := tos + [flow];
      order := order[..j] + order[j + 1..] + [order[j]];
    }

    /** The oldest flow goes back to the pool. */
    method Evict()
      requires Valid() && free == []
      modifies this`flows, this`tos, this`free, this`used, this`order
      ensures Valid() && order == old(order)[1..] && free == [old(tos)[0]] && tos == old(tos)[1..]
      ensures flows == old(flows) - {old(order)[0].key}
    {
      Evicted(View(), max, flows, tos, free);
      var flow := tos[0];
      tos := tos[1..];
      flows := flows - {flow.key};
      free := [flow] + free;
      used := used - 1;
      order := order[1..];
    }

    method FillIn(flow: Flow, k: Key)
      requires Laid() && forall i :: 0 <= i < |tos| ==> tos[i] != flow
      modifies this`tos, this`order, this`next, flow
      ensures Laid() && flow.key == k && flow.id == old(next) && tos == old(tos) + [flow]
      ensures View() == Renewed(old(order), old(next), k)
    {
      flow.key := k;
      flow.id := next;
      order := order + [Entry(k, next)];
      next := (next + 1) % IDS;
      tos := tos + [flow];
    }

    /** A free flow for a new key. */
    method Admit(k: Key) returns (flow: Flow)
      requires Valid() && k !in flows && free != []
      modifies this`flows, this`tos, this`free, this`used, this`order, this`next, free[0]
      ensures Valid() && View() == Renewed(old(order), old(next), k)
      ensures flow == old(free)[0] && flow.key == k && flow.id == old(next)
      ensures tos == old(tos) + [flow] && free == old(free)[1..]
    {
      Admitted(View(), max, flows, tos, free, k);
      FreeApart(tos, free);
      flow := free[0];
      free := free[1..];
      used := used + 1;
      flows := flows[k := flow];
      FillIn(flow, k);
    }

    /** The flow of the oldest entry serves the new key. */
    method Recycle(k: Key) returns (flow: Flow)
      requires Valid() && k !in flows && free == []
      modifies this`flows, this`tos, this`free, this`used, this`order, this`next, pool
      ensures Valid() && View() == Renewed(old(order)[1..], old(next), k)
      ensures flow == old(tos)[0] && flow.key == k && flow.id == old(next)
      ensures tos == old(tos)[1..] + [flow] && free == []
    {
      Evict();
      flow := Admit(k);
    }

    /** A key that is not there: without a free flow the oldest one gives way, or the request is
        refused.  Neither the pool nor the tree can fail. */
    method Renew(k: Key) returns (flow: Flow?)
      requires Valid() && k !in flows
      modifies this`flows, this`tos, this`free, this`used, this`order, this`next, pool
      ensures Valid() && View() == After(old(View()), max, no_timeout, k)
      ensures flow == null ==> no_timeout && View() == old(View()) && |order| == max && IdOf(order, k) == None
      ensures flow != null ==> flow in tos && flow.key == k && flow.id == old(next) && IdOf(order, k) == Some(flow.id)
    {
      Absent(flows, tos, order, k);
      if free == [] && no_timeout {
        return null;
      }
      if free == [] {
        NewEntry(View(), max, no_timeout, k, order[1..]);
        flow := Recycle(k);
        assert tos[|tos| - 1] == flow;
      } else {
        NewEntry(View(), max, no_timeout, k, order);
        flow := Admit(k);
        assert tos[|tos| - 1] == flow;
      }
    }

    /** peak_track_acquire: the map of the least recently used flows. */
    method Acquire(ref: Option<Key>) returns (flow: Flow?)
      requires Valid()
      modifies this`flows, this`tos, this`free, this`used, this`order, this`next, pool
      ensures Valid()
      ensures ref.None? ==> flow == null && View() == old(View())
      ensures ref.Some? ==> View() == After(old(View()), max, no_timeout, ref.value)
      ensures ref.Some? && flow == null ==> no_timeout && View() == old(View()) && |order| == max && IdOf(order, ref.value) == None
      ensures ref.Some? && flow != null ==> flow in tos && flow.key == ref.value && IdOf(order, ref.value) == Some(flow.id)
    {
      if ref.None? {
        return null;
      }
      var k := ref.value;
      if k in flows {
        flow := flows[k];
        ghost var j := Touch(flow, k);
        assert flow == tos[|tos| - 1];
      } else {
        flow := Renew(k);
      }
    }
  }

  /** A new entry behind the others. */
  ghost function Renewed(o: seq<Entry>, next: nat, k: Key): Lru {
    Lru(o + [Entry(k, next)], (next + 1) % IDS)
  }

  /** The new entry in the case of a free flow and after an eviction. */
  lemma {:induction false} NewEntry(l: Lru, max: nat, fixed: bool, k: Key, o: seq<Entry>)
    requires max >= 1 && IndexOf(l.order, k) == |l.order| <= max
    requires if |l.order| < max then o == l.order else !fixed && o == l.order[1..]
    ensures After(l, max, fixed, k) == Renewed(o, l.next, k)
    ensures IdOf(Renewed(o, l.next, k).order, k) == Some(l.next)
  {
    assert forall i :: 0 <= i < |o| ==> o[i].key != k;
    IdAdded(o, Entry(k, l.next), k);
  }

  lemma {:induction false} SamePlace(tos: seq<Flow>, free: seq<Flow>, i: nat, j: nat)
    requires Distinct(tos + free) && i < |tos| && j < |tos| && tos[i] == tos[j]
    ensures i == j
  {
    assert (tos + free)[i] == tos[i] && (tos + free)[j] == tos[j];
  }

  lemma {:induction false} DistinctMoved<T>(s: seq<T>, f: seq<T>, j: nat)
    requires Distinct(s + f) && j < |s|
    ensures Distinct(Tailed(s, j) + f)
  {
    var a, b := s + f, Tailed(s, j) + f;
    forall x, y | 0 <= x < y < |b| ensures b[x] != b[y] {
      assert b[x] == a[Place(x, j, |s|)] && b[y] == a[Place(y, j, |s|)];
    }
  }

  /** Where an element of the queue was before j moved to the tail. */
  function Place(x: nat, j: nat, n: nat): nat {
    if x < j || x >= n then x else if x + 1 == n then j else x + 1
  }

  lemma {:induction false} FreeApart<T>(s: seq<T>, f: seq<T>)
    requires Distinct(s + f) && f != []
    ensures forall i :: 0 <= i < |s| ==> s[i] != f[0]
  {
    assert (s + f)[|s|] == f[0];
    forall i | 0 <= i < |s| ensures s[i] != f[0] { assert (s + f)[i] == s[i]; }
  }

  lemma {:induction false} Evicted(l: Lru, max: nat, flows: map<Key, Flow>, tos: seq<Flow>, free: seq<Flow>)
    requires Agree(l, max, flows, tos, free) && free == []
    ensures |tos| == |l.order| == max
    ensures Agree(Lru(l.order[1..], l.next), max, flows - {l.order[0].key}, tos[1..], [tos[0]] + free)
  {
    TiedEvicted(flows, tos, l.order);
    var a, b := tos + free, tos[1..] + ([tos[0]] + free);
    assert a == tos;
    forall x, y | 0 <= x < y < |b| ensures b[x] != b[y] {
      assert b[x] == a[x + 1] && b[y] == a[if y + 1 == |a| then 0 else y + 1];
    }
  }

  lemma {:induction false} Admitted(l: Lru, max: nat, flows: map<Key, Flow>, tos: seq<Flow>, free: seq<Flow>, k: Key)
    requires Agree(l, max, flows, tos, free) && free != [] && k !in flows
    ensures Agree(Renewed(l.order, l.next, k), max, flows[k := free[0]], tos + [free[0]], free[1..])
  {
    TiedAdded(flows, tos, l.order, free[0], Entry(k, l.next));
    assert (tos + [free[0]]) + free[1..] == tos + free;
  }
}
