/**
  The barrier of include/peak_sys.h as a protocol.  Every function takes effect in one step under
  the mutex; a thread that blocks in barrier_wait needs a broadcast and then one more step to
  return.  Any registered thread that is not blocked may call any function at any time.
 */
module Barrier {

  datatype Thread = Thread(id: int)

  /** Where a thread is: not registered, running, blocked on the condition, released but not yet
      returned, or running with a non-zero result of barrier_wait in its hands. */
  datatype Mode = Outside | Active | Waiting | Woken | Holder(result: nat)

  /** unsigned int */
  const MAX: nat := 0x1_0000_0000

  datatype State = State(threads: nat, count: nat, mode: map<Thread, Mode>)

  datatype Op = Join(t: Thread) | Leave(t: Thread) | Wait(t: Thread) | Wake(t: Thread) | Resume(t: Thread)

  ghost function Blocked(m: map<Thread, Mode>): set<Thread> {
    set t | t in m && m[t] == Waiting
  }

  ghost function Registered(m: map<Thread, Mode>): set<Thread> {
    set t | t in m && m[t] != Outside
  }

  predicate Running(m: Mode) { m == Active || m.Holder? }

  ghost predicate Enabled(s: State, op: Op) {
    && op.t in s.mode
    && match op
       case Join(t) => s.mode[t] == Outside
       case Resume(t) => s.mode[t] == Woken
       case _ => Running(s.mode[op.t])
  }

  function Released(m: map<Thread, Mode>): map<Thread, Mode> {
    map t | t in m :: if m[t] == Waiting then Woken else m[t]
  }

  /** One step. */
  ghost function Next(s: State, op: Op): State
    requires Enabled(s, op)
  {
    match op
    case Join(t) =>
      if s.count == 0 then State((s.threads + 1) % MAX, 0, s.mode[t := Active]) else s
    case Leave(t) =>
      if s.count == 0 then State((s.threads + MAX - 1) % MAX, 0, s.mode[t := Outside]) else s
    case Wait(t) =>
      if s.count < s.threads then s.(count := s.count + 1, mode := s.mode[t := Waiting])
      else s.(mode := s.mode[t := Holder((s.threads + 1) % MAX)])
    case Wake(t) =>
      if s.count == s.threads then s.(count := 0, mode := Released(s.mode)[t := Active])
      else s.(mode := s.mode[t := Active])
    case Resume(t) =>
      s.(mode := s.mode[t := Active])
  }

  // ---------------------------------------------------------------- what every step keeps

  /** h holds the barrier for itself: all others that are registered are blocked. */
  ghost predicate Alone(s: State, h: Thread) {
    h in Registered(s.mode) && Blocked(s.mode) == Registered(s.mode) - {h}
  }

  ghost predicate Holds(s: State, h: Thread) {
    h in s.mode && s.mode[h].Holder?
  }

  /** The fields count the threads. */
  ghost predicate Counts(s: State) {
    && |s.mode.Keys| < MAX
    && s.count == |Blocked(s.mode)|
    && s.threads == (|Registered(s.mode)| + MAX - 1) % MAX
    && (Registered(s.mode) != {} ==> s.count <= s.threads)
  }

  /** At most one thread holds a result, and one of two or more only if it is alone. */
  ghost predicate Holders(s: State) {
    && (forall h :: Holds(s, h) ==> 1 <= s.mode[h].result <= |s.mode.Keys|)
    && (forall h :: Holds(s, h) && s.mode[h].result >= 2 ==> Alone(s, h) && s.mode[h].result == |Registered(s.mode)|)
    && (forall g, h :: Holds(s, g) && Holds(s, h) ==> g == h)
  }

  ghost predicate Inv(s: State) { Counts(s) && Holders(s) }

  function Empty(all: set<Thread>): State {
    State(MAX - 1, 0, map t | t in all :: Outside)
  }

  lemma {:induction false} InvEmpty(all: set<Thread>)
    requires |all| < MAX
    ensures Inv(Empty(all))
  {
    var s := Empty(all);
    assert s.mode.Keys == all && Blocked(s.mode) == {} && Registered(s.mode) == {};
  }

  lemma {:induction false} Sizes(m: map<Thread, Mode>)
    ensures Blocked(m) <= Registered(m) <= m.Keys
    ensures |Blocked(m)| <= |Registered(m)| <= |m.Keys|
  {
    Smaller(Blocked(m), Registered(m));
    Smaller(Registered(m), m.Keys);
  }

  lemma {:induction false} Smaller<T>(a: set<T>, b: set<T>)
    requires a <= b
    ensures |a| <= |b|
    ensures |a| == |b| ==> a == b
  {
    assert b == a + (b - a);
    assert |b| == |a| + |b - a|;
    if |a| == |b| { assert b - a == {}; }
  }

  /** The field threads in terms of the registered threads. */
  lemma {:induction false} Threads(s: State)
    requires Inv(s)
    ensures Registered(s.mode) == {} <==> s.threads == MAX - 1
    ensures Registered(s.mode) != {} ==> s.threads == |Registered(s.mode)| - 1
  {
    Sizes(s.mode);
    if Registered(s.mode) != {} { Decrement(|Registered(s.mode)|); }
  }

  lemma {:induction false} Decrement(n: nat)
    requires 1 <= n < MAX
    ensures (n + MAX - 1) % MAX == n - 1
  {
  }

  lemma {:induction false} Increment(n: nat)
    requires n + 1 < MAX
    ensures ((n + MAX - 1) % MAX + 1) % MAX == (n + 1 + MAX - 1) % MAX == n
  {
  }

  lemma {:induction false} Extra<T>(a: set<T>, b: set<T>) returns (x: T)
    requires |b| < |a|
    ensures x in a && x !in b
  {
    Smaller(a * b, b);
    assert |a| == |a - b| + |a * b|;
    assert a - b != {};
    x :| x in a - b;
  }

  /** When as many are blocked as threads says, all but one are. */
  lemma {:induction false} LastOne(s: State, t: Thread)
    requires Inv(s) && t in s.mode && Running(s.mode[t]) && s.count >= s.threads
    ensures Alone(s, t) && s.count == s.threads && s.threads + 1 == |Registered(s.mode)|
    ensures forall h :: h in s.mode && h != t ==> s.mode[h] == Outside || s.mode[h] == Waiting
  {
    Threads(s);
    assert t in Registered(s.mode);
    Smaller(Blocked(s.mode), Registered(s.mode) - {t});
    forall h | h in s.mode && h != t && s.mode[h] != Outside ensures s.mode[h] == Waiting {
      assert h in Registered(s.mode) - {t};
    }
  }

  /** The sets of threads after one moved. */
  lemma {:induction false} MovedSets(m: map<Thread, Mode>, t: Thread, x: Mode)
    requires t in m && m[t] != Waiting
    ensures m[t := x].Keys == m.Keys
    ensures Blocked(m[t := x]) == if x == Waiting then Blocked(m) + {t} else Blocked(m)
    ensures Registered(m[t := x]) == if x == Outside then Registered(m) - {t} else Registered(m) + {t}
    ensures t !in Blocked(m) && (t in Registered(m) <==> m[t] != Outside)
  {
  }

  lemma {:induction false} Moved(m: map<Thread, Mode>, t: Thread, x: Mode)
    requires t in m && m[t] != Waiting
    ensures m[t := x].Keys == m.Keys
    ensures Blocked(m[t := x]) == if x == Waiting then Blocked(m) + {t} else Blocked(m)
    ensures Registered(m[t := x]) == if x == Outside then Registered(m) - {t} else Registered(m) + {t}
    ensures |Blocked(m[t := x])| == |Blocked(m)| + if x == Waiting then 1 else 0
    ensures |Registered(m[t := x])| == |Registered(m)| + (if x == Outside then 0 else 1) - (if m[t] == Outside then 0 else 1)
  {
    MovedSets(m, t, x);
    OneMore(Registered(m), t);
    OneMore(Blocked(m), t);
  }

  lemma {:induction false} OneMore<T>(a: set<T>, t: T)
    ensures |a + {t}| == |a| + if t in a then 0 else 1
    ensures |a - {t}| == |a| - if t in a then 1 else 0
  {
    if t in a { assert a + {t} == a; } else { assert a - {t} == a; }
  }

  /** A hold of another thread is what it was. */
  lemma {:induction false} OthersHold(m: map<Thread, Mode>, t: Thread, x: Mode, s: State, u: State)
    requires t in m && s.mode == m && u.mode == m[t := x]
    ensures forall h :: h != t ==> (Holds(u, h) <==> Holds(s, h)) && (Holds(u, h) ==> u.mode[h] == s.mode[h])
  {
  }

  /** Inside a hold of two or more threads, join and leave are refused. */
  lemma {:induction false} HoldCounts(s: State, h: Thread)
    requires Inv(s) && Holds(s, h) && s.mode[h].result >= 2
    ensures s.count == s.threads == s.mode[h].result - 1
    ensures forall t :: t in s.mode && t != h ==> s.mode[t] == Outside || s.mode[t] == Waiting
  {
    Threads(s);
    assert Alone(s, h);
    assert |Registered(s.mode) - {h}| == |Registered(s.mode)| - 1;
    forall t | t in s.mode && t != h && s.mode[t] != Outside ensures s.mode[t] == Waiting {
      assert t in Registered(s.mode) - {h};
    }
  }

  /** A thread that has no say in a hold of two or more cannot meet one. */
  lemma {:induction false} SmallHolds(s: State, t: Thread, h: Thread)
    requires Inv(s) && Holds(s, h) && h != t
    requires s.count == 0 || s.count != s.threads || (t in s.mode && s.mode[t] != Outside && s.mode[t] != Waiting)
    ensures s.mode[h].result == 1
  {
    if s.mode[h].result >= 2 { HoldCounts(s, h); }
  }

  /** When a thread moves, the holds of the others stay. */
  lemma {:induction false} HoldersKept(s: State, u: State, t: Thread, x: Mode)
    requires Inv(s) && t in s.mode && u.mode == s.mode[t := x] && !x.Holder?
    requires s.count == 0 || s.count != s.threads || (s.mode[t] != Outside && s.mode[t] != Waiting)
    ensures Holders(u)
  {
    assert u.mode.Keys == s.mode.Keys;
    OthersHold(s.mode, t, x, s, u);
    forall h | Holds(u, h) ensures Holds(s, h) && u.mode[h].result == 1 {
      SmallHolds(s, t, h);
    }
  }

  lemma {:induction false} InvJoin(s: State, t: Thread)
    requires Inv(s) && Enabled(s, Join(t))
    ensures Inv(Next(s, Join(t)))
  {
    if s.count == 0 {
      JoinCounts(s, t);
      HoldersKept(s, Next(s, Join(t)), t, Active);
    }
  }

  lemma {:induction false} JoinCounts(s: State, t: Thread)
    requires Counts(s) && Enabled(s, Join(t)) && s.count == 0
    ensures Counts(Next(s, Join(t)))
  {
    Moved(s.mode, t, Active);
    Sizes(s.mode[t := Active]);
    Increment(|Registered(s.mode)|);
  }

  lemma {:induction false} InvLeave(s: State, t: Thread)
    requires Inv(s) && Enabled(s, Leave(t))
    ensures Inv(Next(s, Leave(t)))
  {
    if s.count == 0 {
      LeaveCounts(s, t);
      HoldersKept(s, Next(s, Leave(t)), t, Outside);
    }
  }

  lemma {:induction false} LeaveCounts(s: State, t: Thread)
    requires Inv(s) && Enabled(s, Leave(t)) && s.count == 0
    ensures Counts(Next(s, Leave(t)))
  {
    Moved(s.mode, t, Outside);
    Threads(s);
    assert t in Registered(s.mode);
  }

  lemma {:induction false} InvBlock(s: State, t: Thread)
    requires Inv(s) && Enabled(s, Wait(t)) && s.count < s.threads
    ensures Inv(Next(s, Wait(t)))
  {
    Moved(s.mode, t, Waiting);
    assert t in Registered(s.mode);
    HoldersKept(s, Next(s, Wait(t)), t, Waiting);
  }

  lemma {:induction false} InvWin(s: State, t: Thread)
    requires Inv(s) && Enabled(s, Wait(t)) && s.count >= s.threads
    ensures Inv(Next(s, Wait(t))) && Next(s, Wait(t)).mode[t] == Holder(|Registered(s.mode)|)
    ensures Alone(Next(s, Wait(t)), t)
  {
    LastOne(s, t);
    var r := |Registered(s.mode)|;
    Sizes(s.mode);
    assert r % MAX == r;
    var u := Next(s, Wait(t));
    Moved(s.mode, t, Holder(r));
    OthersHold(s.mode, t, Holder(r), s, u);
    assert t in Registered(s.mode);
    assert forall h :: Holds(u, h) ==> h == t;
  }

  lemma {:induction false} InvResume(s: State, t: Thread)
    requires Inv(s) && Enabled(s, Resume(t))
    ensures Inv(Next(s, Resume(t)))
  {
    Moved(s.mode, t, Active);
    assert t in Registered(s.mode);
    HoldersKept(s, Next(s, Resume(t)), t, Active);
  }

  /** The broadcast leaves nobody blocked. */
  lemma {:induction false} ReleasedAll(m: map<Thread, Mode>)
    ensures Released(m).Keys == m.Keys && Blocked(Released(m)) == {} && Registered(Released(m)) == Registered(m)
  {
  }

  lemma {:induction false} InvWake(s: State, t: Thread)
    requires Inv(s) && Enabled(s, Wake(t))
    ensures Inv(Next(s, Wake(t)))
    ensures s.count == s.threads ==> Blocked(Next(s, Wake(t)).mode) == {}
  {
    if s.count == s.threads {
      InvBroadcast(s, t);
    } else {
      Moved(s.mode, t, Active);
      assert t in Registered(s.mode);
      HoldersKept(s, Next(s, Wake(t)), t, Active);
    }
  }

  lemma {:induction false} InvBroadcast(s: State, t: Thread)
    requires Inv(s) && Enabled(s, Wake(t)) && s.count == s.threads
    ensures Inv(Next(s, Wake(t))) && Blocked(Next(s, Wake(t)).mode) == {}
  {
    LastOne(s, t);
    ReleasedAll(s.mode);
    Moved(Released(s.mode), t, Active);
    assert t in Registered(s.mode);
    var u := Next(s, Wake(t));
    assert forall h :: !Holds(u, h);
  }

  /** Every step keeps the invariant. */
  lemma {:induction false} InvNext(s: State, op: Op)
    requires Inv(s) && Enabled(s, op)
    ensures Inv(Next(s, op))
  {
    match op
    case Join(t) => InvJoin(s, t);
    case Leave(t) => InvLeave(s, t);
    case Wait(t) => if s.count < s.threads { InvBlock(s, t); } else { InvWin(s, t); }
    case Wake(t) => InvWake(s, t);
    case Resume(t) => InvResume(s, t);
  }

  // ---------------------------------------------------------------- who may release whom

  /** A thread blocks in barrier_wait exactly if another registered thread does not. */
  lemma {:induction false} WaitExact(s: State, t: Thread)
    requires Inv(s) && Enabled(s, Wait(t))
    ensures Next(s, Wait(t)).mode[t] == Waiting <==> !Alone(s, t)
    ensures forall x :: x in s.mode && x != t ==> Next(s, Wait(t)).mode[x] == s.mode[x]
  {
    if s.count >= s.threads {
      LastOne(s, t);
    } else if Alone(s, t) {
      AloneCounts(s, t);
    }
  }

  /** A wake by a thread that is not alone releases nobody. */
  lemma {:induction false} WakeOutOfTurn(s: State, h: Thread)
    requires Inv(s) && Enabled(s, Wake(h)) && !Alone(s, h)
    ensures Next(s, Wake(h)) == s.(mode := s.mode[h := Active])
  {
    if s.count == s.threads { LastOne(s, h); }
  }

  /** A wake by a thread that is alone releases all that are blocked, and only those. */
  lemma {:induction false} WakeInTurn(s: State, h: Thread)
    requires Inv(s) && Enabled(s, Wake(h)) && Alone(s, h)
    ensures Next(s, Wake(h)).count == 0 && Next(s, Wake(h)).threads == s.threads
    ensures forall t :: t in s.mode ==>
      Next(s, Wake(h)).mode[t] == if t == h then Active else if s.mode[t] == Waiting then Woken else s.mode[t]
  {
    AloneCounts(s, h);
  }

  /** A blocked thread stays blocked in every step but the wake of a thread that is alone. */
  lemma {:induction false} ReleasedBy(s: State, op: Op, t: Thread)
    requires Inv(s) && Enabled(s, op) && t in s.mode && s.mode[t] == Waiting
    ensures t in Next(s, op).mode
    ensures Next(s, op).mode[t] != Waiting <==> op.Wake? && Alone(s, op.t)
  {
    if op.Wake? {
      if Alone(s, op.t) { WakeInTurn(s, op.t); } else { WakeOutOfTurn(s, op.t); }
    }
  }

  /** No other step touches another thread. */
  lemma {:induction false} OthersStay(s: State, op: Op, t: Thread)
    requires Inv(s) && Enabled(s, op) && t in s.mode && t != op.t && !(op.Wake? && Alone(s, op.t))
    ensures t in Next(s, op).mode && Next(s, op).mode[t] == s.mode[t]
  {
    if op.Wake? { WakeOutOfTurn(s, op.t); }
  }

  // ---------------------------------------------------------------- whole runs

  ghost predicate Possible(s: State, ops: seq<Op>)
    decreases |ops|
  {
    ops == [] || (Enabled(s, ops[0]) && Possible(Next(s, ops[0]), ops[1..]))
  }

  ghost function Run(s: State, ops: seq<Op>): State
    requires Possible(s, ops)
    decreases |ops|
  {
    if ops == [] then s else Run(Next(s, ops[0]), ops[1..])
  }

  lemma {:induction false} InvRun(s: State, ops: seq<Op>)
    requires Inv(s) && Possible(s, ops)
    ensures Inv(Run(s, ops))
    decreases |ops|
  {
    if ops != [] {
      InvNext(s, ops[0]);
      InvRun(Next(s, ops[0]), ops[1..]);
    }
  }

  /** In every run, a thread that was blocked and no longer is was released by a thread that was alone:
      at that point every other registered thread had arrived. */
  lemma {:induction false} RunReleased(s: State, ops: seq<Op>, t: Thread) returns (k: nat)
    requires Inv(s) && Possible(s, ops) && t in s.mode && s.mode[t] == Waiting
    requires t !in Run(s, ops).mode || Run(s, ops).mode[t] != Waiting
    ensures k < |ops| && Possible(s, ops[..k]) && ops[k].Wake? && Alone(Run(s, ops[..k]), ops[k].t)
    decreases |ops|
  {
    var op, u := ops[0], Next(s, ops[0]);
    ReleasedBy(s, op, t);
    InvNext(s, op);
    if u.mode[t] != Waiting {
      k := 0;
      assert ops[..0] == [];
    } else {
      var j := RunReleased(u, ops[1..], t);
      k := j + 1;
      RunMore(s, op, ops[1..][..j]);
      assert ops[..k] == [op] + ops[1..][..j];
    }
  }

  /** In every run from an empty barrier: the registered threads are never all blocked, at most one
      thread has a non-zero result, and with a result of two or more all others are blocked. */
  lemma {:induction false} Safety(all: set<Thread>, ops: seq<Op>)
    requires |all| < MAX && Possible(Empty(all), ops)
    ensures var s := Run(Empty(all), ops);
      && (Registered(s.mode) == {} || Registered(s.mode) - Blocked(s.mode) != {})
      && (forall g, h :: Holds(s, g) && Holds(s, h) ==> g == h)
      && (forall h :: Holds(s, h) && s.mode[h].result >= 2 ==> Alone(s, h) && s.mode[h].result == |Registered(s.mode)|)
  {
    InvEmpty(all);
    InvRun(Empty(all), ops);
    var s := Run(Empty(all), ops);
    Threads(s);
    if Registered(s.mode) != {} {
      var t := Extra(Registered(s.mode), Blocked(s.mode));
      assert t in Registered(s.mode) - Blocked(s.mode);
    }
  }

  /** While a result of two or more is held, nothing but a call of the holder changes the barrier:
      it stays alone, join and leave are refused, and only its wake ends the hold. */
  lemma {:induction false} HoldStays(s: State, h: Thread, op: Op)
    requires Inv(s) && Holds(s, h) && s.mode[h].result >= 2 && Enabled(s, op)
    ensures op.Join? || op.t == h
    ensures op != Wake(h) ==> Next(s, op) == s
    ensures op == Wake(h) ==> Next(s, op).count == 0 && forall t :: t in s.mode ==>
      Next(s, op).mode[t] == if t == h then Active else if s.mode[t] == Outside then Outside else Woken
  {
    HoldCounts(s, h);
    if op == Wait(h) {
      Threads(s);
      assert s.mode[h] == Holder(s.threads + 1) && (s.threads + 1) % MAX == s.threads + 1 by { Sizes(s.mode); }
      assert s.mode[h := Holder(s.threads + 1)] == s.mode;
    }
  }

  /** A whole run without the holder's wake leaves the barrier untouched. */
  lemma {:induction false} HoldRun(s: State, h: Thread, ops: seq<Op>)
    requires Inv(s) && Holds(s, h) && s.mode[h].result >= 2 && Possible(s, ops) && Wake(h) !in ops
    ensures Run(s, ops) == s
  {
    if ops != [] {
      assert ops[0] in ops && forall op :: op in ops[1..] ==> op in ops;
      HoldStays(s, h, ops[0]);
      HoldRun(s, h, ops[1..]);
    }
  }

  /** A holder that is alone stays alone when another thread joins only if it is not the only one
      registered: a result of 1 gives no exclusion. */
  lemma {:induction false} SoloHold(s: State, h: Thread, t: Thread)
    requires Inv(s) && Holds(s, h) && Alone(s, h) && Enabled(s, Join(t))
    ensures Alone(Next(s, Join(t)), h) <==> |Registered(s.mode)| >= 2
    ensures s.mode[h].result >= 2 ==> |Registered(s.mode)| >= 2
  {
    var r := Registered(s.mode);
    assert |r - {h}| == |r| - 1;
    if |r| == 1 {
      Moved(s.mode, t, Active);
      assert t in Registered(Next(s, Join(t)).mode) && t !in Blocked(Next(s, Join(t)).mode);
    }
  }

  /** The smallest case: a joins, waits and holds the result 1; b joins and runs beside it. */
  lemma {:induction false} SoloExample(a: Thread, b: Thread)
    requires a != b
    ensures var ops := [Join(a), Wait(a), Join(b)];
      && Possible(Empty({a, b}), ops)
      && var s := Run(Empty({a, b}), ops);
         s.mode == map[a := Holder(1), b := Active] && Holds(s, a) && !Alone(s, a)
  {
    var s0 := Empty({a, b});
    var s1 := Next(s0, Join(a));
    var s2 := Next(s1, Wait(a));
    var s3 := Next(s2, Join(b));
    assert s1.threads == 0 && s2.mode[a] == Holder(1) && s3.mode == map[a := Holder(1), b := Active];
    assert Possible(s3, []) && Run(s3, []) == s3;
    RunMore(s2, Join(b), []);
    RunMore(s1, Wait(a), [Join(b)] + []);
    RunMore(s0, Join(a), [Wait(a)] + ([Join(b)] + []));
    assert [Join(a)] + ([Wait(a)] + ([Join(b)] + [])) == [Join(a), Wait(a), Join(b)];
    assert b in Registered(s3.mode) && b !in Blocked(s3.mode);
  }

  // ---------------------------------------------------------------- every round finishes

  lemma {:induction false} RunMore(s: State, op: Op, ops: seq<Op>)
    requires Enabled(s, op) && Possible(Next(s, op), ops)
    ensures Possible(s, [op] + ops) && Run(s, [op] + ops) == Run(Next(s, op), ops)
  {
    assert ([op] + ops)[1..] == ops;
  }

  /** One thread holds the result r and all others are blocked. */
  ghost predicate Won(s: State, r: nat) {
    exists h :: Holds(s, h) && Alone(s, h) && s.mode[h].result == r
  }

  ghost function Pending(m: map<Thread, Mode>): set<Thread> {
    set t | t in m && m[t] == Woken
  }

  /** How many calls are left in a round at most: one for every thread that is not blocked, one more for
      those still returning from the last round. */
  ghost function Left(s: State): int {
    |Registered(s.mode)| - |Blocked(s.mode)| + |Pending(s.mode)|
  }

  /** A step towards the end of the round. */
  predicate Onward(op: Op) { op.Wait? || op.Resume? }

  lemma {:induction false} PendingMoved(m: map<Thread, Mode>, t: Thread, x: Mode)
    requires t in m && x != Woken
    ensures |Pending(m[t := x])| == |Pending(m)| - if m[t] == Woken then 1 else 0
  {
    assert Pending(m[t := x]) == Pending(m) - {t};
    OneMore(Pending(m), t);
  }

  /** Every step of a round ends it or brings the end nearer. */
  lemma {:induction false} RoundStep(s: State, op: Op)
    requires Inv(s) && Enabled(s, op) && Onward(op)
    ensures Inv(Next(s, op)) && Registered(Next(s, op).mode) == Registered(s.mode) != {}
    ensures Won(Next(s, op), |Registered(s.mode)|) || Left(Next(s, op)) == Left(s) - 1
  {
    InvNext(s, op);
    assert op.t in Registered(s.mode);
    if op.Wait? && s.count >= s.threads {
      RoundWon(s, op.t);
    } else {
      RoundNearer(s.mode, op.t, if op.Wait? then Waiting else Active);
    }
  }

  lemma {:induction false} RoundWon(s: State, t: Thread)
    requires Inv(s) && Enabled(s, Wait(t)) && s.count >= s.threads
    ensures Registered(Next(s, Wait(t)).mode) == Registered(s.mode) && Won(Next(s, Wait(t)), |Registered(s.mode)|)
  {
    var u := Next(s, Wait(t));
    InvWin(s, t);
    MovedSets(s.mode, t, u.mode[t]);
    assert Holds(u, t) && Alone(u, t) && u.mode[t].result == |Registered(s.mode)|;
  }

  lemma {:induction false} RoundNearer(m: map<Thread, Mode>, t: Thread, x: Mode)
    requires t in m && (if x == Waiting then Running(m[t]) else x == Active && m[t] == Woken)
    ensures Registered(m[t := x]) == Registered(m)
    ensures |Blocked(m[t := x])| - |Pending(m[t := x])| == |Blocked(m)| - |Pending(m)| + 1
  {
    Moved(m, t, x);
    PendingMoved(m, t, x);
    assert t in Registered(m);
  }

  /** A round is never stuck: some registered thread can wait or return. */
  lemma {:induction false} RoundGoesOn(s: State) returns (op: Op)
    requires Inv(s) && Registered(s.mode) != {}
    ensures Onward(op) && Enabled(s, op) && Left(s) >= 1
  {
    Threads(s);
    var t := Extra(Registered(s.mode), Blocked(s.mode));
    op := if s.mode[t] == Woken then Resume(t) else Wait(t);
  }

  /** Every round finishes: any run of waits and returns that is long enough comes to a thread that holds
      the number of registered threads while all others are blocked. */
  lemma {:induction false} RoundFinishes(s: State, ops: seq<Op>) returns (k: nat)
    requires Inv(s) && Registered(s.mode) != {} && Possible(s, ops)
    requires (forall op :: op in ops ==> Onward(op)) && |ops| >= Left(s)
    ensures 1 <= k <= |ops| && Possible(s, ops[..k]) && Won(Run(s, ops[..k]), |Registered(s.mode)|)
    decreases |ops|
  {
    var any := RoundGoesOn(s);
    var op, u := ops[0], Next(s, ops[0]);
    assert op in ops && forall x :: x in ops[1..] ==> x in ops;
    RoundStep(s, op);
    if Won(u, |Registered(s.mode)|) {
      k := 1;
      assert Possible(u, []) && Run(u, []) == u;
      RunMore(s, op, []);
      assert ops[..1] == [op] + [];
    } else {
      var j := RoundFinishes(u, ops[1..]);
      k := j + 1;
      RunMore(s, op, ops[1..][..j]);
      assert ops[..k] == [op] + ops[1..][..j];
    }
  }

  // ---------------------------------------------------------------- the functions

  class Shared {
    var threads: nat
    var count: nat
    /** Where the threads are; only the scheduler knows. */
    ghost var mode: map<Thread, Mode>

    ghost function View(): State reads this { State(threads, count, mode) }

    /** barrier_init */
    constructor (ghost all: set<Thread>)
      ensures View() == Empty(all)
    {
      threads := MAX - 1;
      count := 0;
      mode := map t | t in all :: Outside;
    }

    /** barrier_wait up to the point where it blocks or returns. */
    method WaitStep(ghost t: Thread) returns (blocks: bool, ret: nat)
      requires Inv(View()) && Enabled(View(), Wait(t))
      modifies this
      ensures Inv(View()) && View() == Next(old(View()), Wait(t))
      ensures blocks ==> mode[t] == Waiting
      ensures blocks <==> !old(Alone(View(), t))
      ensures !blocks ==> ret == |Registered(old(mode))| >= 1 && Holds(View(), t) && Alone(View(), t)
    {
      ret := 0;
      InvNext(View(), Wait(t));
      WaitExact(View(), t);
      if count < threads {
        count := count + 1;
        mode := mode[t := Waiting];
        blocks := true;
      } else {
        InvWin(View(), t);
        ret := (threads + 1) % MAX;
        mode := mode[t := Holder(ret)];
        blocks := false;
      }
    }

    /** The return of barrier_wait after a broadcast. */
    ghost method Return(t: Thread)
      requires Inv(View()) && Enabled(View(), Resume(t))
      modifies this`mode
      ensures Inv(View()) && View() == Next(old(View()), Resume(t))
    {
      InvNext(View(), Resume(t));
      mode := mode[t := Active];
    }

    /** barrier_wake */
    method WakeStep(ghost t: Thread)
      requires Inv(View()) && Enabled(View(), Wake(t))
      modifies this
      ensures Inv(View()) && View() == Next(old(View()), Wake(t))
      ensures old(Alone(View(), t)) ==> Blocked(mode) == {} && count == 0
      ensures !old(Alone(View(), t)) ==> count == old(count) && mode == old(mode)[t := Active]
    {
      InvNext(View(), Wake(t));
      InvWake(View(), t);
      if Alone(View(), t) { AloneCounts(View(), t); } else { WakeOutOfTurn(View(), t); }
      if count == threads {
        mode := Released(mode)[t := Active];
        count := 0;
      } else {
        mode := mode[t := Active];
      }
    }

    /** barrier_join */
    method JoinStep(ghost t: Thread) returns (ret: nat)
      requires Inv(View()) && Enabled(View(), Join(t))
      modifies this
      ensures Inv(View()) && View() == Next(old(View()), Join(t))
      ensures ret == 0 <==> old(Blocked(mode)) == {}
      ensures ret == 0 ==> mode[t] == Active
    {
      ret := 0;
      InvNext(View(), Join(t));
      NobodyBlocked(View());
      if count == 0 {
        threads := (threads + 1) % MAX;
        mode := mode[t := Active];
      } else {
        ret := 1;
      }
    }

    /** barrier_leave */
    method LeaveStep(ghost t: Thread) returns (ret: nat)
      requires Inv(View()) && Enabled(View(), Leave(t))
      modifies this
      ensures Inv(View()) && View() == Next(old(View()), Leave(t))
      ensures ret == 0 <==> old(Blocked(mode)) == {}
      ensures ret == 0 ==> mode[t] == Outside
    {
      ret := 0;
      InvNext(View(), Leave(t));
      NobodyBlocked(View());
      if count == 0 {
        threads := (threads + MAX - 1) % MAX;
        mode := mode[t := Outside];
      } else {
        ret := 1;
      }
    }
  }

  lemma {:induction false} NobodyBlocked(s: State)
    requires Inv(s)
    ensures s.count == 0 <==> Blocked(s.mode) == {}
  {
  }

  lemma {:induction false} AloneCounts(s: State, t: Thread)
    requires Inv(s) && Alone(s, t)
    ensures s.count == s.threads
  {
    Threads(s);
    assert |Registered(s.mode) - {t}| == |Registered(s.mode)| - 1;
  }
}
