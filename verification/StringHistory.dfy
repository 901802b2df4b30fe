/**
  The string search of lib/peak_string.c in terms of its additions: the table that a history of
  additions leads to, failed ones included, and what a search reports of it.
 */
module StringHistory {
  import opened StringModel

  /** An attempt to add a result for a pattern and a method.  An attempt that runs out of memory gets no
      further than the first reached tokens of the pattern. */
  datatype Added = Added(path: Path, reached: nat, m: nat, result: nat)

  predicate Complete(a: Added) { a.reached == |a.path| }

  predicate Logged(log: seq<Added>) {
    forall i :: 0 <= i < |log| ==> log[i].reached <= |log[i].path| && log[i].m < 4
  }

  // ---------------------------------------------------------------- the table of a history

  const NONE: seq<nat> := [0, 0, 0, 0]

  predicate IsPrefix(q: Path, p: Path) { |q| <= |p| && p[..|q|] == q }

  /** The table with nodes for all prefixes of p. */
  function Grown(t: Table, p: Path): Table
    decreases |p|
  {
    if p == [] then t
    else
      var u := Grown(t, Parent(p));
      if p in u then u else u[p := NONE]
  }

  /** The first result stays. */
  function Stored(row: seq<nat>, m: nat, result: nat): seq<nat>
    requires m < |row|
  {
    if row[m] == 0 then row[m := result] else row
  }

  function Applied(t: Table, a: Added): Table
    requires a.reached <= |a.path|
  {
    var g := Grown(t, a.path[..a.reached]);
    if Complete(a) && a.path in g && a.m < |g[a.path]| then g[a.path := Stored(g[a.path], a.m, a.result)] else g
  }

  function TableOf(log: seq<Added>): Table
    requires Logged(log)
  {
    if log == [] then map[[] := NONE] else Applied(TableOf(log[..|log| - 1]), log[|log| - 1])
  }

  lemma {:induction false} PrefixStep(q: Path, p: Path)
    requires p != []
    ensures IsPrefix(q, p) <==> IsPrefix(q, Parent(p)) || q == p
  {
    if IsPrefix(q, p) && |q| < |p| { assert Parent(p)[..|q|] == p[..|q|]; }
    if IsPrefix(q, Parent(p)) { assert p[..|q|] == Parent(p)[..|q|]; }
    if q == p { assert p[..|p|] == p; }
  }

  /** What growing adds: exactly the prefixes, without results. */
  lemma {:induction false} GrownExact(t: Table, p: Path)
    requires Rooted(t)
    ensures Rooted(Grown(t, p)) && p in Grown(t, p)
    ensures forall q :: q in Grown(t, p) <==> q in t || IsPrefix(q, p)
    ensures forall q, m :: Result(Grown(t, p), q, m) == Result(t, q, m)
    decreases |p|
  {
    if p == [] {
      assert forall q :: IsPrefix(q, p) ==> q == [];
    } else {
      var u := Grown(t, Parent(p));
      GrownExact(t, Parent(p));
      forall q ensures q in Grown(t, p) <==> q in t || IsPrefix(q, p) { PrefixStep(q, p); }
      forall q, m ensures Result(Grown(t, p), q, m) == Result(t, q, m) {
        assert Result(u, q, m) == Result(t, q, m);
      }
    }
  }

  /** The row of a node, empty if there is no node. */
  function Row(t: Table, q: Path): seq<nat> { if q in t then t[q] else [] }

  /** The same in other words: what was there stays, and missing prefixes of p have no results. */
  ghost predicate GrownTo(t: Table, u: Table, p: Path) {
    forall q {:trigger Row(u, q)} :: (q in u <==> q in t || IsPrefix(q, p)) && (q in u ==> Row(u, q) == if q in t then t[q] else NONE)
  }

  lemma {:induction false} GrownNot(t: Table)
    requires [] in t
    ensures GrownTo(t, t, [])
  {
    assert forall q: Path :: IsPrefix(q, []) <==> q == [];
  }

  lemma {:induction false} GrownMore(t: Table, u: Table, p: Path, k: int)
    requires GrownTo(t, u, p)
    ensures GrownTo(t, if p + [k] in u then u else u[p + [k] := NONE], p + [k])
  {
    var r := p + [k];
    var v := if r in u then u else u[r := NONE];
    assert Parent(r) == p;
    forall q ensures (q in v <==> q in t || IsPrefix(q, r)) && (q in v ==> Row(v, q) == if q in t then t[q] else NONE) {
      PrefixStep(q, r);
      assert Row(u, q) == Row(u, q);
    }
  }

  lemma {:induction false} GrownIs(t: Table, u: Table, p: Path)
    requires [] in t && GrownTo(t, u, p)
    ensures u == Grown(t, p)
  {
    GrownRows(t, p);
    var g := Grown(t, p);
    forall q ensures (q in u <==> q in g) && (q in u ==> u[q] == g[q]) {
      assert Row(u, q) == Row(u, q) && Row(g, q) == Row(g, q);
    }
  }

  lemma {:induction false} GrownRows(t: Table, p: Path)
    requires [] in t
    ensures GrownTo(t, Grown(t, p), p)
    decreases |p|
  {
    if p == [] {
      GrownNot(t);
    } else {
      GrownRows(t, Parent(p));
      assert Parent(p) + [p[|p| - 1]] == p;
      GrownMore(t, Grown(t, Parent(p)), Parent(p), p[|p| - 1]);
    }
  }

  /** A node of the table comes from an attempt that got that far. */
  ghost predicate HasNode(log: seq<Added>, q: Path)
    requires Logged(log)
  {
    q == [] || exists i :: 0 <= i < |log| && IsPrefix(q, log[i].path[..log[i].reached])
  }

  /** The result for q and m after an attempt. */
  ghost function Replaced(t: Table, a: Added, q: Path, m: nat): nat {
    if For(a, q, m) && Result(t, q, m) == 0 then a.result else Result(t, q, m)
  }

  lemma {:induction false} AppliedExact(t: Table, a: Added)
    requires Rooted(t) && a.reached <= |a.path| && a.m < 4
    ensures Rooted(Applied(t, a))
    ensures forall q :: q in Applied(t, a) <==> q in t || IsPrefix(q, a.path[..a.reached])
    ensures forall q, m :: Result(Applied(t, a), q, m) == Replaced(t, a, q, m)
  {
    var p := a.path[..a.reached];
    GrownExact(t, p);
    var g := Grown(t, p);
    if Complete(a) {
      assert p == a.path;
      assert |g[p]| == 4;
      forall q, m ensures Result(Applied(t, a), q, m) == Replaced(t, a, q, m) {
        assert Result(g, q, m) == Result(t, q, m);
      }
    }
  }

  lemma {:induction false} HasNodeStep(log: seq<Added>, q: Path)
    requires log != [] && Logged(log)
    ensures var n := |log| - 1; HasNode(log, q) <==> HasNode(log[..n], q) || IsPrefix(q, log[n].path[..log[n].reached])
  {
    var n := |log| - 1;
    assert forall i :: 0 <= i < n ==> log[..n][i] == log[i];
  }

  /** The first non-zero result added for a pattern and a method. */
  function FirstResult(log: seq<Added>, p: Path, m: nat): nat {
    if log == [] then 0
    else
      var n := |log| - 1;
      var before := FirstResult(log[..n], p, m);
      if before == 0 && For(log[n], p, m) then log[n].result else before
  }

  /** A successful addition for a pattern and a method. */
  predicate For(a: Added, p: Path, m: nat) { Complete(a) && a.path == p && a.m == m }

  ghost predicate IsFirst(log: seq<Added>, p: Path, m: nat, i: nat) {
    && i < |log| && For(log[i], p, m) && log[i].result != 0
    && forall j :: 0 <= j < i && For(log[j], p, m) ==> log[j].result == 0
  }

  lemma {:induction false} FirstResultMeaning(log: seq<Added>, p: Path, m: nat, i: nat)
    ensures FirstResult(log, p, m) == 0 ==> forall j :: 0 <= j < |log| && For(log[j], p, m) ==> log[j].result == 0
    ensures IsFirst(log, p, m, i) ==> FirstResult(log, p, m) == log[i].result
  {
    if log != [] {
      var n := |log| - 1;
      FirstResultMeaning(log[..n], p, m, i);
      forall j | 0 <= j < n ensures log[..n][j] == log[j] { }
      if IsFirst(log, p, m, i) && i == n {
        FirstZero(log[..n], p, m);
      }
    }
  }

  lemma {:induction false} FirstZero(log: seq<Added>, p: Path, m: nat)
    requires forall j :: 0 <= j < |log| && For(log[j], p, m) ==> log[j].result == 0
    ensures FirstResult(log, p, m) == 0
  {
    if log != [] {
      var n := |log| - 1;
      forall j | 0 <= j < n ensures log[..n][j] == log[j] { }
      FirstZero(log[..n], p, m);
    }
  }

  /** The table holds the first result for every pattern, and nodes for exactly the prefixes that the
      attempts reached. */
  lemma {:induction false} TableExact(log: seq<Added>)
    requires Logged(log)
    ensures Rooted(TableOf(log))
    ensures forall p, m :: Result(TableOf(log), p, m) == FirstResult(log, p, m)
    ensures forall q :: q in TableOf(log) <==> HasNode(log, q)
  {
    if log != [] {
      var n := |log| - 1;
      TableExact(log[..n]);
      var t := TableOf(log[..n]);
      AppliedExact(t, log[n]);
      forall p, m ensures Result(TableOf(log), p, m) == FirstResult(log, p, m) {
        assert Result(t, p, m) == FirstResult(log[..n], p, m);
        assert Result(TableOf(log), p, m) == Replaced(t, log[n], p, m);
      }
      forall q ensures q in TableOf(log) <==> HasNode(log, q) { HasNodeStep(log, q); }
    } else {
      forall p, m ensures Result(TableOf(log), p, m) == 0 { }
    }
  }

  /** After a failed attempt the results are what they were. */
  lemma {:induction false} FailedSame(log: seq<Added>, a: Added, p: Path, m: nat)
    requires !Complete(a)
    ensures FirstResult(log + [a], p, m) == FirstResult(log, p, m)
  {
    assert (log + [a])[..|log|] == log;
  }

  // ---------------------------------------------------------------- what a search reports

  /** At the last byte, no attempt made a node for an earlier lookup. */
  ghost predicate FirstTried(log: seq<Added>, p: Path, k: int, c: Byte)
    requires Logged(log)
  {
    k == c || (!HasNode(log, p + [c]) && (k == WILDCARD || !HasNode(log, p + [WILDCARD])))
  }

  ghost predicate InTheOpen(log: seq<Added>, text: Text, e: Event)
    requires Logged(log)
  {
    e.start + |e.path| == |text| && e.path != [] ==>
      FirstTried(log, e.path[..|e.path| - 1], e.path[|e.path| - 1], text[|text| - 1])
  }

  /** What a search reports, in terms of the additions alone. */
  lemma {:induction false} HistoryExact(log: seq<Added>, text: Text, e: Event)
    requires Logged(log)
    ensures Rooted(TableOf(log))
    ensures e in All(TableOf(log), text) <==>
      && e.m < 4 && FirstResult(log, e.path, e.m) != 0
      && Occurs(e.path, text, e.start) && Anchored(e.m, e.start, e.path, text)
      && InTheOpen(log, text, e) && (e.path == [] ==> e.start == 0)
  {
    TableExact(log);
    var t := TableOf(log);
    AllExact(t, text, e);
    assert Result(t, e.path, e.m) == FirstResult(log, e.path, e.m);
    if e.path != [] && text != [] {
      SameFirst(log, e.path[..|e.path| - 1], e.path[|e.path| - 1], text[|text| - 1]);
    }
  }

  lemma {:induction false} SameFirst(log: seq<Added>, p: Path, k: int, c: Byte)
    requires Logged(log)
    ensures First(TableOf(log), p, k, c) <==> FirstTried(log, p, k, c)
  {
    TableExact(log);
    assert p + [c] in TableOf(log) <==> HasNode(log, p + [c]);
    assert p + [WILDCARD] in TableOf(log) <==> HasNode(log, p + [WILDCARD]);
  }

  /** A dictionary of bytes alone. */
  lemma {:induction false} PlainHistory(log: seq<Added>)
    requires Logged(log) && forall i :: 0 <= i < |log| ==> PlainPath(log[i].path)
    ensures Rooted(TableOf(log)) && Plain(TableOf(log))
  {
    TableExact(log);
    forall q | q in TableOf(log) ensures PlainPath(q) {
      assert HasNode(log, q);
      if q != [] {
        var i :| 0 <= i < |log| && IsPrefix(q, log[i].path[..log[i].reached]);
        assert PlainPath(log[i].path);
        forall j | 0 <= j < |q| ensures 0 <= q[j] < 256 { assert q[j] == log[i].path[j]; }
      }
    }
  }

  /** In a dictionary of bytes alone, a non-empty pattern is reported exactly where the text has its
      bytes, the last byte included. */
  lemma {:induction false} PlainSearch(log: seq<Added>, text: Text, e: Event)
    requires Logged(log) && e.path != [] && forall i :: 0 <= i < |log| ==> PlainPath(log[i].path)
    ensures Rooted(TableOf(log))
    ensures e in All(TableOf(log), text) <==>
      && e.m < 4 && FirstResult(log, e.path, e.m) != 0 && Anchored(e.m, e.start, e.path, text)
      && e.start + |e.path| <= |text| && text[e.start..e.start + |e.path|] == e.path
  {
    PlainHistory(log);
    TableExact(log);
    PlainComplete(TableOf(log), text, e);
    assert Result(TableOf(log), e.path, e.m) == FirstResult(log, e.path, e.m);
  }

  /** The stop at the last byte loses occurrences.  After a history in which an attempt made a node for
      the byte c, the pattern "?" is not reported in the text of that one byte. */
  lemma {:induction false} Shadowed(log: seq<Added>, c: Byte)
    requires Logged(log) && HasNode(log, [c]) && FirstResult(log, [WILDCARD], FLOATING) != 0
    ensures var e := Event(0, [WILDCARD], FLOATING);
      Rooted(TableOf(log)) && Genuine(TableOf(log), [c], e) && e !in All(TableOf(log), [c])
  {
    var e := Event(0, [WILDCARD], FLOATING);
    TableExact(log);
    assert Result(TableOf(log), e.path, e.m) == FirstResult(log, e.path, e.m);
    HistoryExact(log, [c], e);
    assert [] + [c] == [c] && e.path[..0] == [];
    assert !FirstTried(log, [], WILDCARD, c);
  }

  /** And if an attempt made a node for the wildcard, a letter without regard to case is not reported in the
      text of that one letter. */
  lemma {:induction false} ShadowedLetter(log: seq<Added>, c: Byte)
    requires Logged(log) && NoCase(c) != 0 && HasNode(log, [WILDCARD]) && FirstResult(log, [NoCase(c)], FLOATING) != 0
    ensures var e := Event(0, [NoCase(c)], FLOATING);
      Rooted(TableOf(log)) && Genuine(TableOf(log), [c], e) && e !in All(TableOf(log), [c])
  {
    var e := Event(0, [NoCase(c)], FLOATING);
    TableExact(log);
    assert Result(TableOf(log), e.path, e.m) == FirstResult(log, e.path, e.m);
    HistoryExact(log, [c], e);
    assert [] + [WILDCARD] == [WILDCARD] && e.path[..0] == [];
    assert !FirstTried(log, [], NoCase(c), c);
  }

  /** Two such histories: "a" and "?" were added, or "ab" could not be added and then "?" was. */
  lemma {:induction false} ShadowExample(failed: bool)
    ensures var log := [if failed then Added([97, 98], 1, FLOATING, 1) else Added([97], 1, FLOATING, 1), Added([WILDCARD], 1, FLOATING, 2)];
      var e := Event(0, [WILDCARD], FLOATING);
      Logged(log) && Rooted(TableOf(log)) && Genuine(TableOf(log), [97], e) && e !in All(TableOf(log), [97])
  {
    var a := if failed then Added([97, 98], 1, FLOATING, 1) else Added([97], 1, FLOATING, 1);
    var log := [a, Added([WILDCARD], 1, FLOATING, 2)];
    assert a.path[..a.reached] == [97] && IsPrefix([97], log[0].path[..log[0].reached]);
    assert log[..1] == [a];
    assert FirstResult(log[..1], [WILDCARD], FLOATING) == 0 by { FirstZero(log[..1], [WILDCARD], FLOATING); }
    Shadowed(log, 97);
  }
}
