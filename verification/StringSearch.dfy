/**
  The string search of lib/peak_string.c: a tree of nodes whose children sit in paged lists, walked
  and extended by additions and searched recursively into a bounded stash (include/peak_stash.h).
 */
module StringSearch {
  import opened StringModel
  import opened StringHistory
  import P = PageList

  /** PAGE_DECLARE(_peak_strings, struct peak_strings, 5) */
  const PAGE: nat := 5

  class TrieNode {
    ghost const path: Path
    var next: P.Chain<TrieNode>
    var result: seq<nat>

    constructor (ghost p: Path)
      ensures path == p && next == [] && result == [0, 0, 0, 0]
    {
      path := p;
      next, result := [], [0, 0, 0, 0];
    }
  }

  /** The values a stash started with and the events pushed since. */
  datatype Pushed = Pushed(before: seq<nat>, events: seq<Event>) {
    ghost function Then(es: seq<Event>): Pushed { Pushed(before, events + es) }
    ghost function Kept(t: Table, n: nat): seq<nat> { Capped(before + Values(t, events), n) }
  }

  /** STASH_DECLARE */
  class Stash {
    const values: array<nat>
    var index: nat

    ghost predicate Valid() reads this { index <= values.Length }
    ghost function Contents(): seq<nat> reads this, values requires Valid() { values[..index] }

    ghost predicate Holds(t: Table, so: Pushed) reads this, values {
      Valid() && Contents() == so.Kept(t, values.Length)
    }

    constructor (size: nat)
      ensures Valid() && fresh(values) && values.Length == size && Contents() == []
    {
      values := new nat[size];
      index := 0;
    }

    /** STASH_PUSH */
    method Push(x: nat)
      requires Valid()
      modifies this, values
      ensures Valid() && Contents() == Capped(old(Contents()) + [x], values.Length)
    {
      if index < values.Length {
        values[index] := x;
        index := index + 1;
      }
    }
  }

  // ---------------------------------------------------------------- the tree as maps

  type Index = map<Path, TrieNode>
  type Chains = map<Path, P.Chain<TrieNode>>

  ghost predicate ChainOk(at: Index, p: Path, c: P.Chain<TrieNode>) {
    P.Valid(c, PAGE) && forall e :: e in P.Flat(c) ==> p + [e.key] in at && at[p + [e.key]] == e.val
  }

  ghost predicate Listed(chains: Chains, p: Path) {
    p != [] ==> Parent(p) in chains && p[|p| - 1] in P.Keys(chains[Parent(p)])
  }

  /** The children of every node, and every node a child of the node it extends. */
  ghost predicate Linked(at: Index, chains: Chains, table: Table) {
    && at.Keys == chains.Keys == table.Keys && Rooted(table)
    && (forall p {:trigger ChainOk(at, p, chains[p])} :: p in chains ==> ChainOk(at, p, chains[p]))
    && (forall p {:trigger Listed(chains, p)} :: p in chains ==> Listed(chains, p))
  }

  lemma {:induction false} KeysGrow<T>(c: P.Chain<T>, x: P.Entry<T>, c': P.Chain<T>, k: nat)
    requires P.Insertion(c, x, c', k)
    ensures P.Keys(c') == P.Keys(c) + {x.key}
    ensures forall e :: e in P.Flat(c') <==> e in P.Flat(c) || e == x
  {
    var f := P.Flat(c);
    assert f == f[..k] + f[k..];
    assert P.Flat(c') == f[..k] + [x] + f[k..];
    forall e ensures e in P.Flat(c') <==> e in f || e == x { }
    assert x in P.Flat(c');
  }

  lemma {:induction false} ParentOf(p: Path, k: int)
    ensures Parent(p + [k]) == p && (p + [k])[|p + [k]| - 1] == k && p + [k] != []
  {
    assert (p + [k])[..|p|] == p;
  }

  lemma {:induction false} Child(at: Index, chains: Chains, table: Table, p: Path, k: int)
    requires Linked(at, chains, table) && p in at
    ensures p + [k] in at <==> k in P.Keys(chains[p])
  {
    ParentOf(p, k);
    if p + [k] in at {
      assert Listed(chains, p + [k]);
    }
    if k in P.Keys(chains[p]) {
      var e :| e in P.Flat(chains[p]) && e.key == k;
      assert ChainOk(at, p, chains[p]);
    }
  }

  lemma {:induction false} ChainGrow(at: Index, p: Path, c: P.Chain<TrieNode>, q: Path, n: TrieNode)
    requires ChainOk(at, p, c) && q !in at
    ensures ChainOk(at[q := n], p, c)
  {
  }

  lemma {:induction false} ChainInsert(at: Index, p: Path, c: P.Chain<TrieNode>, x: P.Entry<TrieNode>, c': P.Chain<TrieNode>, i: nat)
    requires ChainOk(at, p, c) && p + [x.key] !in at && P.Valid(c', PAGE) && P.Insertion(c, x, c', i)
    ensures ChainOk(at[p + [x.key] := x.val], p, c')
  {
    KeysGrow(c, x, c', i);
  }

  lemma {:induction false} ListedInsert(chains: Chains, p: Path, x: P.Entry<TrieNode>, c: P.Chain<TrieNode>, i: nat, r: Path)
    requires p in chains && p + [x.key] !in chains && P.Insertion(chains[p], x, c, i)
    requires r == p + [x.key] || (r in chains && Listed(chains, r))
    ensures Listed(chains[p := c][p + [x.key] := []], r)
  {
    ParentOf(p, x.key);
    KeysGrow(chains[p], x, c, i);
  }

  lemma {:induction false} RootedInsert(table: Table, p: Path, k: int)
    requires Rooted(table) && p in table && p + [k] !in table
    ensures Rooted(table[p + [k] := [0, 0, 0, 0]])
  {
    ParentOf(p, k);
  }

  lemma {:induction false} LinkedInsert(at: Index, chains: Chains, table: Table, p: Path, x: P.Entry<TrieNode>, c: P.Chain<TrieNode>, i: nat)
    requires Linked(at, chains, table) && p in at && x.key !in P.Keys(chains[p])
    requires P.Valid(c, PAGE) && P.Insertion(chains[p], x, c, i)
    ensures var q := p + [x.key];
      q !in at && Linked(at[q := x.val], chains[p := c][q := []], table[q := [0, 0, 0, 0]])
  {
    var q := p + [x.key];
    Child(at, chains, table, p, x.key);
    RootedInsert(table, p, x.key);
    var at', chains' := at[q := x.val], chains[p := c][q := []];
    forall r | r in chains' ensures ChainOk(at', r, chains'[r]) {
      if r == p {
        ChainInsert(at, p, chains[p], x, c, i);
      } else if r != q {
        ChainGrow(at, r, chains[r], q, x.val);
      }
    }
    forall r | r in chains' ensures Listed(chains', r) {
      if r != q { assert Listed(chains, r); }
      ListedInsert(chains, p, x, c, i, r);
    }
  }

  lemma {:induction false} LinkedStore(at: Index, chains: Chains, table: Table, p: Path, row: seq<nat>)
    requires Linked(at, chains, table) && p in at && |row| == 4
    ensures Linked(at, chains, table[p := row])
  {
    assert table[p := row].Keys == table.Keys;
  }

  // ---------------------------------------------------------------- the search tree

  datatype Flags = Flags(left: bool, right: bool, nocase: bool)

  /** The anchoring method a pattern is stored under. */
  function Method(f: Flags): (m: nat)
    ensures m < 4
    ensures (m == LEFT || m == EXACT) == f.left && (m == RIGHT || m == EXACT) == f.right
  {
    if f.left && f.right then EXACT
    else if f.left then LEFT
    else if f.right then RIGHT
    else FLOATING
  }

  /** The flags as the caller means them: a left pattern is found at the start of the text, a right one
      at its end, and one with both flags is the whole text. */
  lemma {:induction false} FlagsMean(f: Flags, start: nat, p: Path, text: Text)
    ensures Anchored(Method(f), start, p, text) <==> (f.left ==> start == 0) && (f.right ==> start + |p| == |text|)
  {
  }

  lemma {:induction false} AppliedIs(t: Table, a: Added, got: Path)
    requires IsPrefix(got, a.path) && a.reached == |got|
    ensures Complete(a) <==> got == a.path
    ensures var g := Grown(t, got);
      Applied(t, a) == if Complete(a) && got in g && a.m < |g[got]| then g[got := Stored(g[got], a.m, a.result)] else g
  {
  }

  lemma {:induction false} OnlyRoot(root: TrieNode)
    ensures Linked(map[[] := root], map[[] := []], map[[] := NONE]) && TableOf([]) == map[[] := NONE]
  {
    assert ChainOk(map[[] := root], [], []);
  }

  /** One more attempt. */
  lemma {:induction false} Appended(log: seq<Added>, a: Added)
    requires Logged(log) && a.reached <= |a.path| && a.m < 4
    ensures Logged(log + [a]) && TableOf(log + [a]) == Applied(TableOf(log), a)
    ensures Result(TableOf(log + [a]), a.path, a.m) == FirstResult(log + [a], a.path, a.m)
  {
    assert (log + [a])[..|log|] == log;
    TableExact(log + [a]);
  }

  /** A walk along whole ended early, at got. */
  ghost predicate Halted(t: Table, t': Table, got: Path, whole: Path) {
    GrownTo(t, t', got) && IsPrefix(got, whole) && got != whole
  }

  lemma {:induction false} OnTheWay(p: Path, rest: Path, whole: Path)
    requires p + rest == whole
    ensures IsPrefix(p, whole) && (p == whole <==> rest == [])
    ensures whole[..|p|] == p
  {
  }

  lemma {:induction false} Step(p: Path, k: int, rest: Path)
    ensures p + ([k] + rest) == (p + [k]) + rest
  {
  }

  /** The next token of a pattern and the position behind it. */
  method Token(text: Text, i: nat, nocase: bool) returns (k: int, j: nat)
    requires i < |text|
    ensures i < j <= |text| && Parse(text, i, nocase) == [k] + Parse(text, j, nocase)
  {
    j := i;
    if text[j] == QUESTION {
      k := WILDCARD;
    } else {
      if Escaped(text, j) {
        j := j + 1;
      }
      k := Fold(text[j], nocase);
    }
    j := j + 1;
  }

  class Strings {
    const root: TrieNode
    ghost var nodes: set<TrieNode>
    ghost var at: Index
    ghost var chains: Chains
    ghost var table: Table
    /** The attempts so far. */
    ghost var log: seq<Added>

    /** The maps describe the heap. */
    ghost predicate Laid() reads this, nodes {
      && at.Keys == chains.Keys == table.Keys
      && [] in at && at[[]] == root
      && forall p {:trigger at[p]} :: p in at ==> at[p] in nodes && at[p].path == p && at[p].next == chains[p] && at[p].result == table[p]
    }

    ghost predicate Formed() reads this, nodes {
      Laid() && Linked(at, chains, table)
    }

    ghost predicate Valid() reads this, nodes {
      Formed() && Logged(log) && table == TableOf(log)
    }

    ghost predicate Known(node: TrieNode) reads this {
      node.path in at && at[node.path] == node
    }

    /** peak_string_init */
    constructor ()
      ensures Valid() && fresh(nodes) && log == []
    {
      root := new TrieNode([]);
      log := [];
      new;
      nodes, at, chains, table := {root}, map[[] := root], map[[] := []], map[[] := NONE];
      OnlyRoot(root);
    }

    /** PAGE_FIND among the children of a node. */
    method Lookup(node: TrieNode, k: int) returns (kid: TrieNode?)
      requires Formed() && Known(node)
      ensures kid == null <==> node.path + [k] !in table
      ensures kid != null ==> Known(kid) && kid.path == node.path + [k]
    {
      assert ChainOk(at, node.path, chains[node.path]);
      var found := P.Find(node.next, k);
      Child(at, chains, table, node.path, k);
      kid := if found.Some? then found.value.val else null;
    }

    method SetChain(node: TrieNode, c: P.Chain<TrieNode>)
      requires Laid() && Known(node)
      modifies this`chains, node`next
      ensures Laid() && chains == old(chains)[node.path := c]
    {
      node.next := c;
      chains := chains[node.path := c];
    }

    method SetNext(node: TrieNode, c: P.Chain<TrieNode>, ghost kid: TrieNode)
      requires Laid() && Known(node)
      requires kid.path !in at && kid != node && kid.next == [] && kid.result == NONE
      modifies this`nodes, this`at, this`chains, this`table, node`next
      ensures Laid()
      ensures nodes == old(nodes) + {kid} && at == old(at)[kid.path := kid] && table == old(table)[kid.path := NONE]
      ensures chains == old(chains)[node.path := c][kid.path := []]
    {
      SetChain(node, c);
      Enrol(kid);
    }

    /** A node of its own joins the maps. */
    ghost method Enrol(kid: TrieNode)
      requires Laid() && kid.path !in at && kid.next == [] && kid.result == NONE
      modifies this`nodes, this`at, this`chains, this`table
      ensures Laid()
      ensures nodes == old(nodes) + {kid} && at == old(at)[kid.path := kid] && table == old(table)[kid.path := NONE]
      ensures chains == old(chains)[kid.path := []]
    {
      var q := kid.path;
      assert forall p :: p in at ==> at[p] in nodes;
      nodes := nodes + {kid};
      at, chains, table := at[q := kid], chains[q := []], table[q := NONE];
    }

    method SetResult(node: TrieNode, row: seq<nat>)
      requires Laid() && Known(node)
      modifies this`table, node`result
      ensures Laid() && table == old(table)[node.path := row] && node.result == row
    {
      node.result := row;
      table := table[node.path := row];
    }

    /** A new child in place. */
    method Hook(node: TrieNode, x: P.Entry<TrieNode>, c: P.Chain<TrieNode>, ghost i: nat)
      requires Formed() && Known(node) && x.key !in P.Keys(node.next)
      requires P.Valid(c, PAGE) && P.Insertion(node.next, x, c, i)
      requires x.val.path == node.path + [x.key] && x.val.next == [] && x.val.result == NONE
      modifies this`nodes, this`at, this`chains, this`table, node`next
      ensures Formed()
      ensures nodes == old(nodes) + {x.val} && at == old(at)[x.val.path := x.val] && table == old(table)[x.val.path := NONE]
    {
      LinkedInsert(at, chains, table, node.path, x, c, i);
      SetNext(node, c, x.val);
    }

    /** PAGE_INSERT below a node: the child, unless it needs memory that is not there. */
    method Reach(node: TrieNode, k: int, memory: bool) returns (kid: TrieNode?)
      requires Formed() && Known(node)
      modifies this`nodes, this`at, this`chains, this`table, node`next
      ensures Formed() && fresh(nodes - old(nodes))
      ensures kid == null ==> nodes == old(nodes) && table == old(table) && at == old(at) && node.path + [k] !in table && !memory
      ensures kid != null ==> Known(kid) && kid.path == node.path + [k]
      ensures kid != null ==> table == if kid.path in old(table) then old(table) else old(table)[kid.path := NONE]
    {
      Child(at, chains, table, node.path, k);
      var ref := new TrieNode(node.path + [k]);
      var x := P.Entry(k, ref);
      assert ChainOk(at, node.path, node.next);
      var c, ret, i := P.Insert(node.next, x, PAGE, memory);
      if ret.None? {
        return null;
      }
      kid := ret.value.val;
      if kid == ref {
        Hook(node, x, c, i);
      }
    }

    /** The walk has come to node, and position i of the text; t is the table it started with. */
    ghost predicate Walking(t: Table, node: TrieNode, text: Text, i: nat, nocase: bool) reads this, nodes {
      && Formed() && Known(node) && i <= |text| && GrownTo(t, table, node.path)
      && node.path + Parse(text, i, nocase) == Parse(text, 0, nocase)
    }

    lemma AtRoot(text: Text, nocase: bool)
      requires Formed()
      ensures Walking(table, root, text, 0, nocase)
    {
      assert at[[]] == root && root.path == [];
      GrownNot(table);
    }

    /** One token of a pattern. */
    method Follow(ghost t: Table, node: TrieNode, text: Text, i: nat, nocase: bool, memory: bool) returns (kid: TrieNode?, j: nat)
      requires i < |text| && Walking(t, node, text, i, nocase)
      modifies this`nodes, this`at, this`chains, this`table, node`next
      ensures fresh(nodes - old(nodes)) && i < j <= |text|
      ensures memory ==> kid != null
      ensures kid == null ==> Formed() && Halted(t, table, node.path, Parse(text, 0, nocase))
      ensures kid != null ==> Walking(t, kid, text, j, nocase)
    {
      var k;
      k, j := Token(text, i, nocase);
      Step(node.path, k, Parse(text, j, nocase));
      OnTheWay(node.path, Parse(text, i, nocase), Parse(text, 0, nocase));
      GrownMore(t, table, node.path, k);
      kid := Reach(node, k, memory);
    }

    /** The loop of peak_string_add: the node for the tokens of a pattern, unless memory runs out.
        Allocations succeed as long as the position in the pattern is below limit. */
    method Walk(text: Text, nocase: bool, limit: nat) returns (node: TrieNode?, ghost got: Path)
      requires Formed()
      modifies this`nodes, this`at, this`chains, this`table, nodes
      ensures Formed() && fresh(nodes - old(nodes))
      ensures node == null ==> Halted(old(table), table, got, Parse(text, 0, nocase))
      ensures node != null ==> Walking(old(table), node, text, |text|, nocase)
      ensures limit >= |text| ==> node != null
    {
      node := root;
      var i := 0;
      AtRoot(text, nocase);
      got := [];
      while i < |text|
        invariant node != null && i <= |text| && fresh(nodes - old(nodes)) && Walking(old(table), node, text, i, nocase)
      {
        got := node.path;
        node, i := Follow(old(table), node, text, i, nocase, i < limit);
        if node == null {
          return;
        }
      }
    }

    /** Walk the tokens of the pattern, then keep the first result. */
    method Attempt(result: nat, text: Text, flags: Flags, limit: nat) returns (r: nat, ghost a: Added)
      requires Formed()
      modifies this`nodes, this`at, this`chains, this`table, nodes
      ensures Formed() && fresh(nodes - old(nodes))
      ensures a.path == Parse(text, 0, flags.nocase) && a.reached <= |a.path| && a.m == Method(flags) && a.result == result
      ensures table == Applied(old(table), a)
      ensures r == if Complete(a) then Result(table, a.path, a.m) else 0
      ensures limit >= |text| ==> Complete(a)
    {
      var node, got := Walk(text, flags.nocase, limit);
      if node != null {
        got := node.path;
        OnTheWay(got, [], Parse(text, 0, flags.nocase));
      }
      a := Added(Parse(text, 0, flags.nocase), |got|, Method(flags), result);
      GrownIs(old(table), table, got);
      AppliedIs(old(table), a, got);
      r := 0;
      if node != null {
        r := Store(node, Method(flags), result);
      }
    }

    /** peak_string_add.  Every call is an attempt in the history, complete if it finds the memory it
        needs. */
    method Add(result: nat, buf: P.Option<Text>, flags: Flags, limit: nat) returns (r: nat)
      requires Valid()
      modifies this`nodes, this`at, this`chains, this`table, this`log, nodes
      ensures Valid() && fresh(nodes - old(nodes))
      ensures buf.None? ==> r == 0 && log == old(log)
      ensures buf.Some? ==> |log| == |old(log)| + 1 && log == old(log) + [log[|old(log)|]]
      ensures buf.Some? ==> var a := log[|old(log)|];
        && a.path == Parse(buf.value, 0, flags.nocase) && a.m == Method(flags) && a.result == result
        && r == (if Complete(a) then FirstResult(log, a.path, a.m) else 0)
        && (limit >= |buf.value| ==> Complete(a))
    {
      if buf.None? {
        return 0;
      }
      ghost var a;
      r, a := Attempt(result, buf.value, flags, limit);
      Appended(log, a);
      log := log + [a];
    }

    method Store(node: TrieNode, m: nat, result: nat) returns (r: nat)
      requires Formed() && Known(node) && m < 4
      modifies this`table, node`result
      ensures Formed() && node.path in old(table) && m < |old(table)[node.path]|
      ensures table == old(table)[node.path := Stored(old(table)[node.path], m, result)]
      ensures r == Result(table, node.path, m)
    {
      ghost var p := node.path;
      LinkedStore(at, chains, table, p, Stored(table[p], m, result));
      var row := node.result;
      if row[m] == 0 {
        row := row[m := result];
      }
      SetResult(node, row);
      r := row[m];
    }

    // -------------------------------------------------------------- searching

    /** peak_string_match */
    method MatchNode(node: TrieNode, len: nat, start: bool, stash: Stash, ghost text: Text, ghost s: nat, ghost so: Pushed) returns (end: bool)
      requires Formed() && Known(node) && stash.Holds(table, so)
      requires start == (s == 0) && s + |node.path| + len == |text|
      modifies stash, stash.values
      ensures end == (len == 0)
      ensures stash.Holds(table, so.Then(Match(table, text, s, node.path)))
    {
      assert node.result == table[node.path];
      PushRow(node.result, len, start, stash, table, s, node.path, so);
      return len == 0;
    }

    /** One lookup of _peak_string_find, the match of what it finds and the search below it;
        stop tells that the search is over. */
    method Try(node: TrieNode, k: int, text: Text, pos: nat, start: bool, stash: Stash, ghost s: nat, ghost so: Pushed) returns (stop: bool)
      requires Formed() && Known(node) && stash.Holds(table, so)
      requires start == (s == 0) && pos == s + |node.path| < |text|
      modifies stash, stash.values
      ensures stop == (pos + 1 == |text| && node.path + [k] in table)
      ensures stash.Holds(table, so.Then(Branch(table, text, s, node.path, k)))
      decreases |text| - pos, 0
    {
      var found := Lookup(node, k);
      if found == null {
        ThenNone(so);
        return false;
      }
      stop := MatchNode(found, |text| - pos - 1, start, stash, text, s, so);
      ghost var es := Match(table, text, s, found.path);
      if stop {
        ThenNone(Pushed([], es));
        return;
      }
      FindBelow(found, text, pos + 1, start, stash, s, so.Then(es));
      ThenThen(so, es, Search(table, text, s, found.path));
    }

    /** _peak_string_find */
    method FindBelow(node: TrieNode, text: Text, pos: nat, start: bool, stash: Stash, ghost s: nat, ghost so: Pushed)
      requires Formed() && Known(node) && stash.Holds(table, so)
      requires start == (s == 0) && pos == s + |node.path| < |text|
      modifies stash, stash.values
      ensures stash.Holds(table, so.Then(Search(table, text, s, node.path)))
      decreases |text| - pos, 3
    {
      SearchStops(table, text, s, node.path);
      var stop := Try(node, text[pos], text, pos, start, stash, s, so);
      if !stop {
        FindRest(node, text, pos, start, stash, s, so);
      }
    }

    /** After the literal lookup. */
    method FindRest(node: TrieNode, text: Text, pos: nat, start: bool, stash: Stash, ghost s: nat, ghost so: Pushed)
      requires Formed() && Known(node) && pos == s + |node.path| < |text| && start == (s == 0)
      requires !Stops(table, text, s, node.path, text[pos]) && stash.Holds(table, so.Then(Branch(table, text, s, node.path, text[pos])))
      modifies stash, stash.values
      ensures stash.Holds(table, so.Then(Search(table, text, s, node.path)))
      decreases |text| - pos, 2
    {
      SearchGoesOn(table, text, s, node.path, so);
      FindOthers(node, text, pos, start, stash, s, so.Then(Branch(table, text, s, node.path, text[pos])));
    }

    /** The rest of _peak_string_find: wildcard and letter without case. */
    method FindOthers(node: TrieNode, text: Text, pos: nat, start: bool, stash: Stash, ghost s: nat, ghost so: Pushed)
      requires Formed() && Known(node) && stash.Holds(table, so)
      requires start == (s == 0) && pos == s + |node.path| < |text|
      modifies stash, stash.values
      ensures stash.Holds(table, so.Then(Others(table, text, s, node.path)))
      decreases |text| - pos, 1
    {
      var k := NoCase(text[pos]);
      ghost var t, p := table, node.path;
      ghost var b, d := Branch(t, text, s, p, WILDCARD), Branch(t, text, s, p, k);
      OthersCases(t, text, s, p, so);
      var stop := Try(node, WILDCARD, text, pos, start, stash, s, so);
      if !stop && k != 0 {
        stop := Try(node, k, text, pos, start, stash, s, so.Then(b));
      }
    }

    /** peak_string_find: the stash ends up with what it held and the results of the search, as far
        as they fit. */
    method Find(text: Text, stash: Stash)
      requires Valid() && stash.Valid()
      modifies stash, stash.values
      ensures stash.Valid()
      ensures stash.Contents() == Capped(old(stash.Contents()) + Values(table, All(table, text)), stash.values.Length)
    {
      ghost var so := Pushed(stash.Contents(), []);
      assert at[[]] == root;
      HoldsNow(stash, table);
      var end := MatchNode(root, |text|, true, stash, text, 0, so);
      ghost var es := Match(table, text, 0, []);
      ThenThen(so, es, []);
      if !end {
        FindFrom(text, stash, so.Then(es));
      }
      AllPushed(table, text, so, stash.values.Length);
    }

    /** The loop of peak_string_find. */
    method FindFrom(text: Text, stash: Stash, ghost so: Pushed)
      requires Formed() && stash.Holds(table, so)
      modifies stash, stash.values
      ensures stash.Holds(table, so.Then(Starts(table, text, |text|)))
    {
      assert at[[]] == root && root.path == [];
      GrownNot(table);
      ThenNone(so);
      for i := 0 to |text|
        invariant stash.Holds(table, so.Then(Starts(table, text, i)))
      {
        FindBelow(root, text, i, i == 0, stash, i, so.Then(Starts(table, text, i)));
        ThenThen(so, Starts(table, text, i), Search(table, text, i, []));
      }
    }
  }

  lemma {:induction false} SearchStops(t: Table, text: Text, s: nat, p: Path)
    requires Rooted(t) && s + |p| < |text|
    ensures var c := text[s + |p|]; Stops(t, text, s, p, c) ==> Search(t, text, s, p) == Branch(t, text, s, p, c)
  {
  }

  lemma {:induction false} SearchGoesOn(t: Table, text: Text, s: nat, p: Path, so: Pushed)
    requires Rooted(t) && s + |p| < |text| && !Stops(t, text, s, p, text[s + |p|])
    ensures so.Then(Branch(t, text, s, p, text[s + |p|])).Then(Others(t, text, s, p)) == so.Then(Search(t, text, s, p))
  {
    ThenThen(so, Branch(t, text, s, p, text[s + |p|]), Others(t, text, s, p));
  }

  lemma {:induction false} OthersCases(t: Table, text: Text, s: nat, p: Path, so: Pushed)
    requires Rooted(t) && s + |p| < |text|
    ensures var k := NoCase(text[s + |p|]);
      var b, d := Branch(t, text, s, p, WILDCARD), Branch(t, text, s, p, k);
      && (Stops(t, text, s, p, WILDCARD) || k == 0 ==> so.Then(Others(t, text, s, p)) == so.Then(b))
      && (!Stops(t, text, s, p, WILDCARD) && k != 0 ==> so.Then(Others(t, text, s, p)) == so.Then(b).Then(d))
  {
    var k := NoCase(text[s + |p|]);
    var b, d := Branch(t, text, s, p, WILDCARD), Branch(t, text, s, p, k);
    ThenThen(so, b, d);
  }

  lemma {:induction false} AllPushed(t: Table, text: Text, so: Pushed, n: nat)
    requires Rooted(t) && so.events == []
    ensures so.Then(Match(t, text, 0, [])).Then(Starts(t, text, |text|)).Kept(t, n)
         == Capped(so.before + Values(t, All(t, text)), n)
    ensures text == [] ==> so.Then(Match(t, text, 0, [])).Then(Starts(t, text, |text|)) == so.Then(Match(t, text, 0, []))
  {
    ThenThen(so, Match(t, text, 0, []), Starts(t, text, |text|));
    assert [] + All(t, text) == All(t, text);
  }

  /** STASH_PUSH under a condition. */
  method PushIf(c: bool, x: nat, stash: Stash, ghost t: Table, ghost e: Event, ghost so: Pushed)
    requires Result(t, e.path, e.m) == x && stash.Holds(t, so)
    modifies stash, stash.values
    ensures stash.Holds(t, so.Then(When(c, e)))
  {
    if c {
      stash.Push(x);
      PushOne(t, so, e, stash.values.Length);
    } else {
      ThenNone(so);
    }
  }

  method PushRow(row: seq<nat>, len: nat, start: bool, stash: Stash, ghost t: Table, ghost s: nat, ghost p: Path, ghost so: Pushed)
    requires p in t && t[p] == row && |row| == 4 && stash.Holds(t, so)
    modifies stash, stash.values
    ensures stash.Holds(t, so.Then(MatchRow(row, s, p, start, len == 0)))
  {
    ghost var e0, e1, e2, e3 := Event(s, p, FLOATING), Event(s, p, LEFT), Event(s, p, RIGHT), Event(s, p, EXACT);
    ghost var a, b := When(row[FLOATING] != 0, e0), When(row[LEFT] != 0 && start, e1);
    ghost var c, d := When(row[RIGHT] != 0 && len == 0, e2), When(row[EXACT] != 0 && start && len == 0, e3);
    PushIf(row[FLOATING] != 0, row[FLOATING], stash, t, e0, so);
    PushIf(row[LEFT] != 0 && start, row[LEFT], stash, t, e1, so.Then(a));
    ThenThen(so, a, b);
    PushIf(row[RIGHT] != 0 && len == 0, row[RIGHT], stash, t, e2, so.Then(a + b));
    ThenThen(so, a + b, c);
    PushIf(row[EXACT] != 0 && start && len == 0, row[EXACT], stash, t, e3, so.Then(a + b + c));
    ThenThen(so, a + b + c, d);
  }

  lemma {:induction false} ThenNone(so: Pushed)
    ensures so.Then([]) == so
  {
    assert so.events + [] == so.events;
  }

  lemma {:induction false} ThenThen(so: Pushed, a: seq<Event>, b: seq<Event>)
    ensures so.Then(a).Then(b) == so.Then(a + b)
    ensures a + [] == a
  {
    assert (so.events + a) + b == so.events + (a + b);
  }

  lemma {:induction false} HoldsNow(stash: Stash, t: Table)
    requires stash.Valid()
    ensures stash.Holds(t, Pushed(stash.Contents(), []))
  {
    assert stash.Contents() + Values(t, []) == stash.Contents();
  }

  lemma {:induction false} PushOne(t: Table, so: Pushed, e: Event, n: nat)
    ensures Capped(so.Kept(t, n) + [Result(t, e.path, e.m)], n) == so.Then([e]).Kept(t, n)
  {
    ValuesAppend(t, so.events, [e]);
    var x := [Result(t, e.path, e.m)];
    assert Values(t, [e]) == Values(t, []) + x;
    CappedAppend(so.before + Values(t, so.events), x, n);
    assert so.before + (Values(t, so.events) + x) == so.before + Values(t, so.events) + x;
  }
}
