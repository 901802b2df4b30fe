/**
  geoconv and the lookup (bin/geoconv/geoconv.y, lib/peak_locate.c): entries go into a
  red-black tree under the overlap-is-equal order, the final walk writes them out in
  ascending order while it hands every node back to the pool, and the lookup searches the
  written table.
 */
module Geolocation {
  import opened TreeShape
  import opened RedBlackTree
  import opened TreeWalk

  const LOCATE_UNKNOWN := 0
  const LOCATE_XX := 245
  const POOL_SIZE := 150000

  /** struct peak_locate, addresses as 128-bit numbers */
  datatype Record = Record(span: Span, location: nat)

  ghost function RecordOf(n: Node): Record { Record(n.key, n.location) }

  ghost function Records(s: seq<Node>): (r: seq<Record>)
    ensures |r| == |s| && forall i :: 0 <= i < |s| ==> r[i] == RecordOf(s[i])
  {
    if s == [] then [] else Records(s[..|s| - 1]) + [RecordOf(s[|s| - 1])]
  }

  /** The order of the written table, as bsearch needs it. */
  ghost predicate Ascending(db: seq<Record>) {
    && (forall i :: 0 <= i < |db| ==> db[i].span.Proper())
    && (forall i, j :: 0 <= i < j < |db| ==> db[i].span.Before(db[j].span))
  }

  ghost function After(chain: seq<Node>, i: nat): Node?
    requires i < |chain|
  {
    if i + 1 < |chain| then chain[i + 1] else null
  }

  /** The pool of include/peak_prealloc.h.  Its free list runs through the first word of each
      chunk, which is where a tree node keeps its left link. */
  class Pool {
    var free: Node?
    var used: int
    ghost var chain: seq<Node>

    ghost predicate Valid()
      reads this, chain
    {
      && free == First(chain)
      && (forall i :: 0 <= i < |chain| ==> chain[i].left == After(chain, i))
    }

    constructor ()
      ensures Valid() && chain == [] && used == 0
    {
      free, used, chain := null, 0, [];
    }

    /** prealloc_put */
    method Put(e: Node)
      requires Valid() && e !in chain
      modifies this, e`left
      ensures Valid() && chain == [e] + old(chain) && used == old(used) - 1 && e.left == First(old(chain))
    {
      e.left := free;
      free := e;
      used := used - 1;
      chain := [e] + chain;
      forall i | 0 <= i < |chain|
        ensures chain[i].left == After(chain, i)
      {
        ghost var c0 := old(chain);
        if i == 0 {
          assert chain[i] == e;
          assert c0 != [] ==> chain[1] == c0[0];
        } else {
          assert chain[i] == c0[i - 1] && c0[i - 1] in c0;
          assert old(c0[i - 1].left) == After(c0, i - 1);
          assert chain[i].left == old(c0[i - 1].left);
        }
      }
    }
  }

  ghost function Reversed(s: seq<Node>): seq<Node> {
    if s == [] then [] else [s[|s| - 1]] + Reversed(s[..|s| - 1])
  }

  lemma {:induction false} ReversedElems(s: seq<Node>)
    ensures Elems(Reversed(s)) == Elems(s)
  {
    if s != [] {
      ReversedElems(s[..|s| - 1]);
      ElemsAppend([s[|s| - 1]], Reversed(s[..|s| - 1]));
      ElemsAppend(s[..|s| - 1], [s[|s| - 1]]);
      assert s == s[..|s| - 1] + [s[|s| - 1]];
    }
  }

  /** The walk's place at index i of the in-order sequence. */
  lemma {:induction false} PlaceAt(m: Links, tree: Tree, root: Node?, i: nat)
    requires Focus(m, Top, tree, root) && Sorted(InOrder(tree)) && i < |InOrder(tree)|
    ensures InOrder(tree)[i] in Nodes(tree)
    ensures var place := PathTo(Top, tree, InOrder(tree)[i]);
            Focus(m, place.0, place.1, root) && Rest(place.0, place.1) == InOrder(tree)[i + 1..]
  {
    var s := InOrder(tree);
    NodesInOrder(tree);
    GoTo(m, Top, tree, root, s[i]);
    var place := PathTo(Top, tree, s[i]);
    var c, t := place.0, place.1;
    PlugOrder(c, t);
    Regroup(Earlier(c), InOrder(t.l), [t.n], InOrder(t.r), Later(c));
    var k := |Earlier(c) + InOrder(t.l)|;
    assert s[k] == s[i];
    assert i == k by {
      assert i < k ==> s[i].key.Before(s[k].key);
      assert k < i ==> s[k].key.Before(s[i].key);
    }
  }

  /** One turn of finalise's loop: the node goes back to the pool, then the walk moves on. */
  method WalkOn(elm: Node, pool: Pool, ghost m: Links, ghost tree: Tree, ghost root: Node?, ghost i: nat, ghost z: seq<Node>)
    returns (next: Node?)
    requires Focus(m, Top, tree, root) && Sorted(InOrder(tree)) && i < |InOrder(tree)| && elm == InOrder(tree)[i]
    requires pool.Valid() && pool.chain == Reversed(InOrder(tree)[..i]) + z && Elems(z) !! Elems(InOrder(tree))
    requires Walkable(m, Elems(InOrder(tree)[..i]))
    modifies pool, elm`left
    ensures pool.Valid() && pool.chain == Reversed(InOrder(tree)[..i + 1]) + z && pool.used == old(pool.used) - 1
    ensures Walkable(m, Elems(InOrder(tree)[..i + 1])) && next == First(InOrder(tree)[i + 1..])
  {
    ghost var s := InOrder(tree);
    ghost var place := PlacedAt(m, tree, root, i, pool.chain, z);
    pool.Put(elm);
    next := Next(elm, m, place.0, place.1, root, Elems(s[..i + 1]));
  }

  /** What the turn needs to know, before anything is written. */
  lemma {:induction false} PlacedAt(m: Links, tree: Tree, root: Node?, i: nat, chain: seq<Node>, z: seq<Node>) returns (place: (Ctx, Tree))
    requires Focus(m, Top, tree, root) && Sorted(InOrder(tree)) && i < |InOrder(tree)|
    requires chain == Reversed(InOrder(tree)[..i]) + z && Elems(z) !! Elems(InOrder(tree))
    ensures place.1.Branch? && place.1.n == InOrder(tree)[i] && Focus(m, place.0, place.1, root)
    ensures place.1.n in m && (m[place.1.n].right != null ==> m[place.1.n].right !in chain)
    ensures Rest(place.0, place.1) == InOrder(tree)[i + 1..]
    ensures place.1.n !in chain && Elems(InOrder(tree)[..i + 1]) !! Elems(InOrder(tree)[i + 1..])
    ensures [place.1.n] + chain == Reversed(InOrder(tree)[..i + 1]) + z
    ensures Elems(InOrder(tree)[..i + 1]) == Elems(InOrder(tree)[..i]) + {place.1.n}
  {
    PlaceAt(m, tree, root, i);
    place := PathTo(Top, tree, InOrder(tree)[i]);
    ApartFrom(InOrder(tree), i, chain, z);
    ReversedStep(InOrder(tree), i, z);
    Around(m, place.0, place.1, root);
    RestElems(place.0, place.1);
  }

  /** finalise's loop, on the links alone */
  method WriteOut(root: Node?, pool: Pool, ghost m: Links, ghost shape: Tree) returns (db: seq<Record>)
    requires Focus(m, Top, shape, root) && Sorted(InOrder(shape)) && Walkable(m, {})
    requires pool.Valid() && Elems(pool.chain) !! Elems(InOrder(shape))
    modifies pool, m.Keys
    ensures db == Records(InOrder(shape))
    ensures pool.Valid() && pool.chain == Reversed(InOrder(shape)) + old(pool.chain)
    ensures pool.used == old(pool.used) - |InOrder(shape)|
  {
    ghost var s, z, i := InOrder(shape), pool.chain, 0;
    db := [];
    var elm := MinMax(root, -1, m, shape);
    while elm != null
      invariant i <= |s| && elm == First(s[i..])
      invariant pool.Valid() && pool.chain == Reversed(s[..i]) + z
      invariant pool.used == old(pool.used) - i && db == Records(s[..i])
      invariant Walkable(m, Elems(s[..i]))
      decreases |s| - i
    {
      db := db + [Record(elm.key, elm.location)];
      RecordsStep(s, i);
      InKeys(m, shape, root, i);
      elm := WalkOn(elm, pool, m, shape, root, i, z);
      i := i + 1;
    }
    assert s[..i] == s;
  }

  /** finalise: every record is written once, in ascending order, and every node is back in the
      pool, although the walk runs over nodes whose left link Put has already overwritten. */
  method Finalise(tree: RBTree, pool: Pool) returns (db: seq<Record>)
    requires tree.Valid() && pool.Valid() && Elems(pool.chain) !! Elems(InOrder(tree.tree))
    modifies pool, tree.links.Keys
    ensures db == Records(InOrder(tree.tree)) && Ascending(db)
    ensures pool.Valid() && pool.chain == Reversed(InOrder(tree.tree)) + old(pool.chain)
    ensures pool.used == old(pool.used) - |InOrder(tree.tree)|
  {
    db := WriteOut(tree.root, pool, tree.links, tree.tree);
  }

  lemma {:induction false} InKeys(m: Links, tree: Tree, root: Node?, i: nat)
    requires Focus(m, Top, tree, root) && i < |InOrder(tree)|
    ensures InOrder(tree)[i] in m
  {
    RepKeys(m, tree, null);
    NodesInOrder(tree);
  }

  lemma {:induction false} RecordsStep(s: seq<Node>, i: nat)
    requires i < |s|
    ensures Records(s[..i]) + [Record(s[i].key, s[i].location)] == Records(s[..i + 1])
    ensures s[i..][0] == s[i] && s[..|s|] == s
  {
    assert s[..i + 1][..i] == s[..i];
  }

  lemma {:induction false} ReversedStep(s: seq<Node>, i: nat, z: seq<Node>)
    requires i < |s|
    ensures [s[i]] + (Reversed(s[..i]) + z) == Reversed(s[..i + 1]) + z
    ensures Elems(s[..i + 1]) == Elems(s[..i]) + {s[i]}
  {
    assert s[..i + 1][..i] == s[..i];
    assert [s[i]] + (Reversed(s[..i]) + z) == ([s[i]] + Reversed(s[..i])) + z;
    assert s[..i + 1] == s[..i] + [s[i]];
    ElemsAppend(s[..i], [s[i]]);
  }

  /** What the walk has passed, and the pool, are apart from what lies ahead. */
  lemma {:induction false} ApartFrom(s: seq<Node>, i: nat, chain: seq<Node>, z: seq<Node>)
    requires Sorted(s) && i < |s| && chain == Reversed(s[..i]) + z && Elems(z) !! Elems(s)
    ensures s[i] !in Elems(chain)
    ensures Elems(chain) !! Elems(s[i + 1..]) && Elems(s[..i + 1]) !! Elems(s[i + 1..])
  {
    Split(s, i);
    Split(s, i + 1);
    ReversedElems(s[..i]);
    ElemsAppend(Reversed(s[..i]), z);
    assert s[i] in s[i..] && s == s[..i] + s[i..] && s == s[..i + 1] + s[i + 1..];
    ElemsAppend(s[..i], s[i..]);
    ElemsAppend(s[..i + 1], s[i + 1..]);
    assert s[..i + 1] == s[..i] + [s[i]];
    ElemsAppend(s[..i], [s[i]]);
  }

  lemma {:induction false} Split(s: seq<Node>, k: nat)
    requires Sorted(s) && k <= |s|
    ensures Elems(s[..k]) !! Elems(s[k..])
  {
    forall i, j | 0 <= i < k <= j < |s| ensures s[i] != s[j] {
      assert s[i].key.Before(s[j].key) && s[i].key.Proper();
    }
  }

  // ---------------------------------------------------------------- reading the entries

  datatype Outcome = TooMany | Duplicate | Nothing | Written(count: int, db: seq<Record>)

  /** Entries without a location are skipped. */
  ghost function Kept(es: seq<Record>): seq<Record> {
    if es == [] then []
    else if es[|es| - 1].location != LOCATE_UNKNOWN then Kept(es[..|es| - 1]) + [es[|es| - 1]]
    else Kept(es[..|es| - 1])
  }

  ghost predicate Apart(es: seq<Record>) {
    forall i, j :: 0 <= i < j < |es| ==> !es[i].span.Overlaps(es[j].span)
  }

  ghost predicate Clashes(x: Span, es: seq<Record>) {
    exists i :: 0 <= i < |es| && x.Overlaps(es[i].span)
  }

  /** A table the tool accepts. */
  ghost predicate Acceptable(es: seq<Record>) {
    |Kept(es)| <= POOL_SIZE && Apart(Kept(es))
  }

  lemma {:induction false} KeptPrefix(es: seq<Record>, i: nat)
    requires i <= |es|
    ensures Kept(es[..i]) <= Kept(es)
    decreases |es| - i
  {
    if i < |es| {
      assert es[..i + 1][..i] == es[..i];
      KeptPrefix(es, i + 1);
    } else {
      assert es[..i] == es;
    }
  }

  lemma {:induction false} PrefixAcceptable(es: seq<Record>, i: nat)
    requires i <= |es| && Acceptable(es)
    ensures Acceptable(es[..i])
  {
    KeptPrefix(es, i);
    var a, b := Kept(es[..i]), Kept(es);
    forall j, k | 0 <= j < k < |a| ensures !a[j].span.Overlaps(a[k].span) {
      assert a[j] == b[j] && a[k] == b[k];
    }
  }

  /** The nodes of the tree hold exactly the kept entries. */
  ghost predicate Holds(s: seq<Node>, kept: seq<Record>) {
    multiset(Records(s)) == multiset(kept)
  }

  lemma {:induction false} RecordsAppend(a: seq<Node>, b: seq<Node>)
    ensures Records(a + b) == Records(a) + Records(b)
  {
  }

  lemma {:induction false} HoldsMore(s: seq<Node>, k: nat, n: Node, kept: seq<Record>)
    requires Holds(s, kept) && k <= |s|
    ensures Holds(With(s, k, n), kept + [RecordOf(n)])
  {
    RecordsAppend(s[..k] + [n], s[k..]);
    RecordsAppend(s[..k], [n]);
    RecordsAppend(s[..k], s[k..]);
    assert s == s[..k] + s[k..];
    assert Records([n]) == [RecordOf(n)];
  }

  lemma {:induction false} HoldsSize(s: seq<Node>, kept: seq<Record>)
    requires Holds(s, kept)
    ensures |s| == |kept|
  {
    assert |multiset(Records(s))| == |multiset(kept)|;
  }

  /** A node overlaps the new span exactly when a kept entry does. */
  lemma {:induction false} HoldsOverlap(s: seq<Node>, kept: seq<Record>, x: Span)
    requires Holds(s, kept)
    ensures (exists n :: n in s && x.Overlaps(n.key)) <==> Clashes(x, kept)
  {
    if n :| n in s && x.Overlaps(n.key) {
      var i :| 0 <= i < |s| && s[i] == n;
      assert Records(s)[i] in multiset(kept);
      assert RecordOf(n) in kept;
      var j :| 0 <= j < |kept| && kept[j] == RecordOf(n);
    }
    if j :| 0 <= j < |kept| && x.Overlaps(kept[j].span) {
      assert kept[j] in multiset(Records(s));
      var i :| 0 <= i < |s| && Records(s)[i] == kept[j];
      assert s[i] in s;
    }
  }

  /** Accepting one entry more. */
  lemma {:induction false} AcceptStep(es: seq<Record>, e: Record)
    requires Acceptable(es)
    ensures e.location == LOCATE_UNKNOWN ==> Acceptable(es + [e]) && Kept(es + [e]) == Kept(es)
    ensures e.location != LOCATE_UNKNOWN ==>
              && Kept(es + [e]) == Kept(es) + [e]
              && (Acceptable(es + [e]) <==> |Kept(es)| < POOL_SIZE && !Clashes(e.span, Kept(es)))
  {
    assert (es + [e])[..|es|] == es;
    var kept := Kept(es);
    var more := kept + [e];
    if i :| 0 <= i < |kept| && e.span.Overlaps(kept[i].span) {
      assert more[i].span.Overlaps(more[|kept|].span);
    }
  }

  lemma {:induction false} AcceptLast(es: seq<Record>)
    requires es != []
    ensures var rest, e := es[..|es| - 1], es[|es| - 1]; var skip := e.location == LOCATE_UNKNOWN;
      && Kept(es) == (if skip then Kept(rest) else Kept(rest) + [e])
      && (Acceptable(es) <==> Acceptable(rest) && (skip || (|Kept(rest)| != POOL_SIZE && !Clashes(e.span, Kept(rest)))))
  {
    var rest, e := es[..|es| - 1], es[|es| - 1];
    assert es == rest + [e];
    if Acceptable(es) { PrefixAcceptable(es, |es| - 1); }
    if Acceptable(rest) { AcceptStep(rest, e); }
  }

  /** A fresh node goes into the tree, unless it overlaps one that is there. */
  method AddNode(tree: RBTree, e: Record, ghost kept: seq<Record>) returns (clash: Node?)
    requires tree.Valid() && e.span.Proper() && Holds(InOrder(tree.tree), kept)
    modifies tree, tree.links.Keys
    ensures clash != null <==> Clashes(e.span, kept)
    ensures clash == null ==>
              && tree.Valid() && Holds(InOrder(tree.tree), kept + [e])
              && fresh(tree.links.Keys - old(tree.links.Keys))
  {
    ghost var s := InOrder(tree.tree);
    HoldsOverlap(s, kept, e.span);
    var elm := new Node(e.span, e.location);
    ghost var k;
    clash, k := tree.Insert(elm);
    if clash == null {
      HoldsMore(s, k, elm, kept);
    }
  }

  /** The entry action of the grammar; anything but Nothing means the tool has exited. */
  method Entry(tree: RBTree, pool: Pool, e: Record, ghost kept: seq<Record>) returns (why: Outcome)
    requires tree.Valid() && e.span.Proper() && Holds(InOrder(tree.tree), kept)
    modifies tree, pool`used, tree.links.Keys
    ensures why == Nothing <==> e.location == LOCATE_UNKNOWN || (old(pool.used) != POOL_SIZE && !Clashes(e.span, kept))
    ensures why == TooMany <==> e.location != LOCATE_UNKNOWN && old(pool.used) == POOL_SIZE
    ensures why == Duplicate <==> e.location != LOCATE_UNKNOWN && old(pool.used) != POOL_SIZE && Clashes(e.span, kept)
    ensures why == Nothing ==>
              && tree.Valid() && fresh(tree.links.Keys - old(tree.links.Keys))
              && Holds(InOrder(tree.tree), if e.location == LOCATE_UNKNOWN then kept else kept + [e])
              && pool.used == old(pool.used) + if e.location == LOCATE_UNKNOWN then 0 else 1
  {
    if e.location != LOCATE_UNKNOWN {
      if pool.used == POOL_SIZE {
        return TooMany;
      }
      // the chunk is taken from the pool before the insert; the count is next read at the next entry
      var clash := AddNode(tree, e, kept);
      pool.used := pool.used + 1;
      if clash != null {
        return Duplicate;
      }
    }
    return Nothing;
  }

  /** The tree and the pool after reading es. */
  ghost predicate Loaded(tree: RBTree, pool: Pool, kept: seq<Record>)
    reads tree, pool, tree.links.Keys
  {
    tree.Valid() && Holds(InOrder(tree.tree), kept) && pool.used == |kept|
  }

  /** The left-recursive line rule of the grammar */
  method ReadEntries(tree: RBTree, pool: Pool, es: seq<Record>) returns (res: Outcome)
    requires forall i :: 0 <= i < |es| ==> es[i].span.Proper()
    requires Loaded(tree, pool, [])
    modifies tree, pool`used, tree.links.Keys
    ensures res == Nothing <==> Acceptable(es)
    ensures res == Nothing || Refused(es, res)
    ensures res == Nothing ==> Loaded(tree, pool, Kept(es)) && fresh(tree.links.Keys - old(tree.links.Keys))
    decreases |es|
  {
    if es == [] {
      return Nothing;
    }
    AcceptLast(es);
    var rest, e := es[..|es| - 1], es[|es| - 1];
    res := ReadEntries(tree, pool, rest);
    if res == Nothing {
      res := ReadOne(tree, pool, e, Kept(rest));
    }
    RefusedLast(es, res);
  }

  /** The first entry that is refused, and why: the pool is used up, or else the entry overlaps one that
      was kept. */
  ghost predicate RefusedAt(es: seq<Record>, i: nat, why: Outcome) {
    && i < |es| && Acceptable(es[..i]) && es[i].location != LOCATE_UNKNOWN
    && match why
       case TooMany => |Kept(es[..i])| == POOL_SIZE
       case Duplicate => |Kept(es[..i])| != POOL_SIZE && Clashes(es[i].span, Kept(es[..i]))
       case _ => false
  }

  ghost predicate Refused(es: seq<Record>, why: Outcome) { exists i: nat :: RefusedAt(es, i, why) }

  lemma {:induction false} RefusedLast(es: seq<Record>, why: Outcome)
    requires es != []
    ensures Refused(es[..|es| - 1], why) ==> Refused(es, why)
    ensures RefusedAt(es, |es| - 1, why) ==> Refused(es, why)
  {
    if Refused(es[..|es| - 1], why) {
      var i: nat :| RefusedAt(es[..|es| - 1], i, why);
      assert es[..|es| - 1][..i] == es[..i] && es[..|es| - 1][i] == es[i];
      assert RefusedAt(es, i, why);
    }
  }

  /** One entry more. */
  method ReadOne(tree: RBTree, pool: Pool, e: Record, ghost kept: seq<Record>) returns (res: Outcome)
    requires Loaded(tree, pool, kept) && e.span.Proper()
    modifies tree, pool`used, tree.links.Keys
    ensures var skip := e.location == LOCATE_UNKNOWN;
      && (res == Nothing <==> skip || (|kept| != POOL_SIZE && !Clashes(e.span, kept)))
      && (res == TooMany <==> !skip && |kept| == POOL_SIZE)
      && (res == Duplicate <==> !skip && |kept| != POOL_SIZE && Clashes(e.span, kept))
      && (res == Nothing ==> Loaded(tree, pool, if skip then kept else kept + [e]))
    ensures res == Nothing || res == TooMany || res == Duplicate
    ensures res == Nothing ==> fresh(tree.links.Keys - old(tree.links.Keys))
  {
    res := Entry(tree, pool, e, kept);
  }

  /** geoconv on a list of parsed entries: accepted exactly when the kept ones fit the pool and
      are pairwise apart; the table then holds those entries in ascending order, and no chunk is
      missing from the pool when it is taken down. */
  method Convert(es: seq<Record>) returns (res: Outcome)
    requires forall i :: 0 <= i < |es| ==> es[i].span.Proper()
    ensures res.Written? || res.Nothing? <==> Acceptable(es)
    ensures res.TooMany? || res.Duplicate? ==> Refused(es, res)
    ensures res.Nothing? ==> Kept(es) == []
    ensures res.Written? ==> res.db != [] && Ascending(res.db) && multiset(res.db) == multiset(Kept(es)) && res.count == |res.db|
  {
    var tree := new RBTree();
    var pool := new Pool();
    EmptyHolds();
    res := ReadEntries(tree, pool, es);
    if res == Nothing {
      res := Output(tree, pool, Kept(es));
    }
  }

  lemma {:induction false} EmptyHolds()
    ensures Holds([], [])
  {
  }

  /** The table of what was read, if there is anything. */
  method Output(tree: RBTree, pool: Pool, ghost kept: seq<Record>) returns (res: Outcome)
    requires Loaded(tree, pool, kept) && pool.Valid() && pool.chain == []
    modifies pool, tree.links.Keys
    ensures res.Nothing? || res.Written?
    ensures res.Nothing? ==> kept == []
    ensures res.Written? ==> res.db != [] && Ascending(res.db) && multiset(res.db) == multiset(kept) && res.count == |res.db|
  {
    HoldsSize(InOrder(tree.tree), kept);
    if tree.root == null {
      return Nothing;
    }
    var count := pool.used;
    var db := Finalise(tree, pool);
    assert pool.used == 0;
    res := Written(count, db);
  }

  /** peak_locate_get: bsearch may probe anywhere inside the interval it still considers. */
  method Locate(db: seq<Record>, me: int) returns (location: nat)
    requires Ascending(db)
    ensures db == [] ==> location == LOCATE_UNKNOWN
    ensures forall i :: 0 <= i < |db| && db[i].span.Overlaps(Span(me, me)) ==> location == db[i].location
    ensures db != [] && (forall i :: 0 <= i < |db| ==> !db[i].span.Overlaps(Span(me, me))) ==> location == LOCATE_XX
  {
    location := LOCATE_UNKNOWN;
    if |db| != 0 {
      location := LOCATE_XX;
      var lo, hi := 0, |db|;
      while lo < hi
        invariant 0 <= lo <= hi <= |db|
        invariant forall i :: 0 <= i < lo ==> db[i].span.Before(Span(me, me))
        invariant forall i :: hi <= i < |db| ==> Span(me, me).Before(db[i].span)
      {
        var mid :| lo <= mid < hi;
        var c := Compare(Span(me, me), db[mid].span);
        if c == 0 {
          return db[mid].location;
        } else if c < 0 {
          hi := mid;
        } else {
          lo := mid + 1;
        }
      }
    }
  }

  /** The two programs together: every address in a kept entry is found, every other is not. */
  method ConvertAndLocate(es: seq<Record>, me: int) returns (res: Outcome, location: nat)
    requires forall i :: 0 <= i < |es| ==> es[i].span.Proper()
    ensures res.Written? <==> Acceptable(es) && Kept(es) != []
    ensures res.Written? ==> forall e :: e in Kept(es) && e.span.Overlaps(Span(me, me)) ==> location == e.location
    ensures res.Written? && (forall e :: e in Kept(es) ==> !e.span.Overlaps(Span(me, me))) ==> location == LOCATE_XX
  {
    res := Convert(es);
    location := LOCATE_UNKNOWN;
    if res.Written? {
      location := Locate(res.db, me);
      assert forall e :: e in Kept(es) <==> e in multiset(res.db);
    } else {
      assert res.Nothing? ==> Kept(es) == [];
    }
  }
}
