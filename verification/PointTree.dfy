/**
  The red-black tree with numbers for keys: its operations on the ascending sequence of numbers, and on
  the set of them, as the stream allocator and the flow tracker rely on.  A number is an interval of
  one element.
 */
module PointTree {
  import opened TreeShape
  import opened RedBlackTree
  import opened TreeWalk
  import S = StreamModel

  function Point(p: int): Span { Span(p, p) }

  ghost predicate Points(s: seq<Node>) {
    forall i :: 0 <= i < |s| ==> s[i].key == Point(s[i].key.lo)
  }

  ghost function Numbers(s: seq<Node>): (r: seq<int>)
    ensures |r| == |s| && forall i :: 0 <= i < |s| ==> r[i] == s[i].key.lo
  {
    seq(|s|, i requires 0 <= i < |s| => s[i].key.lo)
  }

  lemma {:induction false} NumbersAscend(s: seq<Node>)
    requires Sorted(s) && Points(s)
    ensures S.Ascending(Numbers(s))
  {
  }

  lemma {:induction false} Member(s: seq<Node>, n: Node)
    requires n in s
    ensures n.key.lo in S.SetOf(Numbers(s))
  {
    var i :| 0 <= i < |s| && s[i] == n;
    assert Numbers(s)[i] == n.key.lo;
  }

  lemma {:induction false} Clash(s: seq<Node>, p: int)
    requires Points(s)
    ensures (exists n :: n in s && Point(p).Overlaps(n.key)) <==> p in S.SetOf(Numbers(s))
  {
    if p in S.SetOf(Numbers(s)) {
      var i :| 0 <= i < |s| && Numbers(s)[i] == p;
      assert s[i] in s && Point(p).Overlaps(s[i].key);
    }
    forall n | n in s && Point(p).Overlaps(n.key) ensures p in S.SetOf(Numbers(s)) {
      var i :| 0 <= i < |s| && s[i] == n;
      assert s[i].key == Point(p);
      Member(s, n);
    }
  }

  lemma {:induction false} Joined(s: seq<Node>, k: nat, n: Node)
    requires Points(s) && k <= |s| && n.key == Point(n.key.lo)
    ensures Points(With(s, k, n))
    ensures Numbers(With(s, k, n)) == Numbers(s)[..k] + [n.key.lo] + Numbers(s)[k..]
    ensures S.SetOf(Numbers(With(s, k, n))) == S.SetOf(Numbers(s)) + {n.key.lo}
  {
    var w := With(s, k, n);
    forall i | 0 <= i < |w| ensures w[i].key == Point(w[i].key.lo) {
      assert w[i] == if i < k then s[i] else if i == k then n else s[i - 1];
    }
    var a := Numbers(s);
    assert Numbers(w) == a[..k] + [n.key.lo] + a[k..];
    assert a == a[..k] + a[k..];
  }

  lemma {:induction false} Parted(s: seq<Node>, k: nat)
    requires Points(s) && Sorted(s) && k < |s|
    ensures Points(Cut(s, k))
    ensures Numbers(Cut(s, k)) == Numbers(s)[..k] + Numbers(s)[k + 1..]
    ensures S.SetOf(Numbers(Cut(s, k))) == S.SetOf(Numbers(s)) - {s[k].key.lo}
  {
    NumbersAscend(s);
    var a := Numbers(s);
    S.CutRun(a, k, 1);
    assert Numbers(Cut(s, k)) == a[..k] + a[k + 1..];
    OneElement(a[k]);
  }

  lemma {:induction false} OneElement(p: int)
    ensures S.Interval(p, 1) == {p}
  {
    assert S.Within(p, p, 1);
  }

  /** RB_INSERT of a number. */
  method Insert(tree: RBTree, elm: Node) returns (dup: bool)
    requires tree.Valid() && Points(InOrder(tree.tree)) && elm.key == Point(elm.key.lo)
    modifies tree, tree.links.Keys, elm
    ensures tree.Valid() && Points(InOrder(tree.tree)) && S.Ascending(Numbers(InOrder(tree.tree)))
    ensures dup <==> elm.key.lo in old(S.SetOf(Numbers(InOrder(tree.tree))))
    ensures S.SetOf(Numbers(InOrder(tree.tree))) == old(S.SetOf(Numbers(InOrder(tree.tree)))) + {elm.key.lo}
  {
    ghost var s := InOrder(tree.tree);
    Clash(s, elm.key.lo);
    var clash;
    ghost var k;
    clash, k := tree.Insert(elm);
    dup := clash != null;
    if !dup { Joined(s, k, elm); }
    NumbersAscend(InOrder(tree.tree));
  }

  /** RB_FIND of a number. */
  method Find(tree: RBTree, p: int) returns (hit: Node?)
    requires tree.Valid() && Points(InOrder(tree.tree))
    ensures hit == null <==> p !in S.SetOf(Numbers(InOrder(tree.tree)))
    ensures hit != null ==> hit in InOrder(tree.tree) && hit.key == Point(p)
  {
    hit := tree.Find(Point(p));
    Clash(InOrder(tree.tree), p);
  }

  /** RB_REMOVE of a node. */
  method Remove(tree: RBTree, elm: Node) returns (ghost k: nat)
    requires tree.Valid() && Points(InOrder(tree.tree)) && elm in InOrder(tree.tree)
    modifies tree, tree.links.Keys
    ensures tree.Valid() && Points(InOrder(tree.tree)) && k < |old(InOrder(tree.tree))| && old(InOrder(tree.tree))[k] == elm
    ensures Numbers(InOrder(tree.tree)) == old(Numbers(InOrder(tree.tree))[..k] + Numbers(InOrder(tree.tree))[k + 1..])
    ensures S.SetOf(Numbers(InOrder(tree.tree))) == old(S.SetOf(Numbers(InOrder(tree.tree)))) - {elm.key.lo}
  {
    ghost var s := InOrder(tree.tree);
    k := tree.Remove(elm);
    Parted(s, k);
  }

  /** RB_MIN: the least number. */
  method Min(tree: RBTree) returns (r: Node?)
    requires tree.Valid() && Points(InOrder(tree.tree))
    ensures r == First(InOrder(tree.tree))
    ensures r != null ==> r.key == Point(Numbers(InOrder(tree.tree))[0])
  {
    r := MinMax(tree.root, -1, tree.links, tree.tree);
  }

  /** RB_NEXT: the next larger number. */
  method Next(tree: RBTree, elm: Node, ghost k: nat) returns (r: Node?)
    requires tree.Valid() && Points(InOrder(tree.tree)) && k < |InOrder(tree.tree)| && elm == InOrder(tree.tree)[k]
    ensures r == First(InOrder(tree.tree)[k + 1..])
    ensures r != null ==> k + 1 < |InOrder(tree.tree)| && r.key == Point(Numbers(InOrder(tree.tree))[k + 1])
  {
    ghost var c, t := tree.Locate(elm);
    ghost var s := InOrder(tree.tree);
    PlugOrder(c, t);
    Place(s, Earlier(c) + InOrder(t.l), elm, InOrder(t.r) + Later(c), k);
    r := TreeWalk.Next(elm, tree.links, c, t, tree.root, {});
  }

  /** A node occurs once in a sorted sequence. */
  lemma {:induction false} Place(s: seq<Node>, a: seq<Node>, n: Node, b: seq<Node>, k: nat)
    requires Sorted(s) && s == a + [n] + b && k < |s| && s[k] == n
    ensures s[k + 1..] == b
  {
    assert s[|a|] == n;
    assert |a| == k;
  }
}
