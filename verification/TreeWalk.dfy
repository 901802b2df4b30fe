/**
  RB_MINMAX and RB_NEXT of include/sys/tree.h, proved for a walk that may already have
  destroyed the left links of the nodes behind it.
 */
module TreeWalk {
  import opened TreeShape

  /** The heap still holds the links m, except that the left links of the nodes in done are lost:
      all that is known of such a link is that it does not point at the node's right child. */
  ghost predicate Walkable(m: Links, done: set<Node>)
    reads m.Keys
  {
    forall n :: n in m ==>
      && n.right == m[n].right && n.parent == m[n].parent
      && (n !in done ==> n.left == m[n].left)
      && (n in done && n.right != null ==> n.left != n.right)
  }

  /** What the in-order walk still has to visit after the focused node. */
  ghost function Rest(c: Ctx, t: Tree): seq<Node>
    requires t.Branch?
  {
    InOrder(t.r) + Later(c)
  }

  ghost function First(s: seq<Node>): Node? { if s == [] then null else s[0] }

  lemma {:induction false} RestElems(c: Ctx, t: Tree)
    requires t.Branch?
    ensures Nodes(t.r) <= Elems(Rest(c, t)) && Elems(Later(c)) <= Elems(Rest(c, t))
  {
    NodesInOrder(t.r);
    ElemsAppend(InOrder(t.r), Later(c));
  }

  /** The start of the walk: RB_MINMAX(head, -1), or the other end for val >= 0. */
  method MinMax(root: Node?, val: int, ghost m: Links, ghost tree: Tree) returns (r: Node?)
    requires Focus(m, Top, tree, root) && Walkable(m, {})
    ensures val < 0 ==> r == First(InOrder(tree))
    ensures val >= 0 ==> r == if tree.Leaf? then null else InOrder(tree)[|InOrder(tree)| - 1]
  {
    var tmp := root;
    ghost var t, c := tree, Top;
    r := null;
    while tmp != null
      invariant Focus(m, c, t, root) && tmp == RootOf(t) && r == HoleParent(c)
      invariant (c.Top? ==> t == tree) && (tree.Leaf? ==> c.Top?)
      invariant val < 0 ==> First(InOrder(tree)) == if t.Leaf? && !c.Top? then c.n else First(InOrder(t))
      invariant val >= 0 && tree.Branch? ==>
        InOrder(tree)[|InOrder(tree)| - 1] == if t.Leaf? then c.n else InOrder(t)[|InOrder(t)| - 1]
      decreases t
    {
      r := tmp;
      Around(m, c, t, root);
      if val < 0 {
        GoLeft(m, c, t, root);
        tmp := tmp.left;
        c, t := InLeft(t.red, t.n, t.r, c), t.l;
      } else {
        GoRight(m, c, t, root);
        tmp := tmp.right;
        c, t := InRight(t.red, t.l, t.n, c), t.r;
      }
    }
  }

  /** RB_NEXT: the in-order successor. */
  method Next(elm: Node, ghost m: Links, ghost c: Ctx, ghost t: Tree, ghost root: Node?, ghost done: set<Node>)
    returns (r: Node?)
    requires Focus(m, c, t, root) && t.Branch? && t.n == elm
    requires Walkable(m, done) && done !! Elems(Rest(c, t))
    ensures r == First(Rest(c, t))
  {
    Around(m, c, t, root);
    RestElems(c, t);
    if elm.right != null {
      GoRight(m, c, t, root);
      r := Leftmost(elm.right, m, InRight(t.red, t.l, t.n, c), t.r, root, done);
    } else if elm.parent != null && elm == elm.parent.left {
      r := elm.parent;
    } else {
      r := Climb(elm, m, c, t, root, done);
    }
  }

  /** Down the left links of a part of the tree the walk has not reached. */
  method Leftmost(top: Node, ghost m: Links, ghost c: Ctx, ghost t: Tree, ghost root: Node?, ghost done: set<Node>)
    returns (r: Node)
    requires Focus(m, c, t, root) && t.Branch? && t.n == top && Walkable(m, done) && done !! Nodes(t)
    ensures r == InOrder(t)[0]
  {
    r := top;
    ghost var d, u := c, t;
    Around(m, d, u, root);
    while r.left != null
      invariant Focus(m, d, u, root) && u.Branch? && u.n == r && done !! Nodes(u)
      invariant InOrder(u)[0] == InOrder(t)[0]
      invariant r in m && r.left == RootOf(u.l)
      decreases u
    {
      GoLeft(m, d, u, root);
      r := r.left;
      d, u := InLeft(u.red, u.n, u.r, d), u.l;
      Around(m, d, u, root);
    }
  }

  /** Up the parent links while coming from the right. */
  method Climb(elm: Node, ghost m: Links, ghost c: Ctx, ghost t: Tree, ghost root: Node?, ghost done: set<Node>)
    returns (r: Node?)
    requires Focus(m, c, t, root) && t.Branch? && t.n == elm && Walkable(m, done)
    ensures r == First(Later(c))
  {
    var x := elm;
    ghost var d, u := c, t;
    Around(m, d, u, root);
    while x.parent != null && x == x.parent.right
      invariant Focus(m, d, u, root) && u.Branch? && u.n == x && Later(d) == Later(c)
      invariant x in m && x.parent == HoleParent(d)
      invariant !d.Top? ==> d.n in m && (d.n.right == x <==> d.InRight?)
      decreases Depth(d)
    {
      x := x.parent;
      GoUp(m, d, u, root);
      d, u := d.up, Fold(d, u);
      Around(m, d, u, root);
    }
    r := x.parent;
  }
}
