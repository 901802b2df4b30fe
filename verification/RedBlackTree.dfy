/**
  The red-black tree of include/sys/tree.h, pointer by pointer.  Each method carries the
  ghost path from the node it works on to the root; what it promises is stated on the
  ghost shape and on the in-order sequence of nodes.
 */
module RedBlackTree {
  import opened TreeShape

  class RBTree {
    var root: Node?
    ghost var tree: Tree
    ghost var links: Links

    /** The ghost map of links mirrors the heap. */
    ghost predicate Laid()
      reads this`links, links.Keys
    {
      forall n :: n in links ==>
        n.left == links[n].left && n.right == links[n].right &&
        n.parent == links[n].parent && n.red == links[n].red
    }

    ghost predicate Valid()
      reads this, links.Keys
    {
      && Laid() && links.Keys == Nodes(tree) && Focus(links, Top, tree, root)
      && RedBlack(tree) && Sorted(InOrder(tree))
    }

    /** RB_INIT */
    constructor ()
      ensures Valid() && tree == Leaf
    {
      root := null;
      tree := Leaf;
      links := map[];
    }

    // ------------------------------------------------------------ RB_LEFT(n) = x and so on

    method SetLeft(n: Node, x: Node?)
      requires Laid() && n in links
      modifies this`links, n`left
      ensures Laid() && links == old(links)[n := old(links)[n].(left := x)]
    {
      n.left := x;
      links := links[n := links[n].(left := x)];
    }

    method SetRight(n: Node, x: Node?)
      requires Laid() && n in links
      modifies this`links, n`right
      ensures Laid() && links == old(links)[n := old(links)[n].(right := x)]
    {
      n.right := x;
      links := links[n := links[n].(right := x)];
    }

    method SetParent(n: Node, x: Node?)
      requires Laid() && n in links
      modifies this`links, n`parent
      ensures Laid() && links == old(links)[n := old(links)[n].(parent := x)]
    {
      n.parent := x;
      links := links[n := links[n].(parent := x)];
    }

    method SetRed(n: Node, x: bool)
      requires Laid() && n in links
      modifies this`links, n`red
      ensures Laid() && links == old(links)[n := old(links)[n].(red := x)]
    {
      n.red := x;
      links := links[n := links[n].(red := x)];
    }

    /** x takes the place of elm below parent: shared by rotation and removal. */
    method Hoist(parent: Node?, elm: Node, x: Node?)
      requires Laid() && (x != null ==> x in links) && (parent != null ==> parent in links && parent != x)
      modifies this`root, this`links, links.Keys
      ensures Laid() && links == Hoisted(old(links), parent, elm, x)
      ensures root == if parent == null then x else old(root)
    {
      links := Hoisted(links, parent, elm, x);
      if x != null {
        x.parent := parent;
      }
      if parent != null {
        if parent.left == elm {
          parent.left := x;
        } else {
          parent.right := x;
        }
      } else {
        root := x;
      }
    }

    /** RB_ROTATE_LEFT, as an update of the links */
    method TurnLeft(elm: Node)
      requires Laid() && elm in links && elm.right != null && elm.right in links && elm.right != elm
      requires var b, p := elm.right.left, elm.parent;
        && (b != null ==> b in links && b !in {elm, elm.right, p})
        && (p != null ==> p in links && p !in {elm, elm.right})
      modifies this`root, this`links, links.Keys
      ensures Laid() && root == (if old(elm.parent) == null then old(elm.right) else old(root))
      ensures links == TurnedLeft(old(links), elm)
    {
      var tmp := elm.right;
      SetRight(elm, tmp.left);
      if elm.right != null {
        SetParent(tmp.left, elm);
      }
      Hoist(elm.parent, elm, tmp);
      SetLeft(tmp, elm);
      SetParent(elm, tmp);
    }

    /** RB_ROTATE_RIGHT, as an update of the links */
    method TurnRight(elm: Node)
      requires Laid() && elm in links && elm.left != null && elm.left in links && elm.left != elm
      requires var b, p := elm.left.right, elm.parent;
        && (b != null ==> b in links && b !in {elm, elm.left, p})
        && (p != null ==> p in links && p !in {elm, elm.left})
      modifies this`root, this`links, links.Keys
      ensures Laid() && root == (if old(elm.parent) == null then old(elm.left) else old(root))
      ensures links == TurnedRight(old(links), elm)
    {
      var tmp := elm.left;
      SetLeft(elm, tmp.right);
      if elm.left != null {
        SetParent(tmp.right, elm);
      }
      Hoist(elm.parent, elm, tmp);
      SetRight(tmp, elm);
      SetParent(elm, tmp);
    }

    method RotateLeft(elm: Node, ghost c: Ctx, ghost t: Tree) returns (ghost t': Tree)
      requires Laid() && Focus(links, c, t, root) && t.Branch? && t.n == elm && t.r.Branch?
      modifies this`root, this`links, links.Keys
      ensures t' == Branch(t.r.red, Branch(t.red, t.l, t.n, t.r.l), t.r.n, t.r.r)
      ensures Laid() && links.Keys == old(links.Keys) && Focus(links, c, t', root)
    {
      t' := Branch(t.r.red, Branch(t.red, t.l, t.n, t.r.l), t.r.n, t.r.r);
      RotationSite(links, c, t, root, true);
      TurnLeft(elm);
      RotatedLeft(old(links), c, t, old(root), links);
    }

    method RotateRight(elm: Node, ghost c: Ctx, ghost t: Tree) returns (ghost t': Tree)
      requires Laid() && Focus(links, c, t, root) && t.Branch? && t.n == elm && t.l.Branch?
      modifies this`root, this`links, links.Keys
      ensures t' == Branch(t.l.red, t.l.l, t.l.n, Branch(t.red, t.l.r, t.n, t.r))
      ensures Laid() && links.Keys == old(links.Keys) && Focus(links, c, t', root)
    {
      t' := Branch(t.l.red, t.l.l, t.l.n, Branch(t.red, t.l.r, t.n, t.r));
      RotationSite(links, c, t, root, false);
      TurnRight(elm);
      RotatedRight(old(links), c, t, old(root), links);
    }

    // ------------------------------------------------------------ insertion

    method Recolor(uncle: Node, parent: Node, gparent: Node)
      requires Laid() && uncle in links && parent in links && gparent in links
      modifies this`links, links.Keys
      ensures Laid() && links == Dye(Dye(Dye(old(links), uncle, false), parent, false), gparent, true)
    {
      SetRed(uncle, false);
      SetRed(parent, false);
      SetRed(gparent, true);
    }

    method RecolorTo(uncle: Node, parent: Node, gparent: Node, ghost c: Ctx, ghost t: Tree)
      requires Laid() && uncle in links && parent in links && gparent in links
      requires Focus(Dye(Dye(Dye(links, uncle, false), parent, false), gparent, true), c, t, root)
      modifies this`links, links.Keys
      ensures Laid() && links.Keys == old(links.Keys) && Focus(links, c, t, root)
    {
      Recolor(uncle, parent, gparent);
    }

    /** The red uncle case: colours move up two levels. */
    method InsertRecolor(uncle: Node, parent: Node, gparent: Node, ghost c: Ctx, ghost t: Tree, ghost h: nat)
      returns (elm': Node, ghost c': Ctx, ghost t': Tree, ghost h': nat)
      requires Laid() && Focus(links, c, t, root) && Inserting(c, t, h) && CtxRed(c) && !c.up.Top?
      requires parent == c.n && gparent == c.up.n && IsRed(Sibling(c.up)) && uncle == Sibling(c.up).n
      modifies this`root, this`links, links.Keys
      ensures Laid() && links.Keys == old(links.Keys) && Focus(links, c', t', root) && t'.Branch? && t'.n == elm'
      ensures Inserting(c', t', h') && Depth(c') < Depth(c)
      ensures InOrder(Plug(c', t')) == InOrder(Plug(c, t))
    {
      UncleSite(links, c, t, root);
      elm', c', t', h' := gparent, c.up.up, Recolored(c, t), h + 1;
      RecoloredFocus(links, c, t, root, h, Dye(Dye(Dye(links, uncle, false), parent, false), gparent, true));
      RecolorTo(uncle, parent, gparent, c', t');
    }

    /** RB_SET_BLACKRED */
    method SetBlackRed(black: Node, red: Node)
      requires Laid() && black in links && red in links
      modifies this`links, black`red, red`red
      ensures Laid() && links == Dye(Dye(old(links), black, false), red, true)
    {
      SetRed(black, false);
      SetRed(red, true);
    }

    /** The last rotation of insertion, parent being the left child. */
    method FinishLeft(parent: Node, gparent: Node, ghost up: Ctx, ghost g: Tree) returns (ghost g': Tree)
      requires Laid() && Focus(links, up, g, root) && g.Branch? && g.l.Branch?
      requires parent == g.l.n && gparent == g.n
      modifies this`root, this`links, links.Keys
      ensures g' == Branch(false, g.l.l, g.l.n, Branch(true, g.l.r, g.n, g.r))
      ensures Laid() && links.Keys == old(links.Keys) && Focus(links, up, g', root)
    {
      PaintedPairL(links, up, g, root);
      SetBlackRed(parent, gparent);
      g' := RotateRight(gparent, up, Branch(true, g.l.(red := false), g.n, g.r));
    }

    method FinishRight(parent: Node, gparent: Node, ghost up: Ctx, ghost g: Tree) returns (ghost g': Tree)
      requires Laid() && Focus(links, up, g, root) && g.Branch? && g.r.Branch?
      requires parent == g.r.n && gparent == g.n
      modifies this`root, this`links, links.Keys
      ensures g' == Branch(false, Branch(true, g.l, g.n, g.r.l), g.r.n, g.r.r)
      ensures Laid() && links.Keys == old(links.Keys) && Focus(links, up, g', root)
    {
      PaintedPairR(links, up, g, root);
      SetBlackRed(parent, gparent);
      g' := RotateLeft(gparent, up, Branch(true, g.l, g.n, g.r.(red := false)));
    }

    /** One turn of the insertion loop whose parent is a left child. */
    method InsertLeft(elm: Node, parent: Node, gparent: Node, ghost c: Ctx, ghost t: Tree, ghost h: nat)
      returns (elm': Node, ghost c': Ctx, ghost t': Tree, ghost h': nat)
      requires Laid() && Focus(links, c, t, root) && t.Branch? && t.n == elm
      requires Inserting(c, t, h) && CtxRed(c) && c.up.InLeft? && parent == c.n && gparent == c.up.n
      modifies this`root, this`links, links.Keys
      ensures Laid() && links.Keys == old(links.Keys) && Focus(links, c', t', root) && t'.Branch? && t'.n == elm'
      ensures Inserting(c', t', h') && Depth(c') < Depth(c)
      ensures InOrder(Plug(c', t')) == InOrder(Plug(c, t))
    {
      UncleView(links, c, t, root);
      var tmp := gparent.right;
      if tmp != null && tmp.red {
        elm', c', t', h' := InsertRecolor(tmp, parent, gparent, c, t, h);
      } else {
        elm', c', t', h' := InsertLeftTurn(elm, parent, gparent, c, t, h);
      }
    }

    method InsertLeftTurn(elm: Node, parent: Node, gparent: Node, ghost c: Ctx, ghost t: Tree, ghost h: nat)
      returns (elm': Node, ghost c': Ctx, ghost t': Tree, ghost h': nat)
      requires Laid() && Focus(links, c, t, root) && t.Branch? && t.n == elm
      requires Inserting(c, t, h) && CtxRed(c) && c.up.InLeft? && parent == c.n && gparent == c.up.n
      requires !IsRed(c.up.r)
      modifies this`root, this`links, links.Keys
      ensures Laid() && links.Keys == old(links.Keys) && Focus(links, c', t', root) && t'.Branch? && t'.n == elm'
      ensures Inserting(c', t', h') && Depth(c') < Depth(c)
      ensures InOrder(Plug(c', t')) == InOrder(Plug(c, t))
    {
      ghost var p := Fold(c, t);
      var parent' := parent;
      elm' := elm;
      Around(links, c, t, root);
      GoUp(links, c, t, root);
      BlackUncleLeft(c, t, h);
      if parent.right == elm {
        RotationShape(true, p.l, p.n, true, t.l, t.n, t.r);
        p := RotateLeft(parent, c.up, p);
        elm', parent' := parent, elm;
        PlugSame(c.up, Fold(c, t), p);
      }
      ghost var g := Fold(c.up, p);
      GoUp(links, c.up, p, root);
      ghost var g' := FinishLeft(parent', gparent, c.up.up, g);
      RotationShape(false, p.l, p.n, true, p.r, g.n, g.r);
      PlugSame(c.up.up, g, g');
      GoLeft(links, c.up.up, g', root);
      c', t', h' := InLeft(false, p.n, g'.r, c.up.up), p.l, h;
    }

    /** The mirror image. */
    method InsertRight(elm: Node, parent: Node, gparent: Node, ghost c: Ctx, ghost t: Tree, ghost h: nat)
      returns (elm': Node, ghost c': Ctx, ghost t': Tree, ghost h': nat)
      requires Laid() && Focus(links, c, t, root) && t.Branch? && t.n == elm
      requires Inserting(c, t, h) && CtxRed(c) && c.up.InRight? && parent == c.n && gparent == c.up.n
      modifies this`root, this`links, links.Keys
      ensures Laid() && links.Keys == old(links.Keys) && Focus(links, c', t', root) && t'.Branch? && t'.n == elm'
      ensures Inserting(c', t', h') && Depth(c') < Depth(c)
      ensures InOrder(Plug(c', t')) == InOrder(Plug(c, t))
    {
      UncleView(links, c, t, root);
      var tmp := gparent.left;
      if tmp != null && tmp.red {
        elm', c', t', h' := InsertRecolor(tmp, parent, gparent, c, t, h);
      } else {
        elm', c', t', h' := InsertRightTurn(elm, parent, gparent, c, t, h);
      }
    }

    method InsertRightTurn(elm: Node, parent: Node, gparent: Node, ghost c: Ctx, ghost t: Tree, ghost h: nat)
      returns (elm': Node, ghost c': Ctx, ghost t': Tree, ghost h': nat)
      requires Laid() && Focus(links, c, t, root) && t.Branch? && t.n == elm
      requires Inserting(c, t, h) && CtxRed(c) && c.up.InRight? && parent == c.n && gparent == c.up.n
      requires !IsRed(c.up.l)
      modifies this`root, this`links, links.Keys
      ensures Laid() && links.Keys == old(links.Keys) && Focus(links, c', t', root) && t'.Branch? && t'.n == elm'
      ensures Inserting(c', t', h') && Depth(c') < Depth(c)
      ensures InOrder(Plug(c', t')) == InOrder(Plug(c, t))
    {
      ghost var p := Fold(c, t);
      var parent' := parent;
      elm' := elm;
      Around(links, c, t, root);
      GoUp(links, c, t, root);
      BlackUncleRight(c, t, h);
      if parent.left == elm {
        RotationShape(true, t.l, t.n, true, t.r, p.n, p.r);
        p := RotateRight(parent, c.up, p);
        elm', parent' := parent, elm;
        PlugSame(c.up, Fold(c, t), p);
      }
      ghost var g := Fold(c.up, p);
      GoUp(links, c.up, p, root);
      ghost var g' := FinishRight(parent', gparent, c.up.up, g);
      RotationShape(true, g.l, g.n, false, p.l, p.n, p.r);
      PlugSame(c.up.up, g, g');
      GoRight(links, c.up.up, g', root);
      c', t', h' := InRight(false, g'.l, p.n, c.up.up), p.r, h;
    }

    /** One turn of the insertion loop. */
    method InsertTurn(elm: Node, ghost c: Ctx, ghost t: Tree, ghost h: nat)
      returns (elm': Node, ghost c': Ctx, ghost t': Tree, ghost h': nat)
      requires Laid() && Focus(links, c, t, root) && t.Branch? && t.n == elm && Inserting(c, t, h) && CtxRed(c)
      requires elm in links && elm.parent == c.n
      modifies this`root, this`links, links.Keys
      ensures Laid() && links.Keys == old(links.Keys) && Focus(links, c', t', root) && t'.Branch? && t'.n == elm'
      ensures Inserting(c', t', h') && Depth(c') < Depth(c)
      ensures InOrder(Plug(c', t')) == InOrder(Plug(c, t))
    {
      GrandView(links, c, t, root, h);
      var parent := elm.parent;
      var gparent := parent.parent;
      if parent == gparent.left {
        elm', c', t', h' := InsertLeft(elm, parent, gparent, c, t, h);
      } else {
        elm', c', t', h' := InsertRight(elm, parent, gparent, c, t, h);
      }
    }

    /** RB_INSERT_COLOR */
    method InsertColor(elm: Node, ghost c: Ctx, ghost t: Tree, ghost h: nat) returns (ghost whole: Tree)
      requires Laid() && Focus(links, c, t, root) && t.Branch? && t.n == elm && Inserting(c, t, h)
      modifies this`root, this`links, links.Keys
      ensures Laid() && links.Keys == old(links.Keys) && Focus(links, Top, whole, root)
      ensures RedBlack(whole) && InOrder(whole) == InOrder(Plug(c, t))
    {
      var x := elm;
      ghost var d, u, k := c, t, h;
      ParentView(links, d, u, root);
      while x.parent != null && x.parent.red
        invariant Laid() && links.Keys == old(links.Keys) && Focus(links, d, u, root) && u.Branch? && u.n == x
        invariant Inserting(d, u, k) && InOrder(Plug(d, u)) == InOrder(Plug(c, t))
        invariant x in links && x.parent == HoleParent(d) && (!d.Top? ==> d.n in links && d.n.red == d.red)
        decreases Depth(d)
      {
        x, d, u, k := InsertTurn(x, d, u, k);
        ParentView(links, d, u, root);
      }
      whole := BlackenRoot(d, u, k);
    }

    /** The tail of RB_INSERT_COLOR: the root turns black. */
    method BlackenRoot(ghost c: Ctx, ghost t: Tree, ghost h: nat) returns (ghost whole: Tree)
      requires Laid() && Focus(links, c, t, root) && Inserting(c, t, h) && !CtxRed(c)
      modifies this`links, links.Keys
      ensures Laid() && links.Keys == old(links.Keys) && Focus(links, Top, whole, root)
      ensures RedBlack(whole) && InOrder(whole) == InOrder(Plug(c, t))
    {
      GoTop(links, c, t, root);
      whole := Plug(c, t);
      if c.Top? {
        Painted(links, Top, whole, root, false);
      } else {
        PlugShaded(c, t, h);
        RootInCtx(c, t.n);
        Painted(links, Top, whole, root, false);
      }
      whole := whole.(red := false);
      SetRed(root, false);
    }

    /** RB_SET and the link from the parent */
    method Attach(elm: Node, parent: Node?, onLeft: bool)
      requires Laid() && elm !in links && (parent != null ==> parent in links)
      modifies this`root, this`links, links.Keys, elm
      ensures Laid() && (parent != null ==> parent != elm && parent in old(links)) && links == Attached(old(links), parent, onLeft, elm)
      ensures root == if parent == null then elm else old(root)
    {
      elm.parent := parent;
      elm.left, elm.right := null, null;
      elm.red := true;
      links := links[elm := Cell(null, null, parent, true)];
      if parent != null {
        if onLeft {
          SetLeft(parent, elm);
        } else {
          SetRight(parent, elm);
        }
      } else {
        root := elm;
      }
    }

    /** The tail of RB_INSERT, once the search has fallen out of the tree. */
    method AttachAndColor(elm: Node, parent: Node?, comp: int, ghost c: Ctx) returns (ghost whole: Tree)
      requires Laid() && links.Keys == CtxNodes(c) && elm !in links && Focus(links, c, Leaf, root)
      requires parent == HoleParent(c) && (!c.Top? ==> (comp < 0 <==> c.InLeft?)) && CtxShaded(c, 0)
      modifies this`root, this`links, links.Keys, elm
      ensures Laid() && links.Keys == CtxNodes(c) + {elm} && Focus(links, Top, whole, root)
      ensures RedBlack(whole) && InOrder(whole) == InOrder(Plug(c, Branch(true, Leaf, elm, Leaf)))
    {
      AttachedFocus(links, c, root, elm);
      Attach(elm, parent, comp < 0);
      whole := InsertColor(elm, c, Branch(true, Leaf, elm, Leaf), 0);
    }

    /** The search loop of RB_INSERT and RB_FIND: a node that overlaps the key, or the place for it. */
    method Descend(key: Span) returns (hit: Node?, parent: Node?, comp: int, ghost c: Ctx)
      requires Valid() && key.Proper()
      ensures hit != null ==> hit in InOrder(tree) && key.Overlaps(hit.key)
      ensures hit == null ==>
                && Focus(links, c, Leaf, root) && Plug(c, Leaf) == tree && CtxShaded(c, 0)
                && parent == HoleParent(c) && (!c.Top? ==> (comp < 0 <==> c.InLeft?))
                && Between(Earlier(c), key, Later(c))
    {
      hit, parent, comp, c := root, null, 0, Top;
      ghost var t := tree;
      while hit != null
        invariant Focus(links, c, t, root) && hit == RootOf(t) && parent == HoleParent(c) && Plug(c, t) == tree
        invariant Between(Earlier(c), key, Later(c)) && OnPath(c, t)
        invariant !c.Top? ==> (comp < 0 <==> c.InLeft?)
        decreases t
      {
        parent := hit;
        Around(links, c, t, root);
        Narrow(c, t, key);
        PathStep(c, t);
        comp := Compare(key, parent.key);
        if comp < 0 {
          GoLeft(links, c, t, root);
          hit := hit.left;
          c, t := InLeft(t.red, t.n, t.r, c), t.l;
        } else if comp > 0 {
          GoRight(links, c, t, root);
          hit := hit.right;
          c, t := InRight(t.red, t.l, t.n, c), t.r;
        } else {
          InTree(c, t);
          return;
        }
      }
    }

    /** RB_INSERT: an overlapping node is returned and nothing changes, or elm joins the sequence. */
    method Insert(elm: Node) returns (clash: Node?, ghost k: nat)
      requires Valid() && elm.key.Proper()
      modifies this, links.Keys, elm
      ensures Valid()
      ensures clash != null <==> exists n :: n in old(InOrder(tree)) && elm.key.Overlaps(n.key)
      ensures clash != null ==>
                && clash in old(InOrder(tree)) && elm.key.Overlaps(clash.key)
                && tree == old(tree) && links == old(links) && root == old(root)
      ensures clash == null ==>
                && k <= |old(InOrder(tree))|
                && InOrder(tree) == With(old(InOrder(tree)), k, elm)
                && links.Keys == old(links.Keys) + {elm}
    {
      k := 0;
      var parent, comp;
      ghost var c;
      clash, parent, comp, c := Descend(elm.key);
      if clash == null {
        NoOverlap(c, elm.key);
        k := InsertNew(elm, parent, comp, c);
      }
    }

    /** A node that overlaps none joins the tree. */
    method InsertNew(elm: Node, parent: Node?, comp: int, ghost c: Ctx) returns (ghost k: nat)
      requires Valid() && elm.key.Proper() && Focus(links, c, Leaf, root) && Plug(c, Leaf) == tree && CtxShaded(c, 0)
      requires parent == HoleParent(c) && (!c.Top? ==> (comp < 0 <==> c.InLeft?)) && Between(Earlier(c), elm.key, Later(c))
      modifies this, links.Keys, elm
      ensures Valid() && k <= |old(InOrder(tree))| && InOrder(tree) == With(old(InOrder(tree)), k, elm)
      ensures links.Keys == old(links.Keys) + {elm}
    {
      Spliced(c, elm);
      k := |Earlier(c)|;
      Hang(elm, parent, comp, c, With(InOrder(tree), k, elm));
    }

    /** The tree with elm in the hole of c, whose in-order sequence is s. */
    method Hang(elm: Node, parent: Node?, comp: int, ghost c: Ctx, ghost s: seq<Node>)
      requires Laid() && links.Keys == CtxNodes(c) && elm !in links && Focus(links, c, Leaf, root) && CtxShaded(c, 0)
      requires parent == HoleParent(c) && (!c.Top? ==> (comp < 0 <==> c.InLeft?))
      requires s == InOrder(Plug(c, Branch(true, Leaf, elm, Leaf))) && Sorted(s)
      requires Nodes(Plug(c, Branch(true, Leaf, elm, Leaf))) == CtxNodes(c) + {elm}
      modifies this, links.Keys, elm
      ensures Valid() && InOrder(tree) == s && links.Keys == old(links.Keys) + {elm}
    {
      tree := AttachAndColor(elm, parent, comp, c);
      SameNodes(tree, Plug(c, Branch(true, Leaf, elm, Leaf)));
    }

    /** RB_FIND: a node that overlaps the key, whenever there is one. */
    method Find(key: Span) returns (hit: Node?)
      requires Valid() && key.Proper()
      ensures hit != null ==> hit in InOrder(tree) && key.Overlaps(hit.key)
      ensures hit == null ==> forall n :: n in InOrder(tree) ==> !key.Overlaps(n.key)
    {
      var parent, comp;
      ghost var c;
      hit, parent, comp, c := Descend(key);
      if hit == null {
        NoOverlap(c, key);
      }
    }

    // ------------------------------------------------------------ removal

    /** Colours of sibling, parent and outer nephew before the last rotation of removal. */
    method PaintLast(sibling: Node, parent: Node, nephew: Node)
      requires Laid() && sibling in links && parent in links && nephew in links
      modifies this`links, links.Keys
      ensures Laid() && links == Dye(Dye(Dye(old(links), sibling, old(links)[parent].red), parent, false), nephew, false)
    {
      SetRed(sibling, parent.red);
      SetRed(parent, false);
      SetRed(nephew, false);
    }

    method PaintLastTo(sibling: Node, parent: Node, nephew: Node, ghost c: Ctx, ghost t: Tree)
      requires Laid() && sibling in links && parent in links && nephew in links
      requires Focus(Dye(Dye(Dye(links, sibling, links[parent].red), parent, false), nephew, false), c, t, root)
      modifies this`links, links.Keys
      ensures Laid() && links.Keys == old(links.Keys) && Focus(links, c, t, root)
    {
      PaintLast(sibling, parent, nephew);
    }

    /** A red sibling of a left child is rotated above the parent. */
    method LowerLeft(parent: Node, ghost c: Ctx, ghost t: Tree, ghost h: nat) returns (ghost c': Ctx)
      requires Laid() && Focus(links, c, t, root) && c.InLeft? && c.n == parent
      requires Removing(c, t, h) && !IsRed(t)
      modifies this`root, this`links, links.Keys
      ensures Laid() && links.Keys == old(links.Keys) && Focus(links, c', t, root)
      ensures c'.InLeft? && c'.n == parent && c'.r.Branch? && !c'.r.red && Removing(c', t, h)
      ensures c' == c || (c'.red && Depth(c'.up) == Depth(c))
      ensures InOrder(Plug(c', t)) == InOrder(Plug(c, t))
    {
      c' := c;
      RedSibling(c, t, h);
      GoUp(links, c, t, root);
      ghost var p, u := Fold(c, t), c.r;
      Around(links, c.up, p, root);
      var tmp := parent.right;
      if tmp.red {
        ghost var p' := FinishRight(tmp, parent, c.up, p);
        RotationShape(true, t, c.n, false, u.l, u.n, u.r);
        PlugSame(c.up, p, p');
        GoLeft(links, c.up, p', root);
        c' := InLeft(false, u.n, u.r, c.up);
        GoLeft(links, c', p'.l, root);
        c' := InLeft(true, c.n, u.l, c');
      }
    }

    method LowerRight(parent: Node, ghost c: Ctx, ghost t: Tree, ghost h: nat) returns (ghost c': Ctx)
      requires Laid() && Focus(links, c, t, root) && c.InRight? && c.n == parent
      requires Removing(c, t, h) && !IsRed(t)
      modifies this`root, this`links, links.Keys
      ensures Laid() && links.Keys == old(links.Keys) && Focus(links, c', t, root)
      ensures c'.InRight? && c'.n == parent && c'.l.Branch? && !c'.l.red && Removing(c', t, h)
      ensures c' == c || (c'.red && Depth(c'.up) == Depth(c))
      ensures InOrder(Plug(c', t)) == InOrder(Plug(c, t))
    {
      c' := c;
      RedSibling(c, t, h);
      GoUp(links, c, t, root);
      ghost var p, u := Fold(c, t), c.l;
      Around(links, c.up, p, root);
      var tmp := parent.left;
      if tmp.red {
        ghost var p' := FinishLeft(tmp, parent, c.up, p);
        RotationShape(false, u.l, u.n, true, u.r, c.n, t);
        PlugSame(c.up, p, p');
        GoRight(links, c.up, p', root);
        c' := InRight(false, u.l, u.n, c.up);
        GoRight(links, c', p'.r, root);
        c' := InRight(true, u.r, c.n, c');
      }
    }

    /** The outer nephew of a left child becomes red. */
    method OuterLeft(parent: Node, ghost c: Ctx, ghost t: Tree, ghost h: nat) returns (tmp: Node, ghost u: Tree)
      requires Laid() && Focus(links, c, t, root) && c.InLeft? && c.n == parent && Shaded(c.r, h + 1)
      requires c.r.Branch? && !c.r.red && (IsRed(c.r.l) || IsRed(c.r.r))
      modifies this`root, this`links, links.Keys
      ensures Laid() && links.Keys == old(links.Keys) && Focus(links, c.up, Branch(c.red, t, c.n, u), root)
      ensures u.Branch? && tmp == u.n && Shaded(u, h + 1) && !u.red && IsRed(u.r) && InOrder(u) == InOrder(c.r)
    {
      ghost var p, cu := Fold(c, t), InRight(c.red, t, c.n, c.up);
      SiblingView(links, c, t, root);
      GoUp(links, c, t, root);
      GoRight(links, c.up, p, root);
      InnerNephew(c.r, h);
      tmp, u := parent.right, c.r;
      if tmp.right == null || !tmp.right.red {
        RotationShape(true, u.l.l, u.l.n, false, u.l.r, u.n, u.r);
        u := FinishLeft(tmp.left, tmp, cu, u);
        RotationShape(false, u.l, u.n, true, u.r.l, u.r.n, u.r.r);
        GoUp(links, cu, u, root);
        CellView(links, c.up, Branch(c.red, t, c.n, u), root);
        tmp := parent.right;
      }
    }

    /** A red nephew ends the repair below a left child. */
    method EndLeft(parent: Node, ghost c: Ctx, ghost t: Tree, ghost h: nat) returns (ghost whole: Tree)
      requires Laid() && Focus(links, c, t, root) && c.InLeft? && c.n == parent
      requires Removing(c, t, h) && !IsRed(t)
      requires c.r.Branch? && !c.r.red && (IsRed(c.r.l) || IsRed(c.r.r))
      modifies this`root, this`links, links.Keys
      ensures Laid() && links.Keys == old(links.Keys) && Focus(links, Top, whole, root)
      ensures whole.Branch? && RedBlack(whole) && InOrder(whole) == InOrder(Plug(c, t))
    {
      var tmp;
      ghost var u;
      tmp, u := OuterLeft(parent, c, t, h);
      ghost var r := EndLeftTurn(parent, tmp, c.up, Branch(c.red, t, c.n, u));
      RedNephewLeft(c, t, h, u);
      EndOrder(Fold(c, t), u);
      PlugSame(c.up, Fold(c, t), r);
      Whole(links, c.up, r, root, if c.red then h + 1 else h + 2);
      whole := Plug(c.up, r);
    }

    method EndLeftTurn(parent: Node, tmp: Node, ghost up: Ctx, ghost p: Tree) returns (ghost r: Tree)
      requires Laid() && Focus(links, up, p, root) && p.Branch? && p.r.Branch? && p.r.r.Branch?
      requires parent == p.n && tmp == p.r.n
      modifies this`root, this`links, links.Keys
      ensures r == Branch(p.red, Branch(false, p.l, p.n, p.r.l), p.r.n, p.r.r.(red := false))
      ensures Laid() && links.Keys == old(links.Keys) && Focus(links, up, r, root)
    {
      RotationSite(links, up, p, root, true);
      PaintedLastLeft(links, up, p, root);
      ghost var p' := Branch(false, p.l, p.n, Branch(p.red, p.r.l, p.r.n, p.r.r.(red := false)));
      PaintLastTo(tmp, parent, tmp.right, up, p');
      r := RotateLeft(parent, up, p');
    }

    /** Black nephews: the sibling of a left child turns red. */
    method FadeLeft(tmp: Node, ghost d: Ctx, ghost t: Tree) returns (ghost p: Tree)
      requires Laid() && Focus(links, d, t, root) && d.InLeft? && d.r.Branch? && tmp == d.r.n
      modifies this`links, links.Keys
      ensures p == Branch(d.red, t, d.n, d.r.(red := true))
      ensures Laid() && links.Keys == old(links.Keys) && Focus(links, d.up, p, root)
      ensures InOrder(Plug(d.up, p)) == InOrder(Plug(d, t))
    {
      GoUp(links, d, t, root);
      PaintedR(links, d.up, Fold(d, t), root, true);
      p := Branch(d.red, t, d.n, d.r.(red := true));
      PlugSame(d.up, Fold(d, t), p);
      SetRed(tmp, true);
    }

    /** One turn of the removal loop at a left child; done means the whole tree is repaired. */
    method RemoveLeft(parent: Node, ghost c: Ctx, ghost t: Tree, ghost h: nat)
      returns (done: bool, elm: Node, ghost c': Ctx, ghost t': Tree, ghost h': nat)
      requires Laid() && Focus(links, c, t, root) && c.InLeft? && c.n == parent
      requires Removing(c, t, h) && !IsRed(t)
      modifies this`root, this`links, links.Keys
      ensures Laid() && links.Keys == old(links.Keys) && Focus(links, c', t', root) && t'.Branch? && elm == t'.n
      ensures InOrder(Plug(c', t')) == InOrder(Plug(c, t))
      ensures done ==> c'.Top? && RedBlack(t')
      ensures !done ==> Removing(c', t', h') && (Depth(c') < Depth(c) || (Depth(c') == Depth(c) && IsRed(t')))
    {
      ghost var d := LowerLeft(parent, c, t, h);
      SiblingView(links, d, t, root);
      var tmp := parent.right;
      if (tmp.left == null || !tmp.left.red) && (tmp.right == null || !tmp.right.red) {
        BlackNephews(d, t, h);
        t' := FadeLeft(tmp, d, t);
        done, elm, c', h' := false, parent, d.up, if d.red then h else h + 1;
      } else {
        t' := EndLeft(parent, d, t, h);
        done, elm, c', h' := true, root, Top, 0;
      }
    }

    // The mirror image: the same turns at a right child.

    method OuterRight(parent: Node, ghost c: Ctx, ghost t: Tree, ghost h: nat) returns (tmp: Node, ghost u: Tree)
      requires Laid() && Focus(links, c, t, root) && c.InRight? && c.n == parent && Shaded(c.l, h + 1)
      requires c.l.Branch? && !c.l.red && (IsRed(c.l.l) || IsRed(c.l.r))
      modifies this`root, this`links, links.Keys
      ensures Laid() && links.Keys == old(links.Keys) && Focus(links, c.up, Branch(c.red, u, c.n, t), root)
      ensures u.Branch? && tmp == u.n && Shaded(u, h + 1) && !u.red && IsRed(u.l) && InOrder(u) == InOrder(c.l)
    {
      ghost var p, cu := Fold(c, t), InLeft(c.red, c.n, t, c.up);
      GoUp(links, c, t, root);
      Around(links, c.up, p, root);
      GoLeft(links, c.up, p, root);
      Around(links, cu, c.l, root);
      InnerNephew(c.l, h);
      tmp, u := parent.left, c.l;
      if tmp.left == null || !tmp.left.red {
        RotationShape(false, u.l, u.n, true, u.r.l, u.r.n, u.r.r);
        u := FinishRight(tmp.right, tmp, cu, u);
        RotationShape(true, u.l.l, u.l.n, false, u.l.r, u.n, u.r);
        GoUp(links, cu, u, root);
        Around(links, c.up, Branch(c.red, u, c.n, t), root);
        tmp := parent.left;
      }
    }

    method EndRight(parent: Node, ghost c: Ctx, ghost t: Tree, ghost h: nat) returns (ghost whole: Tree)
      requires Laid() && Focus(links, c, t, root) && c.InRight? && c.n == parent
      requires Removing(c, t, h) && !IsRed(t)
      requires c.l.Branch? && !c.l.red && (IsRed(c.l.l) || IsRed(c.l.r))
      modifies this`root, this`links, links.Keys
      ensures Laid() && links.Keys == old(links.Keys) && Focus(links, Top, whole, root)
      ensures whole.Branch? && RedBlack(whole) && InOrder(whole) == InOrder(Plug(c, t))
    {
      var tmp;
      ghost var u;
      tmp, u := OuterRight(parent, c, t, h);
      ghost var r := EndRightTurn(parent, tmp, c.up, Branch(c.red, u, c.n, t));
      RedNephewRight(c, t, h, u);
      EndOrder(Fold(c, t), u);
      PlugSame(c.up, Fold(c, t), r);
      Whole(links, c.up, r, root, if c.red then h + 1 else h + 2);
      whole := Plug(c.up, r);
    }

    method EndRightTurn(parent: Node, tmp: Node, ghost up: Ctx, ghost p: Tree) returns (ghost r: Tree)
      requires Laid() && Focus(links, up, p, root) && p.Branch? && p.l.Branch? && p.l.l.Branch?
      requires parent == p.n && tmp == p.l.n
      modifies this`root, this`links, links.Keys
      ensures r == Branch(p.red, p.l.l.(red := false), p.l.n, Branch(false, p.l.r, p.n, p.r))
      ensures Laid() && links.Keys == old(links.Keys) && Focus(links, up, r, root)
    {
      RotationSite(links, up, p, root, false);
      PaintedLastRight(links, up, p, root);
      ghost var p' := Branch(false, Branch(p.red, p.l.l.(red := false), p.l.n, p.l.r), p.n, p.r);
      PaintLastTo(tmp, parent, tmp.left, up, p');
      r := RotateRight(parent, up, p');
    }

    method FadeRight(tmp: Node, ghost d: Ctx, ghost t: Tree) returns (ghost p: Tree)
      requires Laid() && Focus(links, d, t, root) && d.InRight? && d.l.Branch? && tmp == d.l.n
      modifies this`links, links.Keys
      ensures p == Branch(d.red, d.l.(red := true), d.n, t)
      ensures Laid() && links.Keys == old(links.Keys) && Focus(links, d.up, p, root)
      ensures InOrder(Plug(d.up, p)) == InOrder(Plug(d, t))
    {
      GoUp(links, d, t, root);
      PaintedL(links, d.up, Fold(d, t), root, true);
      p := Branch(d.red, d.l.(red := true), d.n, t);
      PlugSame(d.up, Fold(d, t), p);
      SetRed(tmp, true);
    }

    method RemoveRight(parent: Node, ghost c: Ctx, ghost t: Tree, ghost h: nat)
      returns (done: bool, elm: Node, ghost c': Ctx, ghost t': Tree, ghost h': nat)
      requires Laid() && Focus(links, c, t, root) && c.InRight? && c.n == parent
      requires Removing(c, t, h) && !IsRed(t)
      modifies this`root, this`links, links.Keys
      ensures Laid() && links.Keys == old(links.Keys) && Focus(links, c', t', root) && t'.Branch? && elm == t'.n
      ensures InOrder(Plug(c', t')) == InOrder(Plug(c, t))
      ensures done ==> c'.Top? && RedBlack(t')
      ensures !done ==> Removing(c', t', h') && (Depth(c') < Depth(c) || (Depth(c') == Depth(c) && IsRed(t')))
    {
      ghost var d := LowerRight(parent, c, t, h);
      SiblingView(links, d, t, root);
      var tmp := parent.left;
      if (tmp.left == null || !tmp.left.red) && (tmp.right == null || !tmp.right.red) {
        BlackNephews(d, t, h);
        t' := FadeRight(tmp, d, t);
        done, elm, c', h' := false, parent, d.up, if d.red then h else h + 1;
      } else {
        t' := EndRight(parent, d, t, h);
        done, elm, c', h' := true, root, Top, 0;
      }
    }

    /** The tail of RB_REMOVE_COLOR: the node the loop stopped at turns black. */
    method Settle(elm: Node?, ghost c: Ctx, ghost t: Tree, ghost h: nat) returns (ghost whole: Tree)
      requires Laid() && Focus(links, c, t, root) && elm == RootOf(t)
      requires (c.Top? && RedBlack(t)) || (Removing(c, t, h) && (IsRed(t) || c.Top?))
      modifies this`links, links.Keys
      ensures Laid() && links.Keys == old(links.Keys) && Focus(links, Top, whole, root)
      ensures RedBlack(whole) && InOrder(whole) == InOrder(Plug(c, t))
    {
      whole := Plug(c, Blacken(t));
      PlugSame(c, t, Blacken(t));
      Settled(links, c, t, h, root);
      if elm != null {
        SetRed(elm, false);
      }
    }

    /** One turn of the removal loop. */
    method RemoveTurn(parent: Node, x: Node?, ghost c: Ctx, ghost t: Tree, ghost h: nat)
      returns (done: bool, elm: Node, ghost c': Ctx, ghost t': Tree, ghost h': nat)
      requires Laid() && Focus(links, c, t, root) && !c.Top? && c.n == parent && x == RootOf(t)
      requires Removing(c, t, h) && !IsRed(t)
      modifies this`root, this`links, links.Keys
      ensures Laid() && links.Keys == old(links.Keys) && Focus(links, c', t', root) && t'.Branch? && elm == t'.n
      ensures InOrder(Plug(c', t')) == InOrder(Plug(c, t))
      ensures done ==> c'.Top? && RedBlack(t')
      ensures !done ==> Removing(c', t', h') && (Depth(c') < Depth(c) || (Depth(c') == Depth(c) && IsRed(t')))
    {
      RedSibling(c, t, h);
      Around(links, c, t, root);
      if parent.left == x {
        done, elm, c', t', h' := RemoveLeft(parent, c, t, h);
      } else {
        done, elm, c', t', h' := RemoveRight(parent, c, t, h);
      }
    }

    /** RB_REMOVE_COLOR */
    method RemoveColor(parent: Node?, elm: Node?, ghost c: Ctx, ghost t: Tree, ghost h: nat) returns (ghost whole: Tree)
      requires Laid() && Focus(links, c, t, root) && parent == HoleParent(c) && elm == RootOf(t)
      requires Removing(c, t, h)
      modifies this`root, this`links, links.Keys
      ensures Laid() && links.Keys == old(links.Keys) && Focus(links, Top, whole, root)
      ensures RedBlack(whole) && InOrder(whole) == InOrder(Plug(c, t))
    {
      var x, p, done := elm, parent, false;
      ghost var d, u, k := c, t, h;
      Around(links, d, u, root);
      while !done && (x == null || !x.red) && x != root
        invariant Laid() && links.Keys == old(links.Keys) && Focus(links, d, u, root)
        invariant p == HoleParent(d) && x == RootOf(u) && InOrder(Plug(d, u)) == InOrder(Plug(c, t))
        invariant if done then d.Top? && RedBlack(u) else Removing(d, u, k)
        invariant (x != null ==> x in links && x.red == u.red) && (x == root <==> d.Top?)
        decreases Depth(d), !done, !IsRed(u)
      {
        done, x, d, u, k := RemoveTurn(p, x, d, u, k);
        Around(links, d, u, root);
        p := x.parent;
      }
      whole := Settle(x, d, u, k);
    }

    method Drop(parent: Node?, elm: Node, child: Node?)
      requires Laid() && elm in links && elm != child && elm != parent
      requires (child != null ==> child in links) && (parent != null ==> parent in links && parent != child)
      modifies this`root, this`links, links.Keys
      ensures Laid() && links == Hoisted(old(links), parent, elm, child) - {elm} && elm.parent == old(elm.parent)
      ensures root == if parent == null then child else old(root)
    {
      Hoist(parent, elm, child);
      links := links - {elm};
    }

    /** A node with at most one child leaves the links; its own fields stay as they were. */
    method Unlink(elm: Node, child: Node?, ghost c: Ctx, ghost t: Tree)
      requires Laid() && Focus(links, c, t, root) && t.Branch? && (t.l.Leaf? || t.r.Leaf?)
      requires elm == t.n && child == RootOf(OnlyChild(t))
      modifies this`root, this`links, links.Keys
      ensures Laid() && links.Keys == old(links.Keys) - {elm} && Focus(links, c, OnlyChild(t), root)
      ensures elm.parent == old(elm.parent)
    {
      Unlinked(links, c, t, root);
      Drop(elm.parent, elm, child);
    }

    /** The tail of RB_REMOVE: recolour if a black node went missing. */
    method Recover(red: bool, parent: Node?, child: Node?, ghost c: Ctx, ghost t: Tree, ghost h: nat) returns (ghost whole: Tree)
      requires Laid() && Focus(links, c, t, root) && parent == HoleParent(c) && child == RootOf(t)
      requires if red then Shaded(t, h) && CtxShaded(c, h) && !IsRed(t) && !c.Top? else Removing(c, t, h)
      modifies this`root, this`links, links.Keys
      ensures Laid() && links.Keys == old(links.Keys) && Focus(links, Top, whole, root)
      ensures RedBlack(whole) && InOrder(whole) == InOrder(Plug(c, t))
    {
      if !red {
        whole := RemoveColor(parent, child, c, t, h);
      } else {
        whole := Plug(c, t);
        PlugShaded(c, t, h);
        GoTop(links, c, t, root);
      }
    }

    /** RB_REMOVE of a node with at most one child */
    method RemoveOuter(elm: Node, ghost c: Ctx, ghost t: Tree) returns (ghost whole: Tree)
      requires Laid() && Focus(links, c, t, root) && OnPath(c, t) && t.Branch? && elm == t.n
      requires t.l.Leaf? || t.r.Leaf?
      modifies this`root, this`links, links.Keys
      ensures Laid() && links.Keys == old(links.Keys) - {elm} && Focus(links, Top, whole, root)
      ensures RedBlack(whole) && InOrder(whole) == Without(c, t)
    {
      Around(links, c, t, root);
      var child := if elm.left == null then elm.right else elm.left;
      var parent, red := elm.parent, elm.red;
      Missing(c, t);
      OnlyChildOrder(c, t);
      Unlink(elm, child, c, t);
      whole := Recover(red, parent, child, c, OnlyChild(t), BlackHeight(OnlyChild(t)));
    }

    /** The leftmost node of the right subtree */
    method Successor(elm: Node, ghost c: Ctx, ghost t: Tree) returns (s: Node, ghost lc: Ctx, ghost st: Tree)
      requires Laid() && Focus(links, c, t, root) && OnPath(c, t) && t.Branch? && elm == t.n && t.r.Branch?
      ensures st.Branch? && st.n == s && st.l.Leaf? && Leftmost(lc) && t.r == Plug(lc, st)
      ensures var b := Onto(lc, InRight(t.red, t.l, t.n, c)); Focus(links, b, st, root) && OnPath(b, st)
    {
      ghost var b := InRight(t.red, t.l, t.n, c);
      lc, st := Top, t.r;
      CellView(links, c, t, root);
      GoRight(links, c, t, root);
      PathStep(c, t);
      s := elm.right;
      CellView(links, b, st, root);
      while s.left != null
        invariant st.Branch? && st.n == s && Leftmost(lc) && t.r == Plug(lc, st)
        invariant Focus(links, Onto(lc, b), st, root) && OnPath(Onto(lc, b), st)
        invariant s in links && s.left == RootOf(st.l)
        decreases st
      {
        GoLeft(links, Onto(lc, b), st, root);
        PathStep(Onto(lc, b), st);
        s := s.left;
        lc, st := InLeft(st.red, st.n, st.r, lc), st.l;
        CellView(links, Onto(lc, b), st, root);
      }
    }

    /** s takes over the place and the fields of gone */
    method SwapIn(gone: Node, s: Node, ghost c: Ctx, ghost u: Tree)
      requires Laid() && Focus(links, c, u, root) && u.Branch? && u.l.Branch? && gone == u.n && s !in links
      modifies this`root, this`links, links.Keys, s
      ensures Laid() && links.Keys == old(links.Keys) - {gone} + {s} && Focus(links, c, u.(n := s), root)
    {
      RepKeys(links, u, HoleParent(c));
      CtxKeys(links, c, u.n);
      SwappedFocus(links, c, u, root, s);
      CopyLinks(gone, s);
    }

    method CopyFields(gone: Node, s: Node)
      requires Laid() && gone in links && s !in links
      modifies this`links, s
      ensures Laid() && links == old(links)[s := old(links)[gone]]
    {
      s.left, s.right, s.parent, s.red := gone.left, gone.right, gone.parent, gone.red;
      links := links[s := links[gone]];
    }

    method Repoint(gone: Node, s: Node)
      requires Laid() && gone in links && (gone.parent != null ==> gone.parent in links && gone.parent != gone)
      modifies this`root, this`links, links.Keys
      ensures var m, p := old(links), old(gone.parent);
        && Laid() && root == (if p == null then s else old(root))
        && links == Repointed(m, p, gone, s)
    {
      if gone.parent != null {
        if gone.parent.left == gone {
          SetLeft(gone.parent, s);
        } else {
          SetRight(gone.parent, s);
        }
      } else {
        root := s;
      }
    }

    method Foster(l: Node, r: Node?, s: Node)
      requires Laid() && l in links && (r != null ==> r in links)
      modifies this`links, links.Keys
      ensures Laid() && links == Fostered(old(links), l, r, s)
    {
      SetParent(l, s);
      if r != null {
        SetParent(r, s);
      }
    }

    method CopyLinks(gone: Node, s: Node)
      requires Laid() && gone in links && s !in links
      requires var z := links[gone];
        && z.left != null && z.left in links && z.left != gone
        && (z.right != null ==> z.right in links && z.right !in {gone, z.left})
        && (z.parent != null ==> z.parent in links && z.parent !in {gone, z.left, z.right})
      modifies this`root, this`links, links.Keys, s
      ensures Laid() && links == Swapped(old(links), gone, s)
      ensures root == if old(gone.parent) == null then s else old(root)
    {
      CopyFields(gone, s);
      Repoint(gone, s);
      Foster(gone.left, gone.right, s);
      links := links - {gone};
    }

    /** The successor s, already unlinked, takes elm's place; the focus stays where s was. */
    method MoveUp(elm: Node, s: Node, ghost c: Ctx, ghost t: Tree, ghost lc: Ctx, ghost u: Tree)
      requires t.Branch? && t.l.Branch? && elm == t.n && Laid() && s !in links
      requires Focus(links, Onto(lc, InRight(t.red, t.l, elm, c)), u, root)
      modifies this`root, this`links, links.Keys, s
      ensures Laid() && links.Keys == old(links.Keys) - {elm} + {s}
      ensures Focus(links, Onto(lc, InRight(t.red, t.l, s, c)), u, root)
    {
      ghost var b, r := InRight(t.red, t.l, elm, c), Plug(lc, u);
      GoOut(links, lc, b, u, root);
      GoUp(links, b, r, root);
      SwapIn(elm, s, c, Branch(t.red, t.l, elm, r));
      GoRight(links, c, Branch(t.red, t.l, s, r), root);
      GoIn(links, lc, InRight(t.red, t.l, s, c), u, root);
    }

    /** RB_REMOVE of a node with two children: its successor moves into its place */
    method RemoveInner(elm: Node, ghost c: Ctx, ghost t: Tree) returns (ghost whole: Tree)
      requires Laid() && Focus(links, c, t, root) && OnPath(c, t) && t.Branch? && elm == t.n
      requires t.l.Branch? && t.r.Branch?
      modifies this`root, this`links, links.Keys
      ensures Laid() && links.Keys == old(links.Keys) - {elm} && Focus(links, Top, whole, root)
      ensures RedBlack(whole) && InOrder(whole) == Without(c, t)
    {
      var s;
      ghost var lc, st;
      s, lc, st := Successor(elm, c, t);
      InnerMissing(c, t, lc, st);
      var child, parent, red := Promote(elm, s, c, t, lc, st);
      whole := Recover(red, parent, child, Onto(lc, InRight(t.red, t.l, s, c)), st.r, BlackHeight(st.r));
    }

    /** The successor is unlinked from below and takes elm's place. */
    method Promote(elm: Node, s: Node, ghost c: Ctx, ghost t: Tree, ghost lc: Ctx, ghost st: Tree)
      returns (child: Node?, parent: Node, red: bool)
      requires Laid() && t.Branch? && t.l.Branch? && elm == t.n && st.Branch? && st.n == s && st.l.Leaf?
      requires Focus(links, Onto(lc, InRight(t.red, t.l, elm, c)), st, root)
      modifies this`root, this`links, links.Keys
      ensures Laid() && links.Keys == old(links.Keys) - {elm}
      ensures Focus(links, Onto(lc, InRight(t.red, t.l, s, c)), st.r, root)
      ensures child == RootOf(st.r) && parent == HoleParent(Onto(lc, InRight(t.red, t.l, s, c))) && red == st.red
    {
      ghost var b := InRight(t.red, t.l, elm, c);
      OntoParent(lc, b);
      OntoHas(lc, b);
      child, parent, red := TakeOut(s, Onto(lc, b), st);
      if parent == elm {
        parent := s;
      }
      OntoNext(lc, b, InRight(t.red, t.l, s, c));
      MoveUp(elm, s, c, t, lc, st.r);
    }

    /** A node without a left child is unlinked. */
    method TakeOut(s: Node, ghost c: Ctx, ghost st: Tree) returns (child: Node?, parent: Node, red: bool)
      requires Laid() && st.Branch? && st.n == s && st.l.Leaf? && !c.Top? && Focus(links, c, st, root)
      modifies this`root, this`links, links.Keys
      ensures Laid() && links.Keys == old(links.Keys) - {s} && s in old(links) && Focus(links, c, st.r, root)
      ensures child == RootOf(st.r) && parent == c.n && red == st.red
    {
      CellView(links, c, st, root);
      child, parent, red := s.right, s.parent, s.red;
      Unlink(s, child, c, st);
    }

    method RemoveAt(elm: Node, ghost c: Ctx, ghost t: Tree) returns (ghost whole: Tree)
      requires Laid() && Focus(links, c, t, root) && OnPath(c, t) && t.Branch? && elm == t.n
      modifies this`root, this`links, links.Keys
      ensures Laid() && links.Keys == old(links.Keys) - {elm} && Focus(links, Top, whole, root)
      ensures RedBlack(whole) && InOrder(whole) == Without(c, t)
    {
      Around(links, c, t, root);
      if elm.left == null || elm.right == null {
        whole := RemoveOuter(elm, c, t);
      } else {
        whole := RemoveInner(elm, c, t);
      }
    }

    /** RB_REMOVE: the node leaves the in-order sequence and the tree stays red-black. */
    method Remove(elm: Node) returns (ghost k: nat)
      requires Valid() && elm in InOrder(tree)
      modifies this, links.Keys
      ensures Valid()
      ensures k < |old(InOrder(tree))| && old(InOrder(tree))[k] == elm
      ensures InOrder(tree) == Cut(old(InOrder(tree)), k)
      ensures links.Keys == old(links.Keys) - {elm}
    {
      ghost var c, t := Locate(elm);
      k := |Earlier(c) + InOrder(t.l)|;
      tree := RemoveAt(elm, c, t);
      RemovedOrder(c, t, tree);
    }

    lemma Locate(elm: Node) returns (c: Ctx, t: Tree)
      requires Valid() && elm in InOrder(tree)
      ensures Plug(c, t) == tree && t.Branch? && t.n == elm && Focus(links, c, t, root) && OnPath(c, t)
    {
      NodesInOrder(tree);
      var place := PathTo(Top, tree, elm);
      GoTo(links, Top, tree, root, elm);
      PathShaded(Top, tree, elm);
      c, t := place.0, place.1;
    }

    /** The tree is low: a node of the tree is found within 2 lg(n + 1) steps. */
    lemma LowHeight()
      requires Valid()
      ensures Pow2(Height(tree)) <= (|InOrder(tree)| + 1) * (|InOrder(tree)| + 1)
    {
      HeightBound(tree);
      SizeIsLength(tree);
    }
  }
}
