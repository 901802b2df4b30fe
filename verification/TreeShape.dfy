/**
  The linked nodes of a red-black tree (include/sys/tree.h) and the pure vocabulary the
  proofs use: the ghost shape of a linked tree, a shape with a hole in it, and what the
  heap must look like for a shape to be laid out in it.

  Keys are address intervals under the order where overlap means equality
  (lib/peak_locate.h).  A point key, such as a page index, is an interval with lo == hi.
 */
module TreeShape {

  datatype Span = Span(lo: int, hi: int) {
    predicate Proper() { lo <= hi }
    predicate Before(that: Span) { hi < that.lo }
    predicate Overlaps(that: Span) { lo <= that.hi && that.lo <= hi }
  }

  /** peak_locate_cmp: overlapping intervals compare equal. */
  function Compare(x: Span, y: Span): (r: int)
    ensures r < 0 <==> x.Before(y)
    ensures r > 0 <==> y.Before(x) && !x.Before(y)
    ensures r == 0 <==> x.Overlaps(y)
  {
    if x.hi < y.lo then -1
    else if x.lo > y.hi then 1
    else 0
  }

  class Node {
    const key: Span
    const location: nat
    var left: Node?
    var right: Node?
    var parent: Node?
    var red: bool

    constructor (key: Span, location: nat)
      ensures this.key == key && this.location == location
    {
      this.key := key;
      this.location := location;
      left, right, parent, red := null, null, null, false;
    }
  }

  /** The shape of a linked tree, with the colour of each node. */
  datatype Tree = Leaf | Branch(red: bool, l: Tree, n: Node, r: Tree)

  /** A tree with a hole: the path from the hole up to the root. */
  datatype Ctx =
    | Top
    | InLeft(red: bool, n: Node, r: Tree, up: Ctx)
    | InRight(red: bool, l: Tree, n: Node, up: Ctx)

  ghost function Nodes(t: Tree): set<Node> {
    match t
    case Leaf => {}
    case Branch(_, l, n, r) => Nodes(l) + {n} + Nodes(r)
  }

  ghost function CtxNodes(c: Ctx): set<Node> {
    match c
    case Top => {}
    case InLeft(_, n, r, up) => Nodes(r) + {n} + CtxNodes(up)
    case InRight(_, l, n, up) => Nodes(l) + {n} + CtxNodes(up)
  }

  ghost predicate Distinct(t: Tree) {
    match t
    case Leaf => true
    case Branch(_, l, n, r) =>
      Distinct(l) && Distinct(r) && n !in Nodes(l) && n !in Nodes(r) && Nodes(l) !! Nodes(r)
  }

  ghost predicate CtxDistinct(c: Ctx) {
    match c
    case Top => true
    case InLeft(_, n, t, up) =>
      CtxDistinct(up) && Distinct(t) && n !in Nodes(t) && n !in CtxNodes(up) && Nodes(t) !! CtxNodes(up)
    case InRight(_, t, n, up) =>
      CtxDistinct(up) && Distinct(t) && n !in Nodes(t) && n !in CtxNodes(up) && Nodes(t) !! CtxNodes(up)
  }

  /** Fill the hole. */
  ghost function Plug(c: Ctx, t: Tree): Tree {
    match c
    case Top => t
    case InLeft(red, n, r, up) => Plug(up, Branch(red, t, n, r))
    case InRight(red, l, n, up) => Plug(up, Branch(red, l, n, t))
  }

  ghost function HoleParent(c: Ctx): Node? {
    match c
    case Top => null
    case InLeft(_, n, _, _) => n
    case InRight(_, _, n, _) => n
  }

  ghost function Depth(c: Ctx): nat {
    match c
    case Top => 0
    case InLeft(_, _, _, up) => 1 + Depth(up)
    case InRight(_, _, _, up) => 1 + Depth(up)
  }

  ghost function InOrder(t: Tree): seq<Node> {
    match t
    case Leaf => []
    case Branch(_, l, n, r) => InOrder(l) + [n] + InOrder(r)
  }

  /** What the in-order walk visits before and after the hole. */
  ghost function Earlier(c: Ctx): seq<Node> {
    match c
    case Top => []
    case InLeft(_, _, _, up) => Earlier(up)
    case InRight(_, l, n, up) => Earlier(up) + (InOrder(l) + [n])
  }

  ghost function Later(c: Ctx): seq<Node> {
    match c
    case Top => []
    case InLeft(_, n, r, up) => [n] + InOrder(r) + Later(up)
    case InRight(_, _, _, up) => Later(up)
  }

  /** A sequence with one element more, or less, at index k. */
  ghost function With(s: seq<Node>, k: nat, n: Node): seq<Node>
    requires k <= |s|
  {
    s[..k] + [n] + s[k..]
  }

  ghost function Cut(s: seq<Node>, k: nat): seq<Node>
    requires k < |s|
  {
    s[..k] + s[k + 1..]
  }

  /** The order invariant: the intervals are proper and strictly ascending. */
  ghost predicate Sorted(s: seq<Node>) {
    && (forall i :: 0 <= i < |s| ==> s[i].key.Proper())
    && (forall i, j :: 0 <= i < j < |s| ==> s[i].key.Before(s[j].key))
  }

  // ---------------------------------------------------------------- red-black balance

  ghost predicate IsRed(t: Tree) { t.Branch? && t.red }

  /** Black nodes on the leftmost path; Balanced says every path agrees. */
  ghost function BlackHeight(t: Tree): nat {
    match t
    case Leaf => 0
    case Branch(red, l, _, _) => BlackHeight(l) + if red then 0 else 1
  }

  ghost predicate Balanced(t: Tree) {
    match t
    case Leaf => true
    case Branch(_, l, _, r) => Balanced(l) && Balanced(r) && BlackHeight(l) == BlackHeight(r)
  }

  ghost predicate NoRedRed(t: Tree) {
    match t
    case Leaf => true
    case Branch(red, l, _, r) => NoRedRed(l) && NoRedRed(r) && (red ==> !IsRed(l) && !IsRed(r))
  }

  /** A tree every path of which has h black nodes, without a red node under a red one. */
  ghost predicate Shaded(t: Tree, h: nat) {
    Balanced(t) && BlackHeight(t) == h && NoRedRed(t)
  }

  ghost predicate RedBlack(t: Tree) {
    Balanced(t) && NoRedRed(t) && !IsRed(t)
  }

  ghost predicate CtxRed(c: Ctx) { !c.Top? && c.red }

  /** The context is well shaded once a tree of black height h fills the hole; its root is black. */
  ghost predicate CtxShaded(c: Ctx, h: nat) {
    match c
    case Top => true
    case InLeft(red, _, t, up) =>
      && Shaded(t, h)
      && (red ==> !IsRed(t) && !CtxRed(up) && !up.Top?)
      && CtxShaded(up, if red then h else h + 1)
    case InRight(red, t, _, up) =>
      && Shaded(t, h)
      && (red ==> !IsRed(t) && !CtxRed(up) && !up.Top?)
      && CtxShaded(up, if red then h else h + 1)
  }

  /** A place in a well-shaded tree. */
  ghost predicate OnPath(c: Ctx, t: Tree) {
    && Balanced(t) && NoRedRed(t) && CtxShaded(c, BlackHeight(t))
    && !(IsRed(t) && (CtxRed(c) || c.Top?))
  }

  lemma {:induction false} PathStep(c: Ctx, t: Tree)
    requires OnPath(c, t) && t.Branch?
    ensures OnPath(InLeft(t.red, t.n, t.r, c), t.l) && OnPath(InRight(t.red, t.l, t.n, c), t.r)
  {
  }

  /** Insertion repairs a red node t that may sit below a red parent. */
  ghost predicate Inserting(c: Ctx, t: Tree, h: nat) {
    IsRed(t) && Shaded(t, h) && CtxShaded(c, h)
  }

  /** One level of the context folded into the focus. */
  ghost function Fold(c: Ctx, t: Tree): Tree
    requires !c.Top?
  {
    if c.InLeft? then Branch(c.red, t, c.n, c.r) else Branch(c.red, c.l, c.n, t)
  }

  ghost function Sibling(c: Ctx): Tree
    requires !c.Top?
  {
    if c.InLeft? then c.r else c.l
  }

  lemma {:induction false} RedUncle(c: Ctx, t: Tree, h: nat)
    requires Inserting(c, t, h) && CtxRed(c)
    ensures !c.up.Top? && !c.up.red
    ensures var g := Fold(c.up, Fold(c, t));
            IsRed(Sibling(c.up)) ==>
              Inserting(c.up.up, Branch(true, g.l.(red := false), g.n, g.r.(red := false)), h + 1)
  {
    assert CtxShaded(c.up, h) && CtxShaded(c.up.up, h + 1);
    var p, sib, u := Fold(c, t), Sibling(c), Sibling(c.up);
    assert Shaded(sib, h) && Shaded(u, h) && !IsRed(sib);
    assert Shaded(p.(red := false), h + 1);
    if IsRed(u) {
      assert Shaded(u.(red := false), h + 1);
    }
  }

  lemma {:induction false} BlackUncleLeft(c: Ctx, t: Tree, h: nat)
    requires Inserting(c, t, h) && CtxRed(c) && c.up.InLeft? && !IsRed(c.up.r)
    ensures var p := Fold(c, t);
            var p' := if c.InLeft? then p else Branch(true, Branch(true, p.l, p.n, t.l), t.n, t.r);
            Inserting(InLeft(false, p'.n, Branch(true, p'.r, c.up.n, c.up.r), c.up.up), p'.l, h)
  {
    assert CtxShaded(c.up, h) && CtxShaded(c.up.up, h + 1);
    var p, sib, u := Fold(c, t), Sibling(c), Sibling(c.up);
    assert Shaded(sib, h) && Shaded(u, h) && !IsRed(sib);
    assert Shaded(t.l, h) && Shaded(t.r, h) && !IsRed(t.l) && !IsRed(t.r);
    var p' := if c.InLeft? then p else Branch(true, Branch(true, p.l, p.n, t.l), t.n, t.r);
    assert Shaded(p'.l, h);
    assert Shaded(Branch(true, p'.r, c.up.n, u), h);
  }

  lemma {:induction false} BlackUncleRight(c: Ctx, t: Tree, h: nat)
    requires Inserting(c, t, h) && CtxRed(c) && c.up.InRight? && !IsRed(c.up.l)
    ensures var p := Fold(c, t);
            var p' := if c.InRight? then p else Branch(true, t.l, t.n, Branch(true, t.r, p.n, p.r));
            Inserting(InRight(false, Branch(true, c.up.l, c.up.n, p'.l), p'.n, c.up.up), p'.r, h)
  {
    assert CtxShaded(c.up, h) && CtxShaded(c.up.up, h + 1);
    var p, sib, u := Fold(c, t), Sibling(c), Sibling(c.up);
    assert Shaded(sib, h) && Shaded(u, h) && !IsRed(sib);
    assert Shaded(t.l, h) && Shaded(t.r, h) && !IsRed(t.l) && !IsRed(t.r);
    var p' := if c.InRight? then p else Branch(true, t.l, t.n, Branch(true, t.r, p.n, p.r));
    assert Shaded(p'.r, h);
    assert Shaded(Branch(true, u, c.up.n, p'.l), h);
  }

  ghost function Blacken(t: Tree): Tree {
    match t
    case Leaf => Leaf
    case Branch(_, l, n, r) => Branch(false, l, n, r)
  }

  /** Removal repairs a tree t that is one black node short; a red root of t may have red children. */
  ghost predicate Removing(c: Ctx, t: Tree, h: nat) {
    && Balanced(t) && BlackHeight(t) == h && NoRedRed(Blacken(t))
    && CtxShaded(c, h + 1)
  }

  lemma {:induction false} RedSibling(c: Ctx, t: Tree, h: nat)
    requires Removing(c, t, h) && !IsRed(t) && !c.Top?
    ensures Sibling(c).Branch?
    ensures var u := Sibling(c); u.red ==>
      && !c.red
      && (c.InLeft? ==> u.l.Branch? && !u.l.red && Removing(InLeft(true, c.n, u.l, InLeft(false, u.n, u.r, c.up)), t, h))
      && (c.InRight? ==> u.r.Branch? && !u.r.red && Removing(InRight(true, u.r, c.n, InRight(false, u.l, u.n, c.up)), t, h))
  {
    var u := Sibling(c);
    assert Shaded(u, h + 1);
    if u.red {
      assert Shaded(u.l, h + 1) && Shaded(u.r, h + 1);
      assert CtxShaded(c.up, h + 2);
    }
  }

  lemma {:induction false} BlackNephews(c: Ctx, t: Tree, h: nat)
    requires Removing(c, t, h) && !IsRed(t) && !c.Top? && Sibling(c).Branch?
    requires !Sibling(c).red && !IsRed(Sibling(c).l) && !IsRed(Sibling(c).r)
    ensures var u := Sibling(c).(red := true);
            var p := if c.InLeft? then Branch(c.red, t, c.n, u) else Branch(c.red, u, c.n, t);
            Removing(c.up, p, if c.red then h else h + 1)
  {
    var u := Sibling(c);
    assert Shaded(u.l, h) && Shaded(u.r, h);
    assert Shaded(u.(red := true), h);
  }

  /** A red nephew lets removal end here: r is the repaired subtree. */
  lemma {:induction false} RedNephewLeft(c: Ctx, t: Tree, h: nat, u: Tree)
    requires Removing(c, t, h) && !IsRed(t) && c.InLeft?
    requires Shaded(u, h + 1) && u.Branch? && !u.red && IsRed(u.r)
    ensures var r := Branch(c.red, Branch(false, t, c.n, u.l), u.n, u.r.(red := false));
            var k := if c.red then h + 1 else h + 2;
            Shaded(r, k) && CtxShaded(c.up, k) && !(IsRed(r) && (CtxRed(c.up) || c.up.Top?))
  {
    assert Shaded(u.l, h) && Shaded(u.r, h);
    assert Shaded(u.r.(red := false), h + 1);
    assert Shaded(Branch(false, t, c.n, u.l), h + 1);
  }

  lemma {:induction false} RedNephewRight(c: Ctx, t: Tree, h: nat, u: Tree)
    requires Removing(c, t, h) && !IsRed(t) && c.InRight?
    requires Shaded(u, h + 1) && u.Branch? && !u.red && IsRed(u.l)
    ensures var r := Branch(c.red, u.l.(red := false), u.n, Branch(false, u.r, c.n, t));
            var k := if c.red then h + 1 else h + 2;
            Shaded(r, k) && CtxShaded(c.up, k) && !(IsRed(r) && (CtxRed(c.up) || c.up.Top?))
  {
    assert Shaded(u.l, h) && Shaded(u.r, h);
    assert Shaded(u.l.(red := false), h + 1);
    assert Shaded(Branch(false, u.r, c.n, t), h + 1);
  }

  /** The inner nephew is red and the outer one black: one rotation moves the red outwards. */
  lemma {:induction false} InnerNephew(u: Tree, h: nat)
    requires Shaded(u, h + 1) && u.Branch? && !u.red
    ensures IsRed(u.l) && !IsRed(u.r) ==> Shaded(Branch(false, u.l.l, u.l.n, Branch(true, u.l.r, u.n, u.r)), h + 1)
    ensures IsRed(u.r) && !IsRed(u.l) ==> Shaded(Branch(false, Branch(true, u.l, u.n, u.r.l), u.r.n, u.r.r), h + 1)
  {
    assert Shaded(u.l, h) && Shaded(u.r, h);
    if IsRed(u.l) {
      assert Shaded(u.l.l, h) && Shaded(u.l.r, h);
    }
    if IsRed(u.r) {
      assert Shaded(u.r.l, h) && Shaded(u.r.r, h);
    }
  }

  ghost function Size(t: Tree): nat {
    match t
    case Leaf => 0
    case Branch(_, l, _, r) => Size(l) + 1 + Size(r)
  }

  ghost function Height(t: Tree): nat {
    match t
    case Leaf => 0
    case Branch(_, l, _, r) => 1 + if Height(l) < Height(r) then Height(r) else Height(l)
  }

  ghost function Pow2(k: nat): nat { if k == 0 then 1 else 2 * Pow2(k - 1) }

  // ---------------------------------------------------------------- lemmas on shapes

  lemma {:induction false} PlugShaded(c: Ctx, t: Tree, h: nat)
    requires Shaded(t, h) && CtxShaded(c, h) && !(IsRed(t) && CtxRed(c))
    requires c.Top? ==> !IsRed(t)
    ensures RedBlack(Plug(c, t))
  {
    match c
    case Top =>
    case InLeft(red, n, r, up) =>
      PlugShaded(up, Branch(red, t, n, r), if red then h else h + 1);
    case InRight(red, l, n, up) =>
      PlugShaded(up, Branch(red, l, n, t), if red then h else h + 1);
  }

  lemma {:induction false} Regroup(e: seq<Node>, x: seq<Node>, n: seq<Node>, y: seq<Node>, l: seq<Node>)
    ensures e + (x + n + y) + l == e + x + (n + y + l)
    ensures e + (x + n + y) + l == e + (x + n) + y + l
    ensures e + (x + n + y) + l == (e + x) + n + (y + l)
  {
  }

  lemma {:induction false} PlugOrder(c: Ctx, t: Tree)
    ensures InOrder(Plug(c, t)) == Earlier(c) + InOrder(t) + Later(c)
  {
    match c
    case Top =>
    case InLeft(red, n, r, up) =>
      PlugOrder(up, Branch(red, t, n, r));
      Regroup(Earlier(up), InOrder(t), [n], InOrder(r), Later(up));
    case InRight(red, l, n, up) =>
      PlugOrder(up, Branch(red, l, n, t));
      Regroup(Earlier(up), InOrder(l), [n], InOrder(t), Later(up));
  }

  lemma {:induction false} SameShape(c: Ctx, t: Tree)
    requires t.Branch?
    ensures Plug(c, t).Branch?
  {
    match c
    case Top =>
    case InLeft(red, n, r, up) => SameShape(up, Branch(red, t, n, r));
    case InRight(red, l, n, up) => SameShape(up, Branch(red, l, n, t));
  }

  lemma {:induction false} PlugSame(c: Ctx, t: Tree, t': Tree)
    requires InOrder(t) == InOrder(t')
    ensures InOrder(Plug(c, t)) == InOrder(Plug(c, t'))
  {
    PlugOrder(c, t);
    PlugOrder(c, t');
  }

  lemma {:induction false} PlugNodes(c: Ctx, t: Tree)
    ensures Nodes(Plug(c, t)) == Nodes(t) + CtxNodes(c)
  {
    match c
    case Top =>
    case InLeft(red, n, r, up) => PlugNodes(up, Branch(red, t, n, r));
    case InRight(red, l, n, up) => PlugNodes(up, Branch(red, l, n, t));
  }

  ghost function Elems(s: seq<Node>): set<Node> { set n | n in s }

  lemma {:induction false} ElemsAppend(a: seq<Node>, b: seq<Node>)
    ensures Elems(a + b) == Elems(a) + Elems(b)
  {
  }

  lemma {:induction false} NodesInOrder(t: Tree)
    ensures Nodes(t) == Elems(InOrder(t))
  {
    match t
    case Leaf =>
    case Branch(_, l, n, r) =>
      NodesInOrder(l);
      NodesInOrder(r);
      ElemsAppend(InOrder(l) + [n], InOrder(r));
      ElemsAppend(InOrder(l), [n]);
  }

  /** The two sides of a rotation hold the same nodes in the same order. */
  lemma {:induction false} RotationShape(red: bool, a: Tree, m: Node, red': bool, b: Tree, n: Node, d: Tree)
    ensures var t := Branch(red, a, m, Branch(red', b, n, d));
            var u := Branch(red', Branch(red, a, m, b), n, d);
            && Nodes(t) == Nodes(u) && InOrder(t) == InOrder(u) && (Distinct(t) <==> Distinct(u))
  {
    var r, l := Branch(red', b, n, d), Branch(red, a, m, b);
    assert Nodes(r) == Nodes(b) + {n} + Nodes(d) && Nodes(l) == Nodes(a) + {m} + Nodes(b);
    assert InOrder(a) + [m] + (InOrder(b) + [n] + InOrder(d))
        == (InOrder(a) + [m] + InOrder(b)) + [n] + InOrder(d);
  }

  /** Adding or removing one node in the middle of an ascending sequence. */
  lemma {:induction false} SortedSplit(a: seq<Node>, n: Node, b: seq<Node>)
    requires Sorted(a + [n] + b)
    ensures Sorted(a + b) && n !in a && n !in b
  {
    var s := a + [n] + b;
    forall i, j | 0 <= i < j < |a + b|
      ensures (a + b)[i].key.Before((a + b)[j].key)
    {
      var i' := if i < |a| then i else i + 1;
      var j' := if j < |a| then j else j + 1;
      assert s[i'].key.Before(s[j'].key);
    }
    forall i | 0 <= i < |a + b|
      ensures (a + b)[i].key.Proper()
    {
      var i' := if i < |a| then i else i + 1;
      assert s[i'].key.Proper();
    }
    assert s[|a|] == n;
    forall i | 0 <= i < |a| ensures a[i] != n { assert s[i].key.Before(s[|a|].key); }
    forall i | 0 <= i < |b| ensures b[i] != n { assert s[|a|].key.Before(s[|a| + 1 + i].key); }
  }

  /** A search key that stands between the two halves of an ascending sequence. */
  ghost predicate Between(a: seq<Node>, k: Span, b: seq<Node>) {
    && (forall i :: 0 <= i < |a| ==> a[i].key.Before(k))
    && (forall i :: 0 <= i < |b| ==> k.Before(b[i].key))
  }

  /** One step of the search: everything on the far side of the node stays on the far side. */
  lemma {:induction false} Narrow(c: Ctx, t: Tree, k: Span)
    requires t.Branch? && Sorted(InOrder(Plug(c, t))) && k.Proper() && Between(Earlier(c), k, Later(c))
    ensures t.n.key.Proper()
    ensures k.Before(t.n.key) ==> Between(Earlier(c), k, Later(InLeft(t.red, t.n, t.r, c)))
    ensures t.n.key.Before(k) ==> Between(Earlier(InRight(t.red, t.l, t.n, c)), k, Later(c))
  {
    PlugOrder(c, t);
    var e, l, r, z := Earlier(c), InOrder(t.l), InOrder(t.r), Later(c);
    assert e + (l + [t.n] + r) + z == (e + l) + [t.n] + (r + z);
    FarSides(e + l, t.n, r + z, k);
    assert [t.n] + (r + z) == [t.n] + r + z && (e + l) + [t.n] == e + (l + [t.n]);
  }

  lemma {:induction false} FarSides(a: seq<Node>, n: Node, b: seq<Node>, k: Span)
    requires Sorted(a + [n] + b) && k.Proper()
    ensures n.key.Proper()
    ensures k.Before(n.key) ==> forall i :: 0 <= i < |[n] + b| ==> k.Before(([n] + b)[i].key)
    ensures n.key.Before(k) ==> forall i :: 0 <= i < |a + [n]| ==> (a + [n])[i].key.Before(k)
  {
    var s := a + [n] + b;
    assert s[|a|] == n;
    if k.Before(n.key) {
      forall i | 0 <= i < |[n] + b| ensures k.Before(([n] + b)[i].key) {
        assert ([n] + b)[i] == s[|a| + i];
        assert i > 0 ==> s[|a|].key.Before(s[|a| + i].key);
      }
    }
    if n.key.Before(k) {
      forall i | 0 <= i < |a + [n]| ensures (a + [n])[i].key.Before(k) {
        assert (a + [n])[i] == s[i];
        assert i < |a| ==> s[i].key.Before(s[|a|].key);
      }
    }
  }

  lemma {:induction false} SortedJoin(a: seq<Node>, n: Node, b: seq<Node>)
    requires Sorted(a + b) && n.key.Proper()
    requires Between(a, n.key, b)
    ensures Sorted(a + [n] + b)
  {
    var s := a + [n] + b;
    forall i, j | 0 <= i < j < |s| && i != |a| && j != |a|
      ensures s[i].key.Before(s[j].key)
    {
      var i' := if i < |a| then i else i - 1;
      var j' := if j < |a| then j else j - 1;
      assert (a + b)[i'].key.Before((a + b)[j'].key);
    }
    forall i | 0 <= i < |s|
      ensures s[i].key.Proper()
    {
      if i != |a| {
        var i' := if i < |a| then i else i - 1;
        assert (a + b)[i'].key.Proper();
      }
    }
  }

  lemma {:induction false} NoOverlap(c: Ctx, k: Span)
    requires Between(Earlier(c), k, Later(c))
    ensures forall n :: n in InOrder(Plug(c, Leaf)) ==> !k.Overlaps(n.key)
  {
    PlugOrder(c, Leaf);
    var s := InOrder(Plug(c, Leaf));
    forall n | n in s ensures !k.Overlaps(n.key) {
      assert n in Earlier(c) || n in Later(c);
    }
  }

  lemma {:induction false} InTree(c: Ctx, t: Tree)
    requires t.Branch?
    ensures t.n in InOrder(Plug(c, t))
  {
    PlugNodes(c, t);
    NodesInOrder(Plug(c, t));
  }

  lemma {:induction false} SameNodes(t: Tree, t': Tree)
    requires InOrder(t) == InOrder(t')
    ensures Nodes(t) == Nodes(t')
  {
    NodesInOrder(t);
    NodesInOrder(t');
  }

  /** Filling the hole with one node adds it to the in-order sequence at that place. */
  lemma {:induction false} Spliced(c: Ctx, n: Node)
    requires Sorted(InOrder(Plug(c, Leaf))) && n.key.Proper() && Between(Earlier(c), n.key, Later(c))
    ensures Nodes(Plug(c, Leaf)) == CtxNodes(c) && n !in CtxNodes(c)
    ensures Nodes(Plug(c, Branch(true, Leaf, n, Leaf))) == CtxNodes(c) + {n}
    ensures var s := InOrder(Plug(c, Leaf)); var k := |Earlier(c)|;
      && k <= |s| && Sorted(With(s, k, n))
      && InOrder(Plug(c, Branch(true, Leaf, n, Leaf))) == With(s, k, n)
    ensures forall x :: x in InOrder(Plug(c, Leaf)) ==> !n.key.Overlaps(x.key)
  {
    NoOverlap(c, n.key);
    NodesInOrder(Plug(c, Leaf));
    PlugNodes(c, Leaf);
    PlugNodes(c, Branch(true, Leaf, n, Leaf));
    SplicedOrder(c, n);
  }

  lemma {:induction false} SplicedOrder(c: Ctx, n: Node)
    requires Sorted(InOrder(Plug(c, Leaf))) && n.key.Proper() && Between(Earlier(c), n.key, Later(c))
    ensures var s := InOrder(Plug(c, Leaf)); var k := |Earlier(c)|;
      && k <= |s| && Sorted(With(s, k, n))
      && InOrder(Plug(c, Branch(true, Leaf, n, Leaf))) == With(s, k, n)
  {
    var s, a, b := InOrder(Plug(c, Leaf)), Earlier(c), Later(c);
    assert s == a + b by { PlugOrder(c, Leaf); }
    assert InOrder(Plug(c, Branch(true, Leaf, n, Leaf))) == a + [n] + b by {
      PlugOrder(c, Branch(true, Leaf, n, Leaf));
    }
    assert s[..|a|] == a && s[|a|..] == b;
    SortedJoin(a, n, b);
  }

  /** Removal's last rotation keeps the order. */
  lemma {:induction false} EndOrder(p: Tree, u: Tree)
    requires p.Branch? && u.Branch?
    ensures p.r.Branch? && InOrder(u) == InOrder(p.r) && u.r.Branch? ==>
              InOrder(Branch(p.red, Branch(false, p.l, p.n, u.l), u.n, u.r.(red := false))) == InOrder(p)
    ensures p.l.Branch? && InOrder(u) == InOrder(p.l) && u.l.Branch? ==>
              InOrder(Branch(p.red, u.l.(red := false), u.n, Branch(false, u.r, p.n, p.r))) == InOrder(p)
  {
    RotationShape(false, p.l, p.n, p.red, u.l, u.n, u.r);
    RotationShape(p.red, u.l, u.n, false, u.r, p.n, p.r);
    assert u.r.Branch? ==> InOrder(u.r.(red := false)) == InOrder(u.r);
    assert u.l.Branch? ==> InOrder(u.l.(red := false)) == InOrder(u.l);
  }

  // ---------------------------------------------------------------- height

  lemma {:induction false} PowAdd(a: nat, b: nat)
    ensures Pow2(a + b) == Pow2(a) * Pow2(b)
  {
    if a != 0 {
      PowAdd(a - 1, b);
      assert 2 * (Pow2(a - 1) * Pow2(b)) == (2 * Pow2(a - 1)) * Pow2(b);
    }
  }

  lemma {:induction false} BlackHeightBounds(t: Tree)
    requires Balanced(t) && NoRedRed(t)
    ensures Pow2(BlackHeight(t)) <= Size(t) + 1
    ensures Height(t) <= 2 * BlackHeight(t) + if IsRed(t) then 1 else 0
  {
    match t
    case Leaf =>
    case Branch(_, l, _, r) => BlackHeightBounds(l); BlackHeightBounds(r);
  }

  lemma {:induction false} PowMono(a: nat, b: nat)
    requires a <= b
    ensures Pow2(a) <= Pow2(b)
  {
    if a < b { PowMono(a, b - 1); }
  }

  /** height <= 2 lg(n + 1), written without logarithms. */
  lemma {:induction false} HeightBound(t: Tree)
    requires RedBlack(t)
    ensures Pow2(Height(t)) <= (Size(t) + 1) * (Size(t) + 1)
  {
    BlackHeightBounds(t);
    var b := BlackHeight(t);
    PowMono(Height(t), b + b);
    PowAdd(b, b);
    MulMono(Pow2(b), Size(t) + 1);
  }

  lemma {:induction false} MulMono(a: nat, b: nat)
    requires a <= b
    ensures a * a <= b * b
  {
    assert a * a <= a * b <= b * b;
  }

  lemma {:induction false} SizeIsLength(t: Tree)
    ensures Size(t) == |InOrder(t)|
  {
    match t
    case Leaf =>
    case Branch(_, l, _, r) => SizeIsLength(l); SizeIsLength(r);
  }

  // ---------------------------------------------------------------- shapes laid out in links

  /** The link fields of one node; a map of them is what the heap holds. */
  datatype Cell = Cell(left: Node?, right: Node?, parent: Node?, red: bool)
  type Links = map<Node, Cell>

  ghost function RootOf(t: Tree): Node? { if t.Leaf? then null else t.n }

  ghost function CtxRoot(c: Ctx, x: Node?): Node? {
    match c
    case Top => x
    case InLeft(_, n, _, up) => CtxRoot(up, n)
    case InRight(_, _, n, up) => CtxRoot(up, n)
  }

  /** The links m lay out the tree t below p. */
  ghost predicate Rep(m: Links, t: Tree, p: Node?) {
    match t
    case Leaf => true
    case Branch(red, l, n, r) =>
      && n in m && m[n] == Cell(RootOf(l), RootOf(r), p, red)
      && Rep(m, l, n) && Rep(m, r, n)
  }

  /** The links m lay out the path c, and x is the pointer in its hole. */
  ghost predicate CtxRep(m: Links, c: Ctx, x: Node?) {
    match c
    case Top => true
    case InLeft(red, n, r, up) =>
      && n in m && m[n] == Cell(x, RootOf(r), HoleParent(up), red)
      && Rep(m, r, n) && CtxRep(m, up, n)
    case InRight(red, l, n, up) =>
      && n in m && m[n] == Cell(RootOf(l), x, HoleParent(up), red)
      && Rep(m, l, n) && CtxRep(m, up, n)
  }

  /** The links m lay out Plug(c, t); the part t is in focus. */
  ghost predicate Focus(m: Links, c: Ctx, t: Tree, root: Node?) {
    && Distinct(t) && CtxDistinct(c) && Nodes(t) !! CtxNodes(c)
    && Rep(m, t, HoleParent(c)) && CtxRep(m, c, RootOf(t))
    && root == CtxRoot(c, RootOf(t))
  }

  ghost predicate Agree(m: Links, m': Links, s: set<Node>) {
    forall n :: n in s && n in m ==> n in m' && m'[n] == m[n]
  }

  lemma {:induction false} Kept(m: Links, m': Links, t: Tree, p: Node?)
    requires Rep(m, t, p) && Agree(m, m', Nodes(t))
    ensures Rep(m', t, p)
  {
    match t
    case Leaf =>
    case Branch(_, l, n, r) => Kept(m, m', l, n); Kept(m, m', r, n);
  }

  /** Only the root's parent link changed. */
  lemma {:induction false} Reparented(m: Links, m': Links, t: Tree, p: Node?, p': Node?)
    requires Rep(m, t, p) && Distinct(t) && Agree(m, m', Nodes(t) - {RootOf(t)})
    requires t.Branch? ==> t.n in m' && m'[t.n] == m[t.n].(parent := p')
    ensures Rep(m', t, p')
  {
    if t.Branch? { Kept(m, m', t.l, t.n); Kept(m, m', t.r, t.n); }
  }

  lemma {:induction false} KeptCtx(m: Links, m': Links, c: Ctx, x: Node?)
    requires CtxRep(m, c, x) && Agree(m, m', CtxNodes(c))
    ensures CtxRep(m', c, x)
  {
    match c
    case Top =>
    case InLeft(_, n, t, up) => Kept(m, m', t, n); KeptCtx(m, m', up, n);
    case InRight(_, t, n, up) => Kept(m, m', t, n); KeptCtx(m, m', up, n);
  }

  /** What the parent's cell becomes when the pointer in the hole changes to x. */
  ghost function Hang(c: Ctx, cell: Cell, x: Node?): Cell
    requires !c.Top?
  {
    if c.InLeft? then cell.(left := x) else cell.(right := x)
  }

  lemma {:induction false} Rehung(m: Links, m': Links, c: Ctx, x: Node?, x': Node?)
    requires CtxRep(m, c, x) && CtxDistinct(c) && Agree(m, m', CtxNodes(c) - {HoleParent(c)})
    requires !c.Top? ==> c.n in m' && m'[c.n] == Hang(c, m[c.n], x')
    ensures CtxRep(m', c, x')
  {
    match c
    case Top =>
    case InLeft(_, n, t, up) => Kept(m, m', t, n); KeptCtx(m, m', up, n);
    case InRight(_, t, n, up) => Kept(m, m', t, n); KeptCtx(m, m', up, n);
  }

  lemma {:induction false} RepKeys(m: Links, t: Tree, p: Node?)
    requires Rep(m, t, p)
    ensures Nodes(t) <= m.Keys
  {
    if t.Branch? { RepKeys(m, t.l, t.n); RepKeys(m, t.r, t.n); }
  }

  lemma {:induction false} CtxKeys(m: Links, c: Ctx, x: Node?)
    requires CtxRep(m, c, x)
    ensures CtxNodes(c) <= m.Keys
  {
    if !c.Top? { RepKeys(m, Sibling(c), c.n); CtxKeys(m, c.up, c.n); }
  }

  lemma {:induction false} GoUp(m: Links, c: Ctx, t: Tree, root: Node?)
    requires Focus(m, c, t, root) && !c.Top?
    ensures Focus(m, c.up, Fold(c, t), root)
  {
  }

  /** What the C code can read around the focus. */
  lemma {:induction false} Around(m: Links, c: Ctx, t: Tree, root: Node?)
    requires Focus(m, c, t, root)
    ensures t.Branch? ==> t.n in m && m[t.n] == Cell(RootOf(t.l), RootOf(t.r), HoleParent(c), t.red)
    ensures t.Branch? && t.l.Branch? ==> t.l.n in m && m[t.l.n].red == t.l.red && m[t.l.n].parent == t.n
    ensures t.Branch? && t.r.Branch? ==> t.r.n in m && m[t.r.n].red == t.r.red && m[t.r.n].parent == t.n
    ensures !c.Top? ==> c.n in m && m[c.n].red == c.red && m[c.n].parent == HoleParent(c.up)
    ensures !c.Top? && (t.Branch? || Sibling(c).Branch?) ==> (m[c.n].left == RootOf(t) <==> c.InLeft?)
    ensures !c.Top? && (t.Branch? || Sibling(c).Branch?) ==> (m[c.n].right == RootOf(t) <==> c.InRight?)
    ensures !c.Top? ==> root != RootOf(t)
  {
    assert t.Branch? ==> Rep(m, t.l, t.n) && Rep(m, t.r, t.n);
    if !c.Top? {
      var u := Sibling(c);
      assert u.Branch? ==> u.n in Nodes(u);
      RootInCtx(c, RootOf(t));
    }
  }

  /** The fields of the focused node. */
  lemma {:induction false} CellView(m: Links, c: Ctx, t: Tree, root: Node?)
    requires Focus(m, c, t, root) && t.Branch?
    ensures t.n in m && m[t.n] == Cell(RootOf(t.l), RootOf(t.r), HoleParent(c), t.red)
  {
  }

  /** The parent and its colour. */
  lemma {:induction false} ParentView(m: Links, c: Ctx, t: Tree, root: Node?)
    requires Focus(m, c, t, root) && t.Branch?
    ensures t.n in m && m[t.n].parent == HoleParent(c) && (!c.Top? ==> c.n in m && m[c.n].red == c.red)
  {
    Around(m, c, t, root);
  }

  /** The parent and the grandparent, where the parent is red. */
  lemma {:induction false} GrandView(m: Links, c: Ctx, t: Tree, root: Node?, h: nat)
    requires Focus(m, c, t, root) && t.Branch? && Inserting(c, t, h) && CtxRed(c)
    ensures !c.up.Top? && c.n in m && m[c.n].parent == c.up.n && c.up.n in m && (m[c.up.n].left == c.n <==> c.up.InLeft?)
  {
    RedUncle(c, t, h);
    Around(m, c, t, root);
    GoUp(m, c, t, root);
    Around(m, c.up, Fold(c, t), root);
  }

  /** The three nodes that a red uncle recolours. */
  lemma {:induction false} UncleSite(m: Links, c: Ctx, t: Tree, root: Node?)
    requires Focus(m, c, t, root) && !c.Top? && !c.up.Top? && Sibling(c.up).Branch?
    ensures Sibling(c.up).n in m && c.n in m && c.up.n in m
  {
    UncleView(m, c, t, root);
    Around(m, c, t, root);
  }

  lemma {:induction false} RootInCtx(c: Ctx, x: Node?)
    requires !c.Top?
    ensures CtxRoot(c, x) != null && CtxRoot(c, x) in CtxNodes(c)
  {
    if !c.up.Top? { RootInCtx(c.up, c.n); }
  }

  lemma {:induction false} GoLeft(m: Links, c: Ctx, t: Tree, root: Node?)
    requires Focus(m, c, t, root) && t.Branch?
    ensures Focus(m, InLeft(t.red, t.n, t.r, c), t.l, root)
  {
  }

  lemma {:induction false} GoRight(m: Links, c: Ctx, t: Tree, root: Node?)
    requires Focus(m, c, t, root) && t.Branch?
    ensures Focus(m, InRight(t.red, t.l, t.n, c), t.r, root)
  {
  }

  lemma {:induction false} GoTop(m: Links, c: Ctx, t: Tree, root: Node?)
    requires Focus(m, c, t, root)
    ensures Focus(m, Top, Plug(c, t), root)
  {
    match c
    case Top =>
    case InLeft(red, n, r, up) => GoUp(m, c, t, root); GoTop(m, up, Branch(red, t, n, r), root);
    case InRight(red, l, n, up) => GoUp(m, c, t, root); GoTop(m, up, Branch(red, l, n, t), root);
  }

  /** What the C code can read of the focus's sibling and nephews. */
  lemma {:induction false} SiblingView(m: Links, c: Ctx, t: Tree, root: Node?)
    requires Focus(m, c, t, root) && !c.Top? && Sibling(c).Branch?
    ensures var u := Sibling(c);
      && c.n in m && u.n in m && u.n == (if c.InLeft? then m[c.n].right else m[c.n].left)
      && m[u.n].left == RootOf(u.l) && m[u.n].right == RootOf(u.r) && m[u.n].red == u.red
      && (u.l.Branch? ==> u.l.n in m && m[u.l.n].red == u.l.red)
      && (u.r.Branch? ==> u.r.n in m && m[u.r.n].red == u.r.red)
  {
    var u := Sibling(c);
    assert Rep(m, u, c.n);
    assert Rep(m, u.l, u.n) && Rep(m, u.r, u.n);
  }

  /** What the C code can read of the focus's uncle. */
  lemma {:induction false} UncleView(m: Links, c: Ctx, t: Tree, root: Node?)
    requires Focus(m, c, t, root) && !c.Top? && !c.up.Top?
    ensures var u := Sibling(c.up);
      && c.up.n in m && RootOf(u) == (if c.up.InLeft? then m[c.up.n].right else m[c.up.n].left)
      && (u.Branch? ==> u.n in m && m[u.n].red == u.red)
  {
    var u := Sibling(c.up);
    assert CtxRep(m, c.up, c.n) && Rep(m, u, c.up.n);
  }

  /** The focus is well shaded, so the whole tree is. */
  lemma {:induction false} Whole(m: Links, c: Ctx, t: Tree, root: Node?, h: nat)
    requires Focus(m, c, t, root) && t.Branch? && Shaded(t, h) && CtxShaded(c, h)
    requires !(IsRed(t) && (CtxRed(c) || c.Top?))
    ensures var w := Plug(c, t); w.Branch? && Focus(m, Top, w, root) && RedBlack(w)
  {
    PlugShaded(c, t, h);
    GoTop(m, c, t, root);
    SameShape(c, t);
  }

  /** The path to a node of the tree. */
  ghost function PathTo(c: Ctx, t: Tree, n: Node): (r: (Ctx, Tree))
    requires n in Nodes(t)
    ensures r.1.Branch? && r.1.n == n && Plug(r.0, r.1) == Plug(c, t)
    decreases t
  {
    if t.n == n then (c, t)
    else if n in Nodes(t.l) then PathTo(InLeft(t.red, t.n, t.r, c), t.l, n)
    else PathTo(InRight(t.red, t.l, t.n, c), t.r, n)
  }

  lemma {:induction false} GoTo(m: Links, c: Ctx, t: Tree, root: Node?, n: Node)
    requires Focus(m, c, t, root) && n in Nodes(t)
    ensures var r := PathTo(c, t, n); Focus(m, r.0, r.1, root)
    decreases t
  {
    if t.n == n {
    } else if n in Nodes(t.l) {
      GoLeft(m, c, t, root);
      GoTo(m, InLeft(t.red, t.n, t.r, c), t.l, root, n);
    } else {
      GoRight(m, c, t, root);
      GoTo(m, InRight(t.red, t.l, t.n, c), t.r, root, n);
    }
  }

  /** Colours along a path, read off a well-shaded tree. */
  lemma {:induction false} PathShaded(c: Ctx, t: Tree, n: Node)
    requires n in Nodes(t) && OnPath(c, t)
    ensures var r := PathTo(c, t, n); OnPath(r.0, r.1)
    decreases t
  {
    if t.n == n {
    } else if n in Nodes(t.l) {
      PathShaded(InLeft(t.red, t.n, t.r, c), t.l, n);
    } else {
      PathShaded(InRight(t.red, t.l, t.n, c), t.r, n);
    }
  }

  // ---------------------------------------------------------------- what the link updates do

  /** The links after x took the place of elm below p. */
  ghost function Hoisted(m: Links, p: Node?, elm: Node, x: Node?): Links
    requires (x != null ==> x in m) && (p != null ==> p in m)
  {
    var m1 := if x == null then m else m[x := m[x].(parent := p)];
    if p == null then m1
    else m1[p := if m1[p].left == elm then m1[p].(left := x) else m1[p].(right := x)]
  }

  ghost function TurnedLeft(m: Links, elm: Node): Links
    requires elm in m && m[elm].right != null && m[elm].right in m
    requires var b, p := m[m[elm].right].left, m[elm].parent; (b != null ==> b in m) && (p != null ==> p in m)
  {
    var tmp := m[elm].right;
    var b := m[tmp].left;
    var m1 := m[elm := m[elm].(right := b)];
    var m2 := if b == null then m1 else m1[b := m1[b].(parent := elm)];
    var m3 := Hoisted(m2, m[elm].parent, elm, tmp);
    var m4 := m3[tmp := m3[tmp].(left := elm)];
    m4[elm := m4[elm].(parent := tmp)]
  }

  ghost function TurnedRight(m: Links, elm: Node): Links
    requires elm in m && m[elm].left != null && m[elm].left in m
    requires var b, p := m[m[elm].left].right, m[elm].parent; (b != null ==> b in m) && (p != null ==> p in m)
  {
    var tmp := m[elm].left;
    var b := m[tmp].right;
    var m1 := m[elm := m[elm].(left := b)];
    var m2 := if b == null then m1 else m1[b := m1[b].(parent := elm)];
    var m3 := Hoisted(m2, m[elm].parent, elm, tmp);
    var m4 := m3[tmp := m3[tmp].(right := elm)];
    m4[elm := m4[elm].(parent := tmp)]
  }

  ghost predicate Rotated(m: Links, m': Links, c: Ctx, top: Node, low: Node, b: Tree)
  {
    && (b.Branch? ==> b.n in m && b.n in m' && m'[b.n] == m[b.n].(parent := low))
    && (!c.Top? ==> c.n in m && c.n in m' && m'[c.n] == Hang(c, m[c.n], top))
    && Agree(m, m', m.Keys - {top, low, RootOf(b), HoleParent(c)})
  }

  /** The parts a rotation does not look into keep their layout. */
  lemma {:induction false} RotatedParts(m: Links, m': Links, c: Ctx, top: Node, low: Node, a: Tree, ap: Node, b: Tree, d: Tree, dp: Node)
    requires Rep(m, a, ap) && Rep(m, b, top) && Rep(m, d, dp) && CtxRep(m, c, low)
    requires Distinct(b) && CtxDistinct(c)
    requires Nodes(a) !! Nodes(b) && Nodes(a) !! Nodes(d) && Nodes(b) !! Nodes(d)
    requires Nodes(a) !! CtxNodes(c) && Nodes(b) !! CtxNodes(c) && Nodes(d) !! CtxNodes(c)
    requires {low, top} !! Nodes(a) && {low, top} !! Nodes(b) && {low, top} !! Nodes(d) && {low, top} !! CtxNodes(c)
    requires Rotated(m, m', c, top, low, b)
    ensures Rep(m', a, ap) && Rep(m', b, low) && Rep(m', d, dp) && CtxRep(m', c, top)
  {
    assert Rep(m', a, ap) by { Kept(m, m', a, ap); }
    assert Rep(m', d, dp) by { Kept(m, m', d, dp); }
    assert Rep(m', b, low) by { Reparented(m, m', b, top, low); }
    assert CtxRep(m', c, top) by { Rehung(m, m', c, low, top); }
  }

  /** The nodes whose links a left rotation at the focus reads and writes. */
  lemma {:induction false} RotationSite(m: Links, c: Ctx, t: Tree, root: Node?, left: bool)
    requires Focus(m, c, t, root) && t.Branch? && (if left then t.r else t.l).Branch?
    ensures var u := if left then t.r else t.l; var b := if left then u.l else u.r;
            && t.n in m && u.n in m && t.n != u.n
            && m[t.n] == Cell(RootOf(t.l), RootOf(t.r), HoleParent(c), t.red)
            && m[u.n] == Cell(RootOf(u.l), RootOf(u.r), t.n, u.red)
            && (b.Branch? ==> b.n in m && b.n !in {t.n, u.n, HoleParent(c)})
            && (!c.Top? ==> c.n in m && c.n !in {t.n, u.n} && (m[c.n].left == t.n <==> c.InLeft?))
  {
    var u := if left then t.r else t.l;
    var b := if left then u.l else u.r;
    assert u.n in Nodes(u) && Nodes(u) <= Nodes(t) && Rep(m, u, t.n) && Distinct(u);
    assert b.Branch? ==> b.n in Nodes(b) && Nodes(b) <= Nodes(u) && Rep(m, b, u.n);
    assert c.InRight? && c.l.Branch? ==> c.l.n in CtxNodes(c);
  }

  lemma {:induction false} Painted(m: Links, c: Ctx, t: Tree, root: Node?, red: bool)
    requires Focus(m, c, t, root) && t.Branch?
    ensures t.n in m && Focus(m[t.n := m[t.n].(red := red)], c, t.(red := red), root)
  {
    var m' := m[t.n := m[t.n].(red := red)];
    Kept(m, m', t.l, t.n);
    Kept(m, m', t.r, t.n);
    KeptCtx(m, m', c, t.n);
  }

  lemma {:induction false} Settled(m: Links, c: Ctx, t: Tree, h: nat, root: Node?)
    requires Focus(m, c, t, root)
    requires (c.Top? && RedBlack(t)) || (Removing(c, t, h) && (IsRed(t) || c.Top?))
    ensures t.Leaf? ==> Focus(m, Top, Plug(c, Blacken(t)), root)
    ensures t.Branch? ==> t.n in m && Focus(m[t.n := m[t.n].(red := false)], Top, Plug(c, Blacken(t)), root)
    ensures RedBlack(Plug(c, Blacken(t)))
  {
    if t.Leaf? {
      GoTop(m, c, t, root);
    } else {
      Painted(m, c, t, root, false);
      GoTop(m[t.n := m[t.n].(red := false)], c, Blacken(t), root);
    }
    if !c.Top? {
      PlugShaded(c, Blacken(t), h + 1);
    }
  }

  lemma {:induction false} PaintedL(m: Links, c: Ctx, t: Tree, root: Node?, red: bool)
    requires Focus(m, c, t, root) && t.Branch? && t.l.Branch?
    ensures t.l.n in m && Focus(m[t.l.n := m[t.l.n].(red := red)], c, t.(l := t.l.(red := red)), root)
  {
    var c', u := InLeft(t.red, t.n, t.r, c), t.l;
    GoLeft(m, c, t, root);
    Painted(m, c', u, root, red);
    GoUp(m[u.n := m[u.n].(red := red)], c', u.(red := red), root);
  }

  lemma {:induction false} PaintedR(m: Links, c: Ctx, t: Tree, root: Node?, red: bool)
    requires Focus(m, c, t, root) && t.Branch? && t.r.Branch?
    ensures t.r.n in m && Focus(m[t.r.n := m[t.r.n].(red := red)], c, t.(r := t.r.(red := red)), root)
  {
    var c', u := InRight(t.red, t.l, t.n, c), t.r;
    GoRight(m, c, t, root);
    Painted(m, c', u, root, red);
    GoUp(m[u.n := m[u.n].(red := red)], c', u.(red := red), root);
  }

  ghost function Dye(m: Links, n: Node, red: bool): Links
    requires n in m
  {
    m[n := m[n].(red := red)]
  }

  /** Both children turn black and the root turns red; the links do not depend on the order. */
  lemma {:induction false} PaintedTrio(m: Links, c: Ctx, t: Tree, root: Node?)
    requires Focus(m, c, t, root) && t.Branch? && t.l.Branch? && t.r.Branch?
    ensures t.n in m && t.l.n in m && t.r.n in m
    ensures var t' := Branch(true, t.l.(red := false), t.n, t.r.(red := false));
      && Focus(Dye(Dye(Dye(m, t.l.n, false), t.r.n, false), t.n, true), c, t', root)
      && Focus(Dye(Dye(Dye(m, t.r.n, false), t.l.n, false), t.n, true), c, t', root)
  {
    RotationSite(m, c, t, root, true);
    RotationSite(m, c, t, root, false);
    PaintedL(m, c, t, root, false);
    var m1, t1 := Dye(m, t.l.n, false), t.(l := t.l.(red := false));
    PaintedR(m1, c, t1, root, false);
    Painted(Dye(m1, t.r.n, false), c, t1.(r := t.r.(red := false)), root, true);
    assert t.l.n in Nodes(t.l) && t.r.n in Nodes(t.r);
    assert Dye(m1, t.r.n, false) == Dye(Dye(m, t.r.n, false), t.l.n, false);
  }

  /** The grandparent's subtree after the red uncle case. */
  ghost function Recolored(c: Ctx, t: Tree): Tree
    requires !c.Top? && !c.up.Top? && Sibling(c.up).Branch?
  {
    var g := Fold(c.up, Fold(c, t));
    Branch(true, g.l.(red := false), g.n, g.r.(red := false))
  }

  lemma {:induction false} RecoloredFocus(m: Links, c: Ctx, t: Tree, root: Node?, h: nat, m': Links)
    requires Focus(m, c, t, root) && Inserting(c, t, h) && CtxRed(c) && !c.up.Top? && IsRed(Sibling(c.up))
    requires Sibling(c.up).n in m && c.n in m && c.up.n in m
    requires m' == Dye(Dye(Dye(m, Sibling(c.up).n, false), c.n, false), c.up.n, true)
    ensures Focus(m', c.up.up, Recolored(c, t), root)
    ensures Inserting(c.up.up, Recolored(c, t), h + 1)
    ensures InOrder(Plug(c.up.up, Recolored(c, t))) == InOrder(Plug(c, t))
  {
    var p := Fold(c, t);
    var g := Fold(c.up, p);
    GoUp(m, c, t, root);
    GoUp(m, c.up, p, root);
    PaintedTrio(m, c.up.up, g, root);
    RedUncle(c, t, h);
    PlugSame(c.up.up, g, Recolored(c, t));
  }

  /** RB_SET_BLACKRED(child, root) */
  lemma {:induction false} PaintedPairL(m: Links, c: Ctx, t: Tree, root: Node?)
    requires Focus(m, c, t, root) && t.Branch? && t.l.Branch?
    ensures t.n in m && t.l.n in m
    ensures Focus(Dye(Dye(m, t.l.n, false), t.n, true), c, Branch(true, t.l.(red := false), t.n, t.r), root)
  {
    RotationSite(m, c, t, root, false);
    PaintedL(m, c, t, root, false);
    Painted(Dye(m, t.l.n, false), c, t.(l := t.l.(red := false)), root, true);
  }

  lemma {:induction false} PaintedPairR(m: Links, c: Ctx, t: Tree, root: Node?)
    requires Focus(m, c, t, root) && t.Branch? && t.r.Branch?
    ensures t.n in m && t.r.n in m
    ensures Focus(Dye(Dye(m, t.r.n, false), t.n, true), c, Branch(true, t.l, t.n, t.r.(red := false)), root)
  {
    RotationSite(m, c, t, root, true);
    PaintedR(m, c, t, root, false);
    Painted(Dye(m, t.r.n, false), c, t.(r := t.r.(red := false)), root, true);
  }

  /** The colours before removal's last rotation: sibling takes the parent's, parent and outer nephew turn black. */
  lemma {:induction false} PaintedLastLeft(m: Links, c: Ctx, p: Tree, root: Node?)
    requires Focus(m, c, p, root) && p.Branch? && p.r.Branch? && p.r.r.Branch?
    ensures p.n in m && p.r.n in m && p.r.r.n in m
    ensures Focus(Dye(Dye(Dye(m, p.r.n, p.red), p.n, false), p.r.r.n, false), c,
              Branch(false, p.l, p.n, Branch(p.red, p.r.l, p.r.n, p.r.r.(red := false))), root)
  {
    Around(m, c, p, root);
    PaintedR(m, c, p, root, p.red);
    var m1, p1 := Dye(m, p.r.n, p.red), p.(r := p.r.(red := p.red));
    Painted(m1, c, p1, root, false);
    var m2, p2 := Dye(m1, p.n, false), p1.(red := false);
    var c', u := InRight(false, p.l, p.n, c), p2.r;
    GoRight(m2, c, p2, root);
    PaintedR(m2, c', u, root, false);
    GoUp(Dye(m2, p.r.r.n, false), c', u.(r := u.r.(red := false)), root);
  }

  lemma {:induction false} PaintedLastRight(m: Links, c: Ctx, p: Tree, root: Node?)
    requires Focus(m, c, p, root) && p.Branch? && p.l.Branch? && p.l.l.Branch?
    ensures p.n in m && p.l.n in m && p.l.l.n in m
    ensures Focus(Dye(Dye(Dye(m, p.l.n, p.red), p.n, false), p.l.l.n, false), c,
              Branch(false, Branch(p.red, p.l.l.(red := false), p.l.n, p.l.r), p.n, p.r), root)
  {
    Around(m, c, p, root);
    PaintedL(m, c, p, root, p.red);
    var m1, p1 := Dye(m, p.l.n, p.red), p.(l := p.l.(red := p.red));
    Painted(m1, c, p1, root, false);
    var m2, p2 := Dye(m1, p.n, false), p1.(red := false);
    var c', u := InLeft(false, p.n, p.r, c), p2.l;
    GoLeft(m2, c, p2, root);
    PaintedL(m2, c', u, root, false);
    GoUp(Dye(m2, p.l.l.n, false), c', u.(l := u.l.(red := false)), root);
  }

  /** A fresh red leaf node in the hole. */
  ghost function Attached(m: Links, p: Node?, onLeft: bool, n: Node): Links
    requires p != null ==> p in m && p != n
  {
    var m1 := m[n := Cell(null, null, p, true)];
    if p == null then m1 else m1[p := if onLeft then m1[p].(left := n) else m1[p].(right := n)]
  }

  lemma {:induction false} AttachedFocus(m: Links, c: Ctx, root: Node?, n: Node)
    requires Focus(m, c, Leaf, root) && n !in CtxNodes(c)
    ensures HoleParent(c) != null ==> HoleParent(c) in m && HoleParent(c) != n
    ensures Focus(Attached(m, HoleParent(c), c.InLeft?, n), c, Branch(true, Leaf, n, Leaf), CtxRoot(c, n))
  {
    Rehung(m, Attached(m, HoleParent(c), c.InLeft?, n), c, null, n);
  }

  lemma {:induction false} TurnedLeftIsRotated(m: Links, c: Ctx, t: Tree, root: Node?)
    requires Focus(m, c, t, root) && t.Branch? && t.r.Branch?
    requires RootOf(t.r.l) != null ==> RootOf(t.r.l) in m
    requires HoleParent(c) != null ==> HoleParent(c) in m
    requires t.n in m && t.r.n in m && m[t.n].right == t.r.n && m[t.r.n].left == RootOf(t.r.l) && m[t.n].parent == HoleParent(c)
    ensures var m' := TurnedLeft(m, t.n);
      && Rotated(m, m', c, t.r.n, t.n, t.r.l)
      && t.n in m' && m'[t.n] == Cell(RootOf(t.l), RootOf(t.r.l), t.r.n, t.red)
      && t.r.n in m' && m'[t.r.n] == Cell(t.n, RootOf(t.r.r), HoleParent(c), t.r.red)
  {
    RotationSite(m, c, t, root, true);
  }

  lemma {:induction false} TurnedRightIsRotated(m: Links, c: Ctx, t: Tree, root: Node?)
    requires Focus(m, c, t, root) && t.Branch? && t.l.Branch?
    requires RootOf(t.l.r) != null ==> RootOf(t.l.r) in m
    requires HoleParent(c) != null ==> HoleParent(c) in m
    requires t.n in m && t.l.n in m && m[t.n].left == t.l.n && m[t.l.n].right == RootOf(t.l.r) && m[t.n].parent == HoleParent(c)
    ensures var m' := TurnedRight(m, t.n);
      && Rotated(m, m', c, t.l.n, t.n, t.l.r)
      && t.n in m' && m'[t.n] == Cell(RootOf(t.l.r), RootOf(t.r), t.l.n, t.red)
      && t.l.n in m' && m'[t.l.n] == Cell(RootOf(t.l.l), t.n, HoleParent(c), t.l.red)
  {
    RotationSite(m, c, t, root, false);
  }

  lemma {:induction false} RotatedLeft(m: Links, c: Ctx, t: Tree, root: Node?, m': Links)
    requires Focus(m, c, t, root) && t.Branch? && t.r.Branch?
    requires RootOf(t.r.l) != null ==> RootOf(t.r.l) in m
    requires HoleParent(c) != null ==> HoleParent(c) in m
    requires t.n in m && t.r.n in m && m[t.n].right == t.r.n && m[t.r.n].left == RootOf(t.r.l) && m[t.n].parent == HoleParent(c)
    requires m' == TurnedLeft(m, t.n)
    ensures Focus(m', c, Branch(t.r.red, Branch(t.red, t.l, t.n, t.r.l), t.r.n, t.r.r), CtxRoot(c, t.r.n))
  {
    var a, b, d := t.l, t.r.l, t.r.r;
    TurnedLeftIsRotated(m, c, t, root);
    assert Nodes(t.r) == Nodes(b) + {t.r.n} + Nodes(d) && Distinct(t.r) && Rep(m, t.r, t.n);
    RotatedParts(m, m', c, t.r.n, t.n, a, t.n, b, d, t.r.n);
    assert Rep(m', Branch(t.red, a, t.n, b), t.r.n);
    RotationShape(t.red, a, t.n, t.r.red, b, t.r.n, d);
  }

  lemma {:induction false} RotatedRight(m: Links, c: Ctx, t: Tree, root: Node?, m': Links)
    requires Focus(m, c, t, root) && t.Branch? && t.l.Branch?
    requires RootOf(t.l.r) != null ==> RootOf(t.l.r) in m
    requires HoleParent(c) != null ==> HoleParent(c) in m
    requires t.n in m && t.l.n in m && m[t.n].left == t.l.n && m[t.l.n].right == RootOf(t.l.r) && m[t.n].parent == HoleParent(c)
    requires m' == TurnedRight(m, t.n)
    ensures Focus(m', c, Branch(t.l.red, t.l.l, t.l.n, Branch(t.red, t.l.r, t.n, t.r)), CtxRoot(c, t.l.n))
  {
    var a, b, d := t.l.l, t.l.r, t.r;
    TurnedRightIsRotated(m, c, t, root);
    assert Nodes(t.l) == Nodes(a) + {t.l.n} + Nodes(b) && Distinct(t.l) && Rep(m, t.l, t.n);
    RotatedParts(m, m', c, t.l.n, t.n, a, t.l.n, b, d, t.n);
    assert Rep(m', Branch(t.red, b, t.n, d), t.l.n);
    RotationShape(t.l.red, a, t.l.n, t.red, b, t.n, d);
  }

  // ---------------------------------------------------------------- taking a node out

  ghost function OnlyChild(t: Tree): Tree
    requires t.Branch?
  {
    if t.l.Leaf? then t.r else t.l
  }

  /** The focused node has at most one child, which takes its place. */
  lemma {:induction false} Unlinked(m: Links, c: Ctx, t: Tree, root: Node?)
    requires Focus(m, c, t, root) && t.Branch? && (t.l.Leaf? || t.r.Leaf?)
    ensures var x, p := RootOf(OnlyChild(t)), HoleParent(c);
      && t.n in m && m[t.n].parent == p
      && (x != null ==> x in m && x != t.n && x != p) && (p != null ==> p in m && p != t.n)
      && Focus(Hoisted(m, p, t.n, x) - {t.n}, c, OnlyChild(t), CtxRoot(c, x))
  {
    var u := OnlyChild(t);
    var x, p := RootOf(u), HoleParent(c);
    Around(m, c, t, root);
    assert Distinct(u) && Nodes(u) <= Nodes(t) && t.n !in Nodes(u) && Rep(m, u, t.n);
    assert u.Branch? ==> u.n in Nodes(u);
    var m' := Hoisted(m, p, t.n, x) - {t.n};
    Reparented(m, m', u, t.n, p);
    Rehung(m, m', c, t.n, x);
  }

  ghost function Repointed(m: Links, p: Node?, gone: Node, s: Node): Links
    requires p != null ==> p in m
  {
    if p == null then m else m[p := if m[p].left == gone then m[p].(left := s) else m[p].(right := s)]
  }

  ghost function Fostered(m: Links, l: Node, r: Node?, s: Node): Links
    requires l in m && (r != null ==> r in m)
  {
    var m' := m[l := m[l].(parent := s)];
    if r == null then m' else m'[r := m'[r].(parent := s)]
  }

  /** The links after s took over the place and the fields of gone. */
  ghost function Swapped(m: Links, gone: Node, s: Node): Links
    requires gone in m
    requires var z := m[gone]; (z.parent != null ==> z.parent in m) && z.left != null && z.left in m && (z.right != null ==> z.right in m)
  {
    var z := m[gone];
    Fostered(Repointed(m[s := z], z.parent, gone, s), z.left, z.right, s) - {gone}
  }

  lemma {:induction false} SwappedFocus(m: Links, c: Ctx, u: Tree, root: Node?, s: Node)
    requires Focus(m, c, u, root) && u.Branch? && u.l.Branch? && s !in Nodes(u) && s !in CtxNodes(c)
    ensures var gone, p := u.n, HoleParent(c);
      && gone in m && m[gone] == Cell(u.l.n, RootOf(u.r), p, u.red)
      && u.l.n in m && u.l.n != gone && (u.r.Branch? ==> u.r.n in m && u.r.n !in {gone, u.l.n})
      && (p != null ==> p in m && p !in {gone, u.l.n, RootOf(u.r)})
      && Focus(Swapped(m, gone, s), c, u.(n := s), CtxRoot(c, s))
  {
    SwapSite(m, c, u, root);
    SwapCells(m, c, u, root, s);
    SwapHolds(m, Swapped(m, u.n, s), c, u, root, s);
  }

  /** What a swap leaves in the links. */
  ghost predicate SwapDone(m: Links, m': Links, c: Ctx, u: Tree, s: Node)
    requires u.Branch? && u.n in m
  {
    && s in m' && m'[s] == m[u.n]
    && (u.l.Branch? ==> u.l.n in m && u.l.n in m' && m'[u.l.n] == m[u.l.n].(parent := s))
    && (u.r.Branch? ==> u.r.n in m && u.r.n in m' && m'[u.r.n] == m[u.r.n].(parent := s))
    && (!c.Top? ==> c.n in m && c.n in m' && m'[c.n] == Hang(c, m[c.n], s))
    && Agree(m, m', Nodes(u.l) - {RootOf(u.l)}) && Agree(m, m', Nodes(u.r) - {RootOf(u.r)})
    && Agree(m, m', CtxNodes(c) - {HoleParent(c)})
  }

  lemma {:induction false} SwapHolds(m: Links, m': Links, c: Ctx, u: Tree, root: Node?, s: Node)
    requires Focus(m, c, u, root) && u.Branch? && s !in Nodes(u) && s !in CtxNodes(c) && SwapDone(m, m', c, u, s)
    ensures Focus(m', c, u.(n := s), CtxRoot(c, s))
  {
    Reparented(m, m', u.l, u.n, s);
    Reparented(m, m', u.r, u.n, s);
    Rehung(m, m', c, u.n, s);
  }

  lemma {:induction false} SwapCells(m: Links, c: Ctx, u: Tree, root: Node?, s: Node)
    requires Focus(m, c, u, root) && u.Branch? && u.l.Branch? && s !in Nodes(u) && s !in CtxNodes(c)
    requires var gone, p := u.n, HoleParent(c);
      && gone in m && m[gone] == Cell(u.l.n, RootOf(u.r), p, u.red)
      && u.l.n in m && u.l.n != gone && (u.r.Branch? ==> u.r.n in m && u.r.n !in {gone, u.l.n})
      && (p != null ==> p in m && p !in {gone, u.l.n, RootOf(u.r)})
    ensures SwapDone(m, Swapped(m, u.n, s), c, u, s)
  {
    assert u.l.n in Nodes(u.l) && (u.r.Branch? ==> u.r.n in Nodes(u.r));
  }

  /** The nodes around one with a left child. */
  lemma {:induction false} SwapSite(m: Links, c: Ctx, u: Tree, root: Node?)
    requires Focus(m, c, u, root) && u.Branch? && u.l.Branch?
    ensures var gone, p := u.n, HoleParent(c);
      && gone in m && m[gone] == Cell(u.l.n, RootOf(u.r), p, u.red)
      && u.l.n in m && u.l.n != gone && (u.r.Branch? ==> u.r.n in m && u.r.n !in {gone, u.l.n})
      && (p != null ==> p in m && p !in {gone, u.l.n, RootOf(u.r)})
  {
    Around(m, c, u, root);
    assert u.l.n in Nodes(u.l) && (u.r.Branch? ==> u.r.n in Nodes(u.r));
  }

  /** Path lc continued by path b. */
  ghost function Onto(lc: Ctx, b: Ctx): Ctx {
    match lc
    case Top => b
    case InLeft(red, n, r, up) => InLeft(red, n, r, Onto(up, b))
    case InRight(red, l, n, up) => InRight(red, l, n, Onto(up, b))
  }

  lemma {:induction false} GoOut(m: Links, lc: Ctx, b: Ctx, t: Tree, root: Node?)
    requires Focus(m, Onto(lc, b), t, root)
    ensures Focus(m, b, Plug(lc, t), root)
  {
    if !lc.Top? {
      GoUp(m, Onto(lc, b), t, root);
      GoOut(m, lc.up, b, Fold(lc, t), root);
    }
  }

  lemma {:induction false} GoIn(m: Links, lc: Ctx, b: Ctx, t: Tree, root: Node?)
    requires Focus(m, b, Plug(lc, t), root)
    ensures Focus(m, Onto(lc, b), t, root)
  {
    if !lc.Top? {
      GoIn(m, lc.up, b, Fold(lc, t), root);
      if lc.InLeft? {
        GoLeft(m, Onto(lc.up, b), Fold(lc, t), root);
      } else {
        GoRight(m, Onto(lc.up, b), Fold(lc, t), root);
      }
    }
  }

  lemma {:induction false} OntoParent(lc: Ctx, b: Ctx)
    requires !b.Top? && CtxDistinct(Onto(lc, b))
    ensures HoleParent(Onto(lc, b)) == b.n <==> lc.Top?
  {
    if !lc.Top? { OntoHas(lc.up, b); }
  }

  /** The parent of the hole of lc, over either of two contexts. */
  lemma {:induction false} OntoNext(lc: Ctx, b: Ctx, b': Ctx)
    requires !b.Top? && !b'.Top?
    ensures HoleParent(Onto(lc, b')) == if lc.Top? then b'.n else HoleParent(Onto(lc, b))
  {
  }

  lemma {:induction false} OntoHas(lc: Ctx, b: Ctx)
    requires !b.Top?
    ensures b.n in CtxNodes(Onto(lc, b))
  {
    if !lc.Top? { OntoHas(lc.up, b); }
  }

  /** Shading does not depend on which node carries a colour. */
  lemma {:induction false} OntoShaded(lc: Ctx, b: Ctx, b': Ctx, h: nat)
    requires b.InRight? && b'.InRight? && b'.red == b.red && b'.l == b.l && b'.up == b.up
    ensures CtxShaded(Onto(lc, b), h) ==> CtxShaded(Onto(lc, b'), h)
    ensures CtxRed(Onto(lc, b)) == CtxRed(Onto(lc, b')) && Onto(lc, b').Top? == Onto(lc, b).Top?
  {
    if !lc.Top? { OntoShaded(lc.up, b, b', if lc.red then h else h + 1); }
  }

  lemma {:induction false} OntoPlug(lc: Ctx, b: Ctx, t: Tree)
    ensures Plug(Onto(lc, b), t) == Plug(b, Plug(lc, t))
  {
    if !lc.Top? { OntoPlug(lc.up, b, Fold(lc, t)); }
  }

  /** A path that only ever turned left has nothing before it. */
  ghost predicate Leftmost(lc: Ctx) { lc.Top? || (lc.InLeft? && Leftmost(lc.up)) }

  lemma {:induction false} LeftmostOrder(lc: Ctx, t: Tree)
    requires Leftmost(lc)
    ensures InOrder(Plug(lc, t)) == InOrder(t) + Later(lc)
  {
    PlugOrder(lc, t);
    NothingEarlier(lc);
  }

  lemma {:induction false} NothingEarlier(lc: Ctx)
    requires Leftmost(lc)
    ensures Earlier(lc) == []
  {
    if !lc.Top? { NothingEarlier(lc.up); }
  }

  /** The in-order sequence once the focused node is gone. */
  ghost function Without(c: Ctx, t: Tree): seq<Node>
    requires t.Branch?
  {
    Earlier(c) + InOrder(t.l) + (InOrder(t.r) + Later(c))
  }

  lemma {:induction false} WithoutOrder(c: Ctx, t: Tree)
    requires t.Branch? && Sorted(InOrder(Plug(c, t)))
    ensures var s, k := InOrder(Plug(c, t)), |Earlier(c) + InOrder(t.l)|;
      k < |s| && s[k] == t.n && Without(c, t) == Cut(s, k) && Sorted(Without(c, t))
    ensures Elems(Without(c, t)) == Nodes(Plug(c, t)) - {t.n}
  {
    Regroup(Earlier(c), InOrder(t.l), [t.n], InOrder(t.r), Later(c));
    PlugOrder(c, t);
    NodesInOrder(Plug(c, t));
    CutOut(Earlier(c) + InOrder(t.l), t.n, InOrder(t.r) + Later(c), InOrder(Plug(c, t)));
  }

  lemma {:induction false} CutOut(a: seq<Node>, x: Node, b: seq<Node>, s: seq<Node>)
    requires s == a + [x] + b && Sorted(s)
    ensures |a| < |s| && s[|a|] == x && a + b == Cut(s, |a|) && Sorted(a + b)
    ensures Elems(a + b) == Elems(s) - {x}
  {
    SortedSplit(a, x, b);
    assert s[..|a|] == a && s[|a| + 1..] == b;
    ElemsAppend(a, b);
    ElemsAppend(a + [x], b);
    ElemsAppend(a, [x]);
  }

  /** An only child takes its parent's place in the order, too. */
  lemma {:induction false} OnlyChildOrder(c: Ctx, t: Tree)
    requires t.Branch? && (t.l.Leaf? || t.r.Leaf?)
    ensures InOrder(Plug(c, OnlyChild(t))) == Without(c, t)
  {
    PlugOrder(c, OnlyChild(t));
    assert Earlier(c) + InOrder(t.r) + Later(c) == Earlier(c) + [] + (InOrder(t.r) + Later(c));
    assert Earlier(c) + InOrder(t.l) + Later(c) == Earlier(c) + InOrder(t.l) + ([] + Later(c));
  }

  /** The in-order successor s sits at the bottom of a leftmost path lc in the right subtree. */
  lemma {:induction false} SuccessorOrder(c: Ctx, t: Tree, lc: Ctx, st: Tree)
    requires t.Branch? && Leftmost(lc) && st.Branch? && st.l.Leaf? && t.r == Plug(lc, st)
    ensures InOrder(Plug(c, Branch(t.red, t.l, st.n, Plug(lc, st.r)))) == Without(c, t)
  {
    LeftmostOrder(lc, st);
    LeftmostOrder(lc, st.r);
    var x := InOrder(Plug(lc, st.r));
    assert InOrder(t.r) == [st.n] + x;
    PlugOrder(c, Branch(t.red, t.l, st.n, Plug(lc, st.r)));
    Regroup(Earlier(c), InOrder(t.l), [st.n], x, Later(c));
  }

  /** What removal leaves of a well-shaded place. */
  lemma {:induction false} Missing(c: Ctx, t: Tree)
    requires OnPath(c, t) && t.Branch? && (t.l.Leaf? || t.r.Leaf?)
    ensures var u := OnlyChild(t);
      && (!t.red ==> Removing(c, u, BlackHeight(u)))
      && (t.red ==> Shaded(u, BlackHeight(u)) && CtxShaded(c, BlackHeight(u)) && !IsRed(u) && !c.Top?)
  {
    var u := OnlyChild(t);
    assert Balanced(u) && NoRedRed(u);
    assert u.Branch? ==> NoRedRed(u.l) && NoRedRed(u.r);
  }

  /** The two-children case: what is left to repair once the successor s has moved up. */
  lemma {:induction false} InnerMissing(c: Ctx, t: Tree, lc: Ctx, st: Tree)
    requires t.Branch? && Leftmost(lc) && st.Branch? && st.l.Leaf? && t.r == Plug(lc, st)
    requires OnPath(Onto(lc, InRight(t.red, t.l, t.n, c)), st)
    ensures var b, h := Onto(lc, InRight(t.red, t.l, st.n, c)), BlackHeight(st.r);
      && (!st.red ==> Removing(b, st.r, h))
      && (st.red ==> Shaded(st.r, h) && CtxShaded(b, h) && !IsRed(st.r) && !b.Top?)
      && InOrder(Plug(b, st.r)) == Without(c, t)
  {
    var b, b' := InRight(t.red, t.l, t.n, c), InRight(t.red, t.l, st.n, c);
    var h := BlackHeight(st.r);
    Missing(Onto(lc, b), st);
    OntoShaded(lc, b, b', h);
    OntoShaded(lc, b, b', h + 1);
    OntoPlug(lc, b', st.r);
    SuccessorOrder(c, t, lc, st);
  }

  lemma {:induction false} RemovedOrder(c: Ctx, t: Tree, w: Tree)
    requires t.Branch? && Sorted(InOrder(Plug(c, t))) && InOrder(w) == Without(c, t)
    ensures var s, k := InOrder(Plug(c, t)), |Earlier(c) + InOrder(t.l)|;
      k < |s| && s[k] == t.n && InOrder(w) == Cut(s, k) && Sorted(InOrder(w))
    ensures Nodes(w) == Nodes(Plug(c, t)) - {t.n}
  {
    WithoutOrder(c, t);
    NodesInOrder(w);
  }
}
