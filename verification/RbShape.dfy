/** The tree's nodes and the pure picture of a linked tree: an inductive tree of node
    identities, a zipper for the path from a subtree to the root, and the pointer and colour
    fields ("cells") that such a tree prescribes for every node. */
module RbShape {
  import opened Names

  datatype Color = Black | Red

  /** `ramfs_rbnode_t`. The tree never writes `key`. */
  class Node {
    var parent: Node
    var left: Node
    var right: Node
    const key: Name
    var color: Color

    /** The global null node: black, its three links pointing to itself. */
    constructor Sentinel()
      ensures parent == left == right == this && color == Black
    {
      parent, left, right, key, color := this, this, this, [], Black;
    }

    constructor (nil: Node, key: Name)
      ensures this.key == key && parent == left == right == nil && color == Black
    {
      parent, left, right, color := nil, nil, nil, Black;
      this.key := key;
    }
  }

  datatype Tree = Leaf | T(l: Tree, x: Node, c: Color, r: Tree)

  /** A tree with one subtree missing, seen from the gap: the steps up to the root. */
  datatype Ctx =
    | Top
    | InL(up: Ctx, x: Node, c: Color, r: Tree)
    | InR(l: Tree, x: Node, c: Color, up: Ctx)

  function InOrder(t: Tree): seq<Node>
  {
    match t
    case Leaf => []
    case T(l, x, _, r) => InOrder(l) + [x] + InOrder(r)
  }

  function Nodes(t: Tree): set<Node>
  {
    match t
    case Leaf => {}
    case T(l, x, _, r) => Nodes(l) + {x} + Nodes(r)
  }

  function CtxNodes(z: Ctx): set<Node>
  {
    match z
    case Top => {}
    case InL(up, x, _, r) => CtxNodes(up) + {x} + Nodes(r)
    case InR(l, x, _, up) => CtxNodes(up) + {x} + Nodes(l)
  }

  /** No node occurs twice. */
  predicate Distinct(t: Tree)
  {
    match t
    case Leaf => true
    case T(l, x, _, r) =>
      Distinct(l) && Distinct(r) && Nodes(l) !! Nodes(r) && x !in Nodes(l) && x !in Nodes(r)
  }

  predicate CtxDistinct(z: Ctx)
  {
    match z
    case Top => true
    case InL(up, x, _, r) =>
      CtxDistinct(up) && Distinct(r) && CtxNodes(up) !! Nodes(r) && x !in CtxNodes(up) && x !in Nodes(r)
    case InR(l, x, _, up) =>
      CtxDistinct(up) && Distinct(l) && CtxNodes(up) !! Nodes(l) && x !in CtxNodes(up) && x !in Nodes(l)
  }

  function Plug(z: Ctx, t: Tree): Tree
  {
    match z
    case Top => t
    case InL(up, x, c, r) => Plug(up, T(t, x, c, r))
    case InR(l, x, c, up) => Plug(up, T(l, x, c, t))
  }

  /** The subtree one step further up: the filling `t` with what `z` has next to it. */
  function Lift(z: Ctx, t: Tree): (s: Tree)
    requires !z.Top?
    ensures s.T? && Plug(z, t) == Plug(z.up, s)
  {
    match z
    case InL(_, x, c, r) => T(t, x, c, r)
    case InR(l, x, c, _) => T(l, x, c, t)
  }

  /** The subtree on the other side of the node above the gap, and that subtree's own context. */
  function Sibling(z: Ctx): Tree
    requires !z.Top?
  {
    if z.InL? then z.r else z.l
  }

  /** One step up from the gap, with the sibling made red. */
  function Recoloured(z: Ctx, t: Tree): (s: Tree)
    requires !z.Top? && Sibling(z).T?
    ensures s.T?
    ensures Plug(Across(z, t), Sibling(z).(c := Red)) == Plug(z.up, s)
  {
    match z
    case InL(_, x, c, r) => T(t, x, c, r.(c := Red))
    case InR(l, x, c, _) => T(l.(c := Red), x, c, t)
  }

  function Across(z: Ctx, t: Tree): (w: Ctx)
    requires !z.Top?
    ensures !w.Top? && Plug(w, Sibling(z)) == Plug(z, t)
  {
    match z
    case InL(up, x, c, _) => InR(t, x, c, up)
    case InR(_, x, c, up) => InL(up, x, c, t)
  }

  /** The nodes before, and after, the gap in key order. */
  function Before(z: Ctx): seq<Node>
  {
    match z
    case Top => []
    case InL(up, _, _, _) => Before(up)
    case InR(l, x, _, up) => Before(up) + InOrder(l) + [x]
  }

  function After(z: Ctx): seq<Node>
  {
    match z
    case Top => []
    case InL(up, x, _, r) => [x] + InOrder(r) + After(up)
    case InR(_, _, _, up) => After(up)
  }

  function Depth(z: Ctx): nat
  {
    match z
    case Top => 0
    case InL(up, _, _, _) => 1 + Depth(up)
    case InR(_, _, _, up) => 1 + Depth(up)
  }

  /** The pointer to a subtree, and the parent pointer of whatever fills the gap. */
  function Ptr(nil: Node, t: Tree): Node
  {
    if t.Leaf? then nil else t.x
  }

  function Above(nil: Node, z: Ctx): Node
  {
    if z.Top? then nil else z.x
  }

  // ---- Sequences and sets of nodes ----

  lemma {:induction false} PlugInOrder(z: Ctx, t: Tree)
    ensures InOrder(Plug(z, t)) == Before(z) + InOrder(t) + After(z)
  {
    match z
    case Top =>
    case InL(up, x, c, r) => PlugInOrder(up, T(t, x, c, r));
    case InR(l, x, c, up) => PlugInOrder(up, T(l, x, c, t));
  }

  lemma {:induction false} PlugNodes(z: Ctx, t: Tree)
    ensures Nodes(Plug(z, t)) == CtxNodes(z) + Nodes(t)
  {
    match z
    case Top =>
    case InL(up, x, c, r) => PlugNodes(up, T(t, x, c, r));
    case InR(l, x, c, up) => PlugNodes(up, T(l, x, c, t));
  }

  lemma {:induction false} PlugDistinct(z: Ctx, t: Tree)
    ensures Distinct(Plug(z, t)) <==> CtxDistinct(z) && Distinct(t) && CtxNodes(z) !! Nodes(t)
  {
    match z
    case Top =>
    case InL(up, x, c, r) => PlugDistinct(up, T(t, x, c, r));
    case InR(l, x, c, up) => PlugDistinct(up, T(l, x, c, t));
  }

  lemma {:induction false} InOrderNodes(t: Tree, x: Node)
    ensures x in InOrder(t) <==> x in Nodes(t)
  {
    if t.T? {
      InOrderNodes(t.l, x);
      InOrderNodes(t.r, x);
    }
  }

  /** Every node of a tree sits in some context. */
  lemma {:induction false} Locate(z: Ctx, t: Tree, x: Node) returns (z': Ctx, s: Tree)
    requires x in Nodes(t)
    ensures s.T? && s.x == x && Plug(z', s) == Plug(z, t)
    decreases t
  {
    if t.x == x {
      z', s := z, t;
    } else if x in Nodes(t.l) {
      z', s := Locate(InL(z, t.x, t.c, t.r), t.l, x);
    } else {
      z', s := Locate(InR(t.l, t.x, t.c, z), t.r, x);
    }
  }
}
