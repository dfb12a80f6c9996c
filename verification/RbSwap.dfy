/** Exchanging the places of two nodes, and the mutual consistency of links that makes the
    exchange a matter of a few pointers. */
module RbSwap {
  import opened RbShape
  import opened RbBalance
  import opened RbLinks
  import opened RbOrder
  import opened Names

  /** Parent and child links agree at `w`. */
  ghost predicate ConsistentAt(nil: Node, h: Heap, root: Node, w: Node)
    requires w in h
  {
    var c := h[w];
    && (c.left == nil || (c.left in h && h[c.left].parent == w))
    && (c.right == nil || (c.right in h && h[c.right].parent == w))
    && (c.left == c.right ==> c.left == nil)
    && c.left != w && c.right != w
    && (c.parent == nil ==> root == w)
    && (root == w ==> c.parent == nil)
    && (c.parent != nil ==> c.parent in h && (h[c.parent].left == w || h[c.parent].right == w))
  }

  ghost predicate Consistent(nil: Node, h: Heap, root: Node)
  {
    forall w {:trigger ConsistentAt(nil, h, root, w)} :: w in h ==> ConsistentAt(nil, h, root, w)
  }

  /** In a tree that is linked up, parent and child links agree everywhere. */
  lemma LinksConsistent(nil: Node, h: Heap, t: Tree, root: Node, w: Node)
    requires Formed(nil, h, t, root) && w in h
    ensures ConsistentAt(nil, h, root, w)
  {
    var z, s := Locate(Top, t, w);
    Open(nil, h, root, z, s);
    Open(nil, h, root, Top, t);
    if s.l.T? {
      Open(nil, h, root, InL(z, s.x, s.c, s.r), s.l);
    }
    if s.r.T? {
      Open(nil, h, root, InR(s.l, s.x, s.c, z), s.r);
    }
  }

  lemma AllConsistent(nil: Node, h: Heap, t: Tree, root: Node)
    requires Formed(nil, h, t, root)
    ensures Consistent(nil, h, root)
  {
    forall w | w in h
      ensures ConsistentAt(nil, h, root, w)
    {
      LinksConsistent(nil, h, t, root, w);
    }
  }

  function Swap(x: Node, s: Node, w: Node): Node
  {
    if w == x then s else if w == s then x else w
  }

  /** The tree with `x` and `s` in each other's place; colours stay with the places. */
  function Rename(x: Node, s: Node, t: Tree): Tree
  {
    match t
    case Leaf => Leaf
    case T(l, y, c, r) => T(Rename(x, s, l), Swap(x, s, y), c, Rename(x, s, r))
  }

  function RenameCtx(x: Node, s: Node, z: Ctx): Ctx
  {
    match z
    case Top => Top
    case InL(up, y, c, r) => InL(RenameCtx(x, s, up), Swap(x, s, y), c, Rename(x, s, r))
    case InR(l, y, c, up) => InR(Rename(x, s, l), Swap(x, s, y), c, RenameCtx(x, s, up))
  }

  function SwapCell(x: Node, s: Node, c: Cell): Cell
  {
    Cell(Swap(x, s, c.parent), Swap(x, s, c.left), Swap(x, s, c.right), c.color)
  }

  ghost predicate SwappedAt(h: Heap, k: Heap, x: Node, s: Node, w: Node)
  {
    w in k && Swap(x, s, w) in h && k[w] == SwapCell(x, s, h[Swap(x, s, w)])
  }

  /** `k` is `h` with `x` and `s` exchanged. */
  ghost predicate Swapped(h: Heap, k: Heap, x: Node, s: Node)
  {
    && x in h && s in h && k.Keys == h.Keys
    && forall w {:trigger SwappedAt(h, k, x, s, w)} :: w in h ==> SwappedAt(h, k, x, s, w)
  }

  lemma {:induction false} RenamePlug(x: Node, s: Node, z: Ctx, t: Tree)
    ensures Rename(x, s, Plug(z, t)) == Plug(RenameCtx(x, s, z), Rename(x, s, t))
  {
    match z
    case Top =>
    case InL(up, y, c, r) => RenamePlug(x, s, up, T(t, y, c, r));
    case InR(l, y, c, up) => RenamePlug(x, s, up, T(l, y, c, t));
  }

  lemma {:induction false} RenameNode(x: Node, s: Node, t: Tree, w: Node)
    ensures w in Nodes(Rename(x, s, t)) <==> Swap(x, s, w) in Nodes(t)
  {
    if t.T? {
      RenameNode(x, s, t.l, w);
      RenameNode(x, s, t.r, w);
    }
  }

  lemma {:induction false} RenameDistinct(x: Node, s: Node, t: Tree)
    requires Distinct(t)
    ensures Distinct(Rename(x, s, t))
  {
    if t.T? {
      RenameDistinct(x, s, t.l);
      RenameDistinct(x, s, t.r);
      RenameNode(x, s, t.l, Swap(x, s, t.x));
      RenameNode(x, s, t.r, Swap(x, s, t.x));
      forall w | w in Nodes(Rename(x, s, t.l))
        ensures w !in Nodes(Rename(x, s, t.r))
      {
        RenameNode(x, s, t.l, w);
        RenameNode(x, s, t.r, w);
      }
    }
  }

  lemma {:induction false} RenameSub(nil: Node, h: Heap, k: Heap, x: Node, s: Node, t: Tree, n: Node, p: Node)
    requires Swapped(h, k, x, s) && nil !in h && Sub(nil, h, t, n, p)
    ensures Sub(nil, k, Rename(x, s, t), Swap(x, s, n), Swap(x, s, p))
  {
    if t.T? {
      RenameSub(nil, h, k, x, s, t.l, h[n].left, n);
      RenameSub(nil, h, k, x, s, t.r, h[n].right, n);
      assert SwappedAt(h, k, x, s, Swap(x, s, n));
    }
  }

  lemma {:induction false} RenameInOrder(x: Node, s: Node, t: Tree)
    ensures |InOrder(Rename(x, s, t))| == |InOrder(t)|
    ensures forall i :: 0 <= i < |InOrder(t)| ==> InOrder(Rename(x, s, t))[i] == Swap(x, s, InOrder(t)[i])
  {
    if t.T? {
      RenameInOrder(x, s, t.l);
      RenameInOrder(x, s, t.r);
    }
  }

  lemma {:induction false} RenameBalanced(x: Node, s: Node, t: Tree, n: int)
    ensures Ok(Rename(x, s, t), n) <==> Ok(t, n)
    ensures BlackHeight(Rename(x, s, t)) == BlackHeight(t)
  {
    if t.T? {
      RenameBalanced(x, s, t.l, if t.c == Red then n else n - 1);
      RenameBalanced(x, s, t.r, if t.c == Red then n else n - 1);
    }
  }

  /** Exchanged cells are those of the renamed tree. */
  lemma SwapFormed(nil: Node, h: Heap, k: Heap, x: Node, s: Node, t: Tree, root: Node)
    requires Formed(nil, h, t, root) && Swapped(h, k, x, s)
    ensures Formed(nil, k, Rename(x, s, t), Swap(x, s, root))
  {
    RenameSub(nil, h, k, x, s, t, root, nil);
    RenameDistinct(x, s, t);
    forall w | w in Nodes(Rename(x, s, t))
      ensures w in k
    {
      RenameNode(x, s, t, w);
    }
    forall w | w in h
      ensures w in Nodes(Rename(x, s, t))
    {
      RenameNode(x, s, t, w);
    }
    assert Nodes(Rename(x, s, t)) == k.Keys;
  }

  /** Where the exchange of `x` with a later node `s` is done with the pointers around them. */
  ghost predicate Exchangeable(nil: Node, h: Heap, x: Node, s: Node)
  {
    && x in h && s in h && x != s && nil !in h
    && h[x].parent != s && h[x].left != s && h[s].parent != nil
    && h[x].parent != h[s].parent
    && (h[x].right == s <==> h[s].parent == x)
  }

  ghost predicate ChildLinksSwappedAt(h: Heap, k: Heap, x: Node, s: Node, w: Node)
  {
    && w in h && w in k
    && k[w] == h[w].(left := Swap(x, s, h[w].left), right := Swap(x, s, h[w].right))
  }

  ghost predicate LinksSwappedAt(h: Heap, k: Heap, x: Node, s: Node, w: Node)
  {
    w in h && w in k && k[w] == SwapCell(x, s, h[w])
  }

  /** Colours are exchanged and every other node's child pointers are redirected. */
  ghost predicate ParentsSwapped(h: Heap, k: Heap, x: Node, s: Node)
  {
    && x in h && s in h && k.Keys == h.Keys
    && k[x] == h[x].(color := h[s].color) && k[s] == h[s].(color := h[x].color)
    && forall w {:trigger ChildLinksSwappedAt(h, k, x, s, w)} :: w in h && w != x && w != s ==>
         ChildLinksSwappedAt(h, k, x, s, w)
  }

  /** Colours are exchanged and all links of every other node are redirected. */
  ghost predicate NeighboursSwapped(h: Heap, k: Heap, x: Node, s: Node)
  {
    && x in h && s in h && k.Keys == h.Keys
    && k[x] == h[x].(color := h[s].color) && k[s] == h[s].(color := h[x].color)
    && forall w {:trigger LinksSwappedAt(h, k, x, s, w)} :: w in h && w != x && w != s ==>
         LinksSwappedAt(h, k, x, s, w)
  }

  function ParentChanged(nil: Node, h: Heap, parent: Node, from: Node, to: Node): Heap
    requires parent == nil || parent in h
  {
    if parent == nil then h else
    var c := h[parent];
    h[parent := c.(left := if c.left == from then to else c.left, right := if c.right == from then to else c.right)]
  }

  function RootChanged(nil: Node, root: Node, parent: Node, from: Node, to: Node): Node
  {
    if parent == nil && root == from then to else root
  }

  function ChildChanged(nil: Node, h: Heap, child: Node, from: Node, to: Node): Heap
    requires child == nil || child in h
  {
    if child == nil then h else
    var c := h[child];
    h[child := c.(parent := if c.parent == from then to else c.parent)]
  }

  function ColorsSwapped(h: Heap, x: Node, s: Node): Heap
    requires x in h && s in h
  {
    h[x := h[x].(color := h[s].color)][s := h[s].(color := h[x].color)]
  }

  /** When `s` is the right child of `x`, the links between the two lead back to themselves. */
  function Tied(h: Heap, x: Node, s: Node): Heap
    requires x in h && s in h
  {
    if h[x].right == s then h[x := h[x].(right := x)][s := h[s].(parent := s)] else h
  }

  /** The two nodes' own links trade places. */
  function OwnSwapped(h: Heap, x: Node, s: Node): Heap
    requires x in h && s in h
  {
    h[x := h[s].(color := h[x].color)][s := h[x].(color := h[s].color)]
  }

  lemma ParentsAreSwapped(nil: Node, h: Heap, root: Node, x: Node, s: Node)
    requires Exchangeable(nil, h, x, s)
    requires Consistent(nil, h, root)
    ensures h[x].parent == nil || h[x].parent in h
    ensures h[s].parent in h
    ensures var k := ParentChanged(nil, ColorsSwapped(h, x, s), h[x].parent, x, s);
            var k' := if h[x].right != s then ParentChanged(nil, k, h[s].parent, s, x) else k;
            ParentsSwapped(h, k', x, s)
    ensures var q := RootChanged(nil, root, h[x].parent, x, s);
            (if h[x].right != s then RootChanged(nil, q, h[s].parent, s, x) else q) == Swap(x, s, root)
  {
    assert ConsistentAt(nil, h, root, x) && ConsistentAt(nil, h, root, s);
    var k := ParentChanged(nil, ColorsSwapped(h, x, s), h[x].parent, x, s);
    var k' := if h[x].right != s then ParentChanged(nil, k, h[s].parent, s, x) else k;
    forall w | w in h && w != x && w != s
      ensures ChildLinksSwappedAt(h, k', x, s, w)
    {
      assert ConsistentAt(nil, h, root, w);
    }
  }

  function LaterChildrenChanged(nil: Node, k: Heap, x: Node, s: Node): Heap
    requires s in k && forall c :: c in {k[s].left, k[s].right} ==> c == nil || c in k
  {
    var k1 := ChildChanged(nil, k, k[s].left, s, x);
    var k2 := ChildChanged(nil, k1, k[s].left, s, x);
    var k3 := ChildChanged(nil, k2, k[s].right, s, x);
    ChildChanged(nil, k3, k[s].right, s, x)
  }

  function ChildrenChanged(nil: Node, k: Heap, x: Node, s: Node): Heap
    requires x in k && s in k
    requires forall c :: c in {k[s].left, k[s].right, k[x].left, k[x].right} ==> c == nil || c in k
  {
    var k4 := LaterChildrenChanged(nil, k, x, s);
    var k5 := ChildChanged(nil, k4, k[x].left, x, s);
    if k[x].right != s then ChildChanged(nil, k5, k[x].right, x, s) else k5
  }

  lemma ChildrenChangedAt(nil: Node, k: Heap, x: Node, s: Node, w: Node)
    requires x in k && s in k && x != s && w in k && w != nil
    requires forall c :: c in {k[s].left, k[s].right, k[x].left, k[x].right} ==> c == nil || c in k
    requires k[w].parent == s ==> w == k[s].left || w == k[s].right
    requires k[w].parent == x ==> w != k[s].left && w != k[s].right
    requires k[w].parent == x ==> w == k[x].left || (w == k[x].right && w != s)
    requires k[w].parent == s ==> w != k[x].left && w != k[x].right
    ensures w in ChildrenChanged(nil, k, x, s)
    ensures ChildrenChanged(nil, k, x, s)[w] == k[w].(parent := Swap(x, s, k[w].parent))
  {
  }

  lemma ChildAt(nil: Node, h: Heap, k: Heap, root: Node, x: Node, s: Node, w: Node)
    requires Exchangeable(nil, h, x, s) && ParentsSwapped(h, k, x, s) && Consistent(nil, h, root)
    requires w in h && w != x && w != s
    requires forall c :: c in {k[s].left, k[s].right, k[x].left, k[x].right} ==> c == nil || c in k
    ensures LinksSwappedAt(h, ChildrenChanged(nil, k, x, s), x, s, w)
  {
    assert ConsistentAt(nil, h, root, x) && ConsistentAt(nil, h, root, s) && ConsistentAt(nil, h, root, w);
    assert ChildLinksSwappedAt(h, k, x, s, w);
    ChildrenChangedAt(nil, k, x, s, w);
  }

  /** The children of both nodes exist, and neither node is among them except `s` below `x`. */
  lemma ChildrenKnown(nil: Node, h: Heap, k: Heap, root: Node, x: Node, s: Node)
    requires Exchangeable(nil, h, x, s) && ParentsSwapped(h, k, x, s) && Consistent(nil, h, root)
    ensures forall c :: c in {k[s].left, k[s].right, k[x].left, k[x].right} ==> c == nil || c in k
    ensures k[s].left !in {x, s} && k[s].right !in {x, s} && k[x].left !in {x, s} && k[x].right != x
  {
    assert ConsistentAt(nil, h, root, x) && ConsistentAt(nil, h, root, s);
  }

  /** The six calls write neither node's own cell. */
  lemma OwnUntouched(nil: Node, k: Heap, x: Node, s: Node)
    requires x in k && s in k && nil !in k
    requires forall c :: c in {k[s].left, k[s].right, k[x].left, k[x].right} ==> c == nil || c in k
    requires k[s].left !in {x, s} && k[s].right !in {x, s} && k[x].left !in {x, s} && k[x].right != x
    ensures var k' := ChildrenChanged(nil, k, x, s);
            k'.Keys == k.Keys && k'[x] == k[x] && k'[s] == k[s]
  {
  }

  lemma ChildrenAreSwapped(nil: Node, h: Heap, k: Heap, root: Node, x: Node, s: Node)
    requires Exchangeable(nil, h, x, s) && ParentsSwapped(h, k, x, s) && Consistent(nil, h, root)
    ensures forall c :: c in {k[s].left, k[s].right, k[x].left, k[x].right} ==> c == nil || c in k
    ensures NeighboursSwapped(h, ChildrenChanged(nil, k, x, s), x, s)
  {
    ChildrenKnown(nil, h, k, root, x, s);
    OwnUntouched(nil, k, x, s);
    forall w | w in h && w != x && w != s
      ensures LinksSwappedAt(h, ChildrenChanged(nil, k, x, s), x, s, w)
    {
      ChildAt(nil, h, k, root, x, s, w);
    }
  }

  lemma OwnAreSwapped(nil: Node, h: Heap, k: Heap, root: Node, x: Node, s: Node)
    requires Exchangeable(nil, h, x, s) && NeighboursSwapped(h, k, x, s)
    requires Consistent(nil, h, root)
    ensures Swapped(h, OwnSwapped(Tied(k, x, s), x, s), x, s)
  {
    assert ConsistentAt(nil, h, root, x) && ConsistentAt(nil, h, root, s);
    var k' := OwnSwapped(Tied(k, x, s), x, s);
    forall w | w in h
      ensures SwappedAt(h, k', x, s, w)
    {
      if w != x && w != s {
        assert LinksSwappedAt(h, k, x, s, w);
      }
    }
  }

  // ---- Deletion ----

  function Without<A>(s: seq<A>, i: nat): seq<A>
    requires i < |s|
  {
    s[..i] + s[i + 1..]
  }

  /** Exchanging two neighbours and then leaving out the second place leaves out the first one. */
  lemma ExchangedWithout(a: seq<Node>, b: seq<Node>, x: Node, s: Node, p: nat)
    requires p + 1 < |a| == |b| && a[p] == x && a[p + 1] == s
    requires forall i, j :: 0 <= i < j < |a| ==> a[i] != a[j]
    requires forall i :: 0 <= i < |a| ==> b[i] == Swap(x, s, a[i])
    ensures Without(b, p + 1) == Without(a, p)
  {
  }

  /** The one child of a node that has at most one. */
  function OnlyChild(t: Tree): Tree
    requires t.T?
  {
    if t.l.T? then t.l else t.r
  }

  lemma MiddleWithout<A>(a: seq<A>, l: seq<A>, x: A, r: seq<A>, d: seq<A>)
    requires l == [] || r == []
    ensures |a| + |l| < |a + (l + [x] + r) + d|
    ensures Without(a + (l + [x] + r) + d, |a| + |l|) == a + (if l != [] then l else r) + d
  {
  }

  lemma UnlinkOrder(z: Ctx, t: Tree)
    requires t.T? && (t.l.Leaf? || t.r.Leaf?)
    ensures |Before(z)| + |InOrder(t.l)| < |InOrder(Plug(z, t))|
    ensures InOrder(Plug(z, OnlyChild(t))) == Without(InOrder(Plug(z, t)), |Before(z)| + |InOrder(t.l)|)
  {
    PlugInOrder(z, t);
    PlugInOrder(z, OnlyChild(t));
    var l, r := InOrder(t.l), InOrder(t.r);
    MiddleWithout(Before(z), l, t.x, r, After(z));
    assert InOrder(OnlyChild(t)) == if l != [] then l else r;
  }

  /** The cells after the child of `t.x` has taken its place. */
  function Unlinked(nil: Node, h: Heap, z: Ctx, t: Tree): Heap
    requires t.T? && (Above(nil, z) == nil || Above(nil, z) in h)
    requires OnlyChild(t).T? ==> OnlyChild(t).x in h
  {
    var c := Ptr(nil, OnlyChild(t));
    ChildChanged(nil, ParentChanged(nil, h, Above(nil, z), t.x, c), c, t.x, Above(nil, z)) - {t.x}
  }

  /** Only one pointer of the node above the gap leads into the gap. */
  lemma GapPointers(nil: Node, h: Heap, z: Ctx, t: Tree, root: Node)
    requires t.T? && Formed(nil, h, Plug(z, t), root)
    ensures z.InL? ==> z.x in h && h[z.x].left == t.x && h[z.x].right != t.x
    ensures z.InR? ==> z.x in h && h[z.x].right == t.x && h[z.x].left != t.x
  {
    Open(nil, h, root, z, t);
  }

  lemma UnlinkHang(nil: Node, h: Heap, z: Ctx, t: Tree, root: Node)
    requires t.T? && (t.l.Leaf? || t.r.Leaf?) && Formed(nil, h, Plug(z, t), root)
    ensures Above(nil, z) == nil || Above(nil, z) in h
    ensures OnlyChild(t).T? ==> OnlyChild(t).x in h
    ensures Hang(nil, Unlinked(nil, h, z, t), z, Ptr(nil, OnlyChild(t)),
                 RootChanged(nil, root, Above(nil, z), t.x, Ptr(nil, OnlyChild(t))))
  {
    Open(nil, h, root, z, t);
    var c := OnlyChild(t);
    assert c.T? ==> c.x in Nodes(c) && Nodes(c) <= Nodes(t) && c.x != t.x;
    GapPointers(nil, h, z, t, root);
    Rehang(nil, h, Unlinked(nil, h, z, t), z, t.x, Ptr(nil, c), root,
           RootChanged(nil, root, Above(nil, z), t.x, Ptr(nil, c)));
  }

  lemma UnlinkSub(nil: Node, h: Heap, z: Ctx, t: Tree, root: Node)
    requires t.T? && (t.l.Leaf? || t.r.Leaf?) && Formed(nil, h, Plug(z, t), root)
    requires Above(nil, z) == nil || Above(nil, z) in h
    requires OnlyChild(t).T? ==> OnlyChild(t).x in h
    ensures Sub(nil, Unlinked(nil, h, z, t), OnlyChild(t), Ptr(nil, OnlyChild(t)), Above(nil, z))
  {
    Open(nil, h, root, z, t);
    var c := OnlyChild(t);
    if c.T? {
      assert Sub(nil, h, c, c.x, t.x) && c.x in Nodes(c) && Nodes(c) <= Nodes(t);
      Reparent(nil, h, Unlinked(nil, h, z, t), c, t.x, Above(nil, z));
    }
  }

  lemma UnlinkFormed(nil: Node, h: Heap, z: Ctx, t: Tree, root: Node)
    requires t.T? && (t.l.Leaf? || t.r.Leaf?) && Formed(nil, h, Plug(z, t), root)
    ensures Above(nil, z) == nil || Above(nil, z) in h
    ensures OnlyChild(t).T? ==> OnlyChild(t).x in h && OnlyChild(t).x != t.x
    ensures Above(nil, z) != t.x
    ensures Formed(nil, Unlinked(nil, h, z, t), Plug(z, OnlyChild(t)),
                   RootChanged(nil, root, Above(nil, z), t.x, Ptr(nil, OnlyChild(t))))
  {
    Open(nil, h, root, z, t);
    var c := OnlyChild(t);
    UnlinkHang(nil, h, z, t, root);
    UnlinkSub(nil, h, z, t, root);
    Unplug(nil, Unlinked(nil, h, z, t), z, c, RootChanged(nil, root, Above(nil, z), t.x, Ptr(nil, c)));
    PlugNodes(z, c);
    PlugDistinct(z, c);
    assert Nodes(t) == Nodes(c) + {t.x};
  }

  /** `cur`, in context `y`, is on the left spine of the right subtree of `t`. */
  ghost predicate InRightSpine(z: Ctx, t: Tree, y: Ctx, cur: Tree)
    requires t.T? && t.r.T?
  {
    && cur.T? && !y.Top? && Plug(y, cur) == Plug(z, t)
    && Before(y) == Before(z) + InOrder(t.l) + [t.x]
    && Nodes(cur) <= Nodes(t.r)
    && (y.x == t.x ==> cur == t.r)
    && (y.x != t.x ==> y.x in Nodes(t.r) && t.r.x !in Nodes(cur))
  }

  lemma SpineStart(z: Ctx, t: Tree)
    requires t.T? && t.r.T?
    ensures InRightSpine(z, t, InR(t.l, t.x, t.c, z), t.r)
  {
  }

  lemma SpineDown(z: Ctx, t: Tree, y: Ctx, cur: Tree)
    requires t.T? && t.r.T? && InRightSpine(z, t, y, cur) && cur.l.T? && Distinct(Plug(z, t))
    ensures InRightSpine(z, t, InL(y, cur.x, cur.c, cur.r), cur.l)
  {
    PlugDistinct(z, t);
    PlugDistinct(y, cur);
  }

  lemma SpineExchangeable(nil: Node, h: Heap, root: Node, z: Ctx, t: Tree, y: Ctx, cur: Tree)
    requires t.T? && t.l.T? && t.r.T? && Formed(nil, h, Plug(z, t), root)
    requires InRightSpine(z, t, y, cur)
    ensures Exchangeable(nil, h, t.x, cur.x)
  {
    Open(nil, h, root, z, t);
    Open(nil, h, root, y, cur);
  }

  /** The leftmost node of the right subtree is the next node in order. */
  lemma SpineOrder(z: Ctx, t: Tree, y: Ctx, cur: Tree)
    requires t.T? && t.r.T? && InRightSpine(z, t, y, cur) && cur.l.Leaf? && Ordered(Plug(z, t))
    ensures var a, b, p := InOrder(Plug(z, t)), InOrder(Rename(t.x, cur.x, Plug(z, t))), |Before(z)| + |InOrder(t.l)|;
            |a| == |b| && p + 1 < |a| && Without(b, p + 1) == Without(a, p)
    ensures |Before(RenameCtx(t.x, cur.x, y))| == |Before(y)|
  {
    var a, b, p := InOrder(Plug(z, t)), InOrder(Rename(t.x, cur.x, Plug(z, t))), |Before(z)| + |InOrder(t.l)|;
    NodeAt(z, t);
    NodeAt(y, cur);
    RenameInOrder(t.x, cur.x, Plug(z, t));
    forall i, j | 0 <= i < j < |a|
      ensures a[i] != a[j]
    {
      Trichotomy(Keys(a)[i], Keys(a)[j]);
    }
    ExchangedWithout(a, b, t.x, cur.x, p);
    RenameBefore(t.x, cur.x, y);
  }

  /** The tree in which the two nodes have traded places. */
  lemma Traded(z: Ctx, t: Tree, y: Ctx, cur: Tree)
    requires t.T? && t.r.T? && InRightSpine(z, t, y, cur) && cur.l.Leaf?
    requires RedBlack(Plug(z, t)) && Ordered(Plug(z, t))
    ensures var u, p := Rename(t.x, cur.x, Plug(z, t)), |Before(z)| + |InOrder(t.l)|;
            && RedBlack(u) && u == Plug(RenameCtx(t.x, cur.x, y), Rename(t.x, cur.x, cur))
            && |InOrder(u)| == |InOrder(Plug(z, t))| && p + 1 == |Before(RenameCtx(t.x, cur.x, y))| < |InOrder(u)|
            && Without(InOrder(u), p + 1) == Without(InOrder(Plug(z, t)), p)
  {
    SpineOrder(z, t, y, cur);
    RenamePlug(t.x, cur.x, y, cur);
    RenameBalanced(t.x, cur.x, Plug(z, t), BlackHeight(Plug(z, t)));
  }

  lemma {:induction false} RenameBefore(x: Node, s: Node, z: Ctx)
    ensures |Before(RenameCtx(x, s, z))| == |Before(z)|
  {
    match z
    case Top =>
    case InL(up, _, _, _) => RenameBefore(x, s, up);
    case InR(l, _, _, up) =>
      RenameBefore(x, s, up);
      RenameInOrder(x, s, l);
  }
}
