/** When the fields of the nodes, taken as a value, form a given tree; and what pointer
    surgery does to that. */
module RbLinks {
  import opened RbShape

  /** The fields of one node, and of many nodes. */
  datatype Cell = Cell(parent: Node, left: Node, right: Node, color: Color)

  type Heap = map<Node, Cell>

  /** From pointer `n` down, the heap is the tree `t` hanging below `p`. */
  ghost predicate Sub(nil: Node, h: Heap, t: Tree, n: Node, p: Node)
  {
    match t
    case Leaf => n == nil
    case T(l, x, c, r) =>
      n == x && x != nil && x in h && h[x].parent == p && h[x].color == c
      && Sub(nil, h, l, h[x].left, x) && Sub(nil, h, r, h[x].right, x)
  }

  /** The cells are those of exactly the tree `t` with root pointer `root`. */
  ghost predicate Formed(nil: Node, h: Heap, t: Tree, root: Node)
  {
    nil !in h && Distinct(t) && Nodes(t) == h.Keys && Sub(nil, h, t, root, nil)
  }

  /** Around the gap of `z`, into which the pointer `k` leads, the heap is the context `z` of
      a tree with root pointer `root`. */
  ghost predicate Hang(nil: Node, h: Heap, z: Ctx, k: Node, root: Node)
  {
    match z
    case Top => root == k
    case InL(up, x, c, r) =>
      x != nil && x in h && h[x].left == k && h[x].parent == Above(nil, up) && h[x].color == c
      && Sub(nil, h, r, h[x].right, x) && Hang(nil, h, up, x, root)
    case InR(l, x, c, up) =>
      x != nil && x in h && h[x].right == k && h[x].parent == Above(nil, up) && h[x].color == c
      && Sub(nil, h, l, h[x].left, x) && Hang(nil, h, up, x, root)
  }

  lemma {:induction false} Unplug(nil: Node, h: Heap, z: Ctx, t: Tree, root: Node)
    ensures Sub(nil, h, Plug(z, t), root, nil)
            <==> Hang(nil, h, z, Ptr(nil, t), root) && Sub(nil, h, t, Ptr(nil, t), Above(nil, z))
  {
    match z
    case Top =>
    case InL(up, x, c, r) => Unplug(nil, h, up, T(t, x, c, r), root);
    case InR(l, x, c, up) => Unplug(nil, h, up, T(l, x, c, t), root);
  }

  ghost predicate SameCells(h: Heap, k: Heap, s: set<Node>)
  {
    forall w {:trigger h[w]} {:trigger k[w]} :: w in s && w in h ==> w in k && k[w] == h[w]
  }

  /** A subtree none of whose nodes changed is still there. */
  lemma {:induction false} SubFrame(nil: Node, h: Heap, k: Heap, t: Tree, n: Node, p: Node)
    requires Sub(nil, h, t, n, p) && SameCells(h, k, Nodes(t))
    ensures Sub(nil, k, t, n, p)
  {
    if t.T? {
      SubFrame(nil, h, k, t.l, h[t.x].left, t.x);
      SubFrame(nil, h, k, t.r, h[t.x].right, t.x);
    }
  }

  lemma {:induction false} HangFrame(nil: Node, h: Heap, k: Heap, z: Ctx, n: Node, root: Node)
    requires Hang(nil, h, z, n, root) && SameCells(h, k, CtxNodes(z))
    ensures Hang(nil, k, z, n, root)
  {
    match z
    case Top =>
    case InL(up, x, _, r) =>
      HangFrame(nil, h, k, up, x, root);
      SubFrame(nil, h, k, r, h[x].right, x);
    case InR(l, x, _, up) =>
      HangFrame(nil, h, k, up, x, root);
      SubFrame(nil, h, k, l, h[x].left, x);
  }

  /** A subtree of which only the root's parent pointer changed. */
  lemma Reparent(nil: Node, h: Heap, k: Heap, t: Tree, p: Node, q: Node)
    requires Distinct(t) && Sub(nil, h, t, Ptr(nil, t), p)
    requires SameCells(h, k, Nodes(t) - {Ptr(nil, t)})
    requires t.T? ==> t.x in k && k[t.x] == h[t.x].(parent := q)
    ensures Sub(nil, k, t, Ptr(nil, t), q)
  {
    if t.T? {
      SubFrame(nil, h, k, t.l, h[t.x].left, t.x);
      SubFrame(nil, h, k, t.r, h[t.x].right, t.x);
    }
  }

  /** A context of which only the pointer into the gap changed. */
  lemma Rehang(nil: Node, h: Heap, k: Heap, z: Ctx, n: Node, m: Node, root: Node, root': Node)
    requires CtxDistinct(z) && Hang(nil, h, z, n, root)
    requires SameCells(h, k, CtxNodes(z) - {Above(nil, z)})
    requires root' == if z.Top? then m else root
    requires z.InL? ==> z.x in k && k[z.x] == h[z.x].(left := m)
    requires z.InR? ==> z.x in k && k[z.x] == h[z.x].(right := m)
    ensures Hang(nil, k, z, m, root')
  {
    match z
    case Top =>
    case InL(up, x, _, r) =>
      HangFrame(nil, h, k, up, x, root);
      SubFrame(nil, h, k, r, h[x].right, x);
    case InR(l, x, _, up) =>
      HangFrame(nil, h, k, up, x, root);
      SubFrame(nil, h, k, l, h[x].left, x);
  }

  /** The fields of the node above the gap after the pointer into the gap became `m`. */
  function Redirect(z: Ctx, c: Cell, m: Node): Cell
  {
    match z
    case Top => c
    case InL(_, _, _, _) => c.(left := m)
    case InR(_, _, _, _) => c.(right := m)
  }

  /** Rotating left at `x`: the subtree itself, hanging below `p`. */
  lemma RotateLeftLinks(nil: Node, h: Heap, k: Heap, p: Node,
                        a: Tree, x: Node, cx: Color, b: Tree, y: Node, cy: Color, c: Tree)
    requires Distinct(T(a, x, cx, T(b, y, cy, c))) && nil !in h
    requires Nodes(T(a, x, cx, T(b, y, cy, c))) <= h.Keys == k.Keys
    requires Sub(nil, h, T(a, x, cx, T(b, y, cy, c)), x, p)
    requires k[x] == h[x].(parent := y, right := Ptr(nil, b))
    requires k[y] == h[y].(parent := p, left := x)
    requires b.T? ==> b.x in h && k[b.x] == h[b.x].(parent := x)
    requires SameCells(h, k, Nodes(a) + Nodes(b) - {Ptr(nil, b)} + Nodes(c))
    ensures Sub(nil, k, T(T(a, x, cx, b), y, cy, c), y, p)
  {
    assert Sub(nil, h, T(b, y, cy, c), y, x);
    assert Sub(nil, h, b, h[y].left, y) && Sub(nil, h, c, h[y].right, y);
    SubFrame(nil, h, k, a, h[x].left, x);
    SubFrame(nil, h, k, c, h[y].right, y);
    Reparent(nil, h, k, b, y, x);
    assert Sub(nil, k, T(a, x, cx, b), x, y);
  }

  function RotL(t: Tree): Tree
    requires t.T? && t.r.T?
  {
    T(T(t.l, t.x, t.c, t.r.l), t.r.x, t.r.c, t.r.r)
  }

  /** `x` has a right child, and the nodes that a left rotation writes are different ones. */
  ghost predicate TurnableLeft(nil: Node, h: Heap, x: Node)
  {
    && x in h && h[x].right in h && x != h[x].right
    && var y := h[x].right;
       && (h[y].left == nil || (h[y].left in h && h[y].left !in {x, y}))
       && (h[x].parent == nil || (h[x].parent in h && h[x].parent !in {x, y, h[y].left}))
  }

  /** The first writes of `rotate_left`: the inner grandchild goes over to `x`. */
  function InnerGivenLeft(nil: Node, h: Heap, x: Node): Heap
    requires TurnableLeft(nil, h, x)
  {
    var b := h[h[x].right].left;
    var k := h[x := h[x].(right := b)];
    if b == nil then k else k[b := h[b].(parent := x)]
  }

  /** The next ones: `y` goes where `x` hangs. */
  function PassedUpLeft(nil: Node, h: Heap, x: Node, y: Node): Heap
    requires x in h && y in h && (h[x].parent == nil || h[x].parent in h)
  {
    var p := h[x].parent;
    var k := h[y := h[y].(parent := p)];
    if p == nil then k
    else k[p := if k[p].left == x then k[p].(left := y) else k[p].(right := y)]
  }

  /** The last ones: `x` goes below `y`. */
  function PutBelowLeft(h: Heap, x: Node, y: Node): Heap
    requires x in h && y in h
  {
    var k := h[y := h[y].(left := x)];
    k[x := k[x].(parent := y)]
  }

  /** The pointer writes of `rotate_left` at `x` lead from heap `h` to heap `k`. */
  ghost predicate TurnedLeft(nil: Node, h: Heap, k: Heap, root: Node, root': Node, x: Node)
    requires TurnableLeft(nil, h, x) && h.Keys == k.Keys
  {
    var y := h[x].right;
    var b := h[y].left;
    var p := h[x].parent;
    && k[x] == h[x].(parent := y, right := b)
    && k[y] == h[y].(parent := p, left := x)
    && (b != nil ==> k[b] == h[b].(parent := x))
    && (p != nil ==> k[p] == if h[p].left == x then h[p].(left := y) else h[p].(right := y))
    && root' == (if p == nil then y else root)
    && SameCells(h, k, h.Keys - {x, y, b, p})
  }

  lemma TurnLeftWrites(nil: Node, h: Heap, root: Node, x: Node)
    requires nil !in h && TurnableLeft(nil, h, x)
    ensures var y, h' := h[x].right, InnerGivenLeft(nil, h, x);
            h'.Keys == h.Keys && h'[x].parent == h[x].parent && h[x].parent !in {x, y}
    ensures var y, h' := h[x].right, InnerGivenLeft(nil, h, x);
            var k := PutBelowLeft(PassedUpLeft(nil, h', x, y), x, y);
            k.Keys == h.Keys && TurnedLeft(nil, h, k, root, if h[x].parent == nil then y else root, x)
  {
  }

  /** What is known of a tree that is linked up in the heap, at the gap of `z`. */
  lemma Open(nil: Node, h: Heap, root: Node, z: Ctx, t: Tree)
    requires Formed(nil, h, Plug(z, t), root)
    ensures CtxDistinct(z) && Distinct(t) && CtxNodes(z) !! Nodes(t) && h.Keys == CtxNodes(z) + Nodes(t)
    ensures Hang(nil, h, z, Ptr(nil, t), root) && Sub(nil, h, t, Ptr(nil, t), Above(nil, z))
    ensures t.T? ==> t.x in h && h[t.x] == Cell(Above(nil, z), Ptr(nil, t.l), Ptr(nil, t.r), t.c)
    ensures Above(nil, z) != nil ==> Above(nil, z) in CtxNodes(z)
    ensures z.InL? ==> z.x in h && h[z.x] == Cell(Above(nil, z.up), Ptr(nil, t), Ptr(nil, z.r), z.c)
    ensures z.InR? ==> z.x in h && h[z.x] == Cell(Above(nil, z.up), Ptr(nil, z.l), Ptr(nil, t), z.c)
    ensures z.Top? ==> root == Ptr(nil, t)
  {
    PlugNodes(z, t);
    PlugDistinct(z, t);
    Unplug(nil, h, z, t, root);
  }

  /** A left rotation keeps the nodes and their order. */
  lemma RotateLeftOrder(z: Ctx, t: Tree)
    requires t.T? && t.r.T?
    ensures InOrder(Plug(z, RotL(t))) == InOrder(Plug(z, t))
    ensures Nodes(Plug(z, RotL(t))) == Nodes(Plug(z, t))
    ensures Distinct(Plug(z, RotL(t))) <==> Distinct(Plug(z, t))
  {
    RotateLeftOrderLocal(t);
    PlugInOrder(z, t);
    PlugInOrder(z, RotL(t));
    PlugNodes(z, t);
    PlugNodes(z, RotL(t));
    PlugDistinct(z, t);
    PlugDistinct(z, RotL(t));
  }

  lemma RotateLeftOrderLocal(t: Tree)
    requires t.T? && t.r.T?
    ensures InOrder(RotL(t)) == InOrder(t)
    ensures Nodes(RotL(t)) == Nodes(t)
    ensures Distinct(RotL(t)) <==> Distinct(t)
  {
    assert t.r == T(t.r.l, t.r.x, t.r.c, t.r.r);
  }

  lemma LeftRotatable(nil: Node, h: Heap, root: Node, z: Ctx, t: Tree)
    requires t.T? && t.r.T?
    requires Formed(nil, h, Plug(z, t), root)
    ensures TurnableLeft(nil, h, t.x) && h[t.x].right == t.r.x && h[t.r.x].left == Ptr(nil, t.r.l)
  {
    Open(nil, h, root, z, t);
    assert Sub(nil, h, t.r, h[t.x].right, t.x) && Sub(nil, h, t.r.l, h[t.r.x].left, t.r.x);
    assert t.r.x in Nodes(t.r);
    assert t.r.l.T? ==> t.r.l.x in Nodes(t.r.l);
  }

  lemma LeftTurnHang(nil: Node, h: Heap, k: Heap, root: Node, root': Node, z: Ctx, t: Tree)
    requires t.T? && t.r.T?
    requires h.Keys == k.Keys && Formed(nil, h, Plug(z, t), root)
    requires TurnableLeft(nil, h, t.x) && TurnedLeft(nil, h, k, root, root', t.x)
    ensures Hang(nil, k, z, t.r.x, root')
  {
    LeftRotatable(nil, h, root, z, t);
    Open(nil, h, root, z, t);
    assert t.x in Nodes(t) && t.r.x in Nodes(t);
    assert t.r.l.T? ==> t.r.l.x in Nodes(t.r) && t.r.l.x in Nodes(t);
    Rehang(nil, h, k, z, t.x, t.r.x, root, root');
  }

  lemma LeftTurnSub(nil: Node, h: Heap, k: Heap, root: Node, root': Node, z: Ctx, t: Tree)
    requires t.T? && t.r.T?
    requires h.Keys == k.Keys && Formed(nil, h, Plug(z, t), root)
    requires TurnableLeft(nil, h, t.x) && TurnedLeft(nil, h, k, root, root', t.x)
    ensures Sub(nil, k, RotL(t), t.r.x, Above(nil, z))
  {
    LeftRotatable(nil, h, root, z, t);
    Open(nil, h, root, z, t);
    assert Above(nil, z) !in Nodes(t);
    assert t == T(t.l, t.x, t.c, T(t.r.l, t.r.x, t.r.c, t.r.r));
    RotateLeftLinks(nil, h, k, Above(nil, z), t.l, t.x, t.c, t.r.l, t.r.x, t.r.c, t.r.r);
  }

  /** The pointer writes of `rotate_left` realise the rotation of the tree. */
  lemma RotateLeftWhole(nil: Node, h: Heap, k: Heap, root: Node, root': Node, z: Ctx, t: Tree)
    requires t.T? && t.r.T?
    requires h.Keys == k.Keys && Formed(nil, h, Plug(z, t), root)
    requires TurnableLeft(nil, h, t.x) && TurnedLeft(nil, h, k, root, root', t.x)
    ensures Formed(nil, k, Plug(z, RotL(t)), root')
  {
    RotateLeftOrder(z, t);
    LeftTurnSub(nil, h, k, root, root', z, t);
    LeftTurnHang(nil, h, k, root, root', z, t);
    Unplug(nil, k, z, RotL(t), root');
  }

  // ---- The mirror image, which turns left rotations into right ones ----

  function Mirror(t: Tree): Tree
  {
    match t
    case Leaf => Leaf
    case T(l, x, c, r) => T(Mirror(r), x, c, Mirror(l))
  }

  function MirrorCtx(z: Ctx): Ctx
  {
    match z
    case Top => Top
    case InL(up, x, c, r) => InR(Mirror(r), x, c, MirrorCtx(up))
    case InR(l, x, c, up) => InL(MirrorCtx(up), x, c, Mirror(l))
  }

  function Flip(h: Heap): Heap
  {
    map w | w in h :: Cell(h[w].parent, h[w].right, h[w].left, h[w].color)
  }

  ghost predicate TurnableRight(nil: Node, h: Heap, x: Node)
  {
    && x in h && h[x].left in h && x != h[x].left
    && var y := h[x].left;
       && (h[y].right == nil || (h[y].right in h && h[y].right !in {x, y}))
       && (h[x].parent == nil || (h[x].parent in h && h[x].parent !in {x, y, h[y].right}))
  }

  /** The first writes of `rotate_right`: the inner grandchild goes over to `x`. */
  function InnerGivenRight(nil: Node, h: Heap, x: Node): Heap
    requires TurnableRight(nil, h, x)
  {
    var b := h[h[x].left].right;
    var k := h[x := h[x].(left := b)];
    if b == nil then k else k[b := h[b].(parent := x)]
  }

  /** The next ones: `y` goes where `x` hangs. */
  function PassedUpRight(nil: Node, h: Heap, x: Node, y: Node): Heap
    requires x in h && y in h && (h[x].parent == nil || h[x].parent in h)
  {
    var p := h[x].parent;
    var k := h[y := h[y].(parent := p)];
    if p == nil then k
    else k[p := if k[p].right == x then k[p].(right := y) else k[p].(left := y)]
  }

  /** The last ones: `x` goes below `y`. */
  function PutBelowRight(h: Heap, x: Node, y: Node): Heap
    requires x in h && y in h
  {
    var k := h[y := h[y].(right := x)];
    k[x := k[x].(parent := y)]
  }

  /** The pointer writes of `rotate_right` at `x` lead from heap `h` to heap `k`. */
  ghost predicate TurnedRight(nil: Node, h: Heap, k: Heap, root: Node, root': Node, x: Node)
    requires TurnableRight(nil, h, x) && h.Keys == k.Keys
  {
    var y := h[x].left;
    var b := h[y].right;
    var p := h[x].parent;
    && k[x] == h[x].(parent := y, left := b)
    && k[y] == h[y].(parent := p, right := x)
    && (b != nil ==> k[b] == h[b].(parent := x))
    && (p != nil ==> k[p] == if h[p].right == x then h[p].(right := y) else h[p].(left := y))
    && root' == (if p == nil then y else root)
    && SameCells(h, k, h.Keys - {x, y, b, p})
  }

  lemma TurnRightWrites(nil: Node, h: Heap, root: Node, x: Node)
    requires nil !in h && TurnableRight(nil, h, x)
    ensures var y, h' := h[x].left, InnerGivenRight(nil, h, x);
            h'.Keys == h.Keys && h'[x].parent == h[x].parent && h[x].parent !in {x, y}
    ensures var y, h' := h[x].left, InnerGivenRight(nil, h, x);
            var k := PutBelowRight(PassedUpRight(nil, h', x, y), x, y);
            k.Keys == h.Keys && TurnedRight(nil, h, k, root, if h[x].parent == nil then y else root, x)
  {
  }

  function RotR(t: Tree): Tree
    requires t.T? && t.l.T?
  {
    T(t.l.l, t.l.x, t.l.c, T(t.l.r, t.x, t.c, t.r))
  }

  lemma {:induction false} MirrorPlug(z: Ctx, t: Tree)
    ensures Mirror(Plug(z, t)) == Plug(MirrorCtx(z), Mirror(t))
  {
    match z
    case Top =>
    case InL(up, x, c, r) => MirrorPlug(up, T(t, x, c, r));
    case InR(l, x, c, up) => MirrorPlug(up, T(l, x, c, t));
  }

  lemma {:induction false} MirrorNodes(t: Tree)
    ensures Nodes(Mirror(t)) == Nodes(t)
    ensures Distinct(Mirror(t)) <==> Distinct(t)
  {
    if t.T? {
      MirrorNodes(t.l);
      MirrorNodes(t.r);
    }
  }

  lemma {:induction false} MirrorSub(nil: Node, h: Heap, t: Tree, n: Node, p: Node)
    ensures Sub(nil, Flip(h), Mirror(t), n, p) <==> Sub(nil, h, t, n, p)
  {
    if t.T? && t.x in h {
      MirrorSub(nil, h, t.l, h[t.x].left, t.x);
      MirrorSub(nil, h, t.r, h[t.x].right, t.x);
    }
  }

  lemma MirrorFormed(nil: Node, h: Heap, t: Tree, root: Node)
    ensures Formed(nil, Flip(h), Mirror(t), root) <==> Formed(nil, h, t, root)
  {
    MirrorNodes(t);
    MirrorSub(nil, h, t, root, nil);
  }

  lemma RotateRightOrder(z: Ctx, t: Tree)
    requires t.T? && t.l.T?
    ensures InOrder(Plug(z, RotR(t))) == InOrder(Plug(z, t))
    ensures Nodes(Plug(z, RotR(t))) == Nodes(Plug(z, t))
    ensures Distinct(Plug(z, RotR(t))) <==> Distinct(Plug(z, t))
  {
    assert RotL(RotR(t)) == t;
    RotateLeftOrder(z, RotR(t));
  }

  lemma RightRotatable(nil: Node, h: Heap, root: Node, z: Ctx, t: Tree)
    requires t.T? && t.l.T?
    requires Formed(nil, h, Plug(z, t), root)
    ensures TurnableRight(nil, h, t.x) && h[t.x].left == t.l.x && h[t.l.x].right == Ptr(nil, t.l.r)
  {
    MirrorPlug(z, t);
    MirrorFormed(nil, h, Plug(z, t), root);
    assert Mirror(t).r.l == Mirror(t.l.r);
    LeftRotatable(nil, Flip(h), root, MirrorCtx(z), Mirror(t));
  }

  /** The pointer writes of `rotate_right` realise the opposite rotation. */
  lemma RotateRightWhole(nil: Node, h: Heap, k: Heap, root: Node, root': Node, z: Ctx, t: Tree)
    requires t.T? && t.l.T?
    requires h.Keys == k.Keys && Formed(nil, h, Plug(z, t), root)
    requires TurnableRight(nil, h, t.x) && TurnedRight(nil, h, k, root, root', t.x)
    ensures Formed(nil, k, Plug(z, RotR(t)), root')
  {
    MirrorPlug(z, t);
    MirrorPlug(z, RotR(t));
    MirrorFormed(nil, h, Plug(z, t), root);
    MirrorFormed(nil, k, Plug(z, RotR(t)), root');
    assert RotL(Mirror(t)) == Mirror(RotR(t));
    RotateLeftWhole(nil, Flip(h), Flip(k), root, root', MirrorCtx(z), Mirror(t));
  }

  // ---- Recolouring and attaching ----

  lemma PaintFormed(nil: Node, h: Heap, root: Node, z: Ctx, t: Tree, c: Color)
    requires t.T? && Formed(nil, h, Plug(z, t), root)
    ensures t.x in h && Formed(nil, h[t.x := h[t.x].(color := c)], Plug(z, t.(c := c)), root)
    ensures InOrder(Plug(z, t.(c := c))) == InOrder(Plug(z, t))
  {
    Open(nil, h, root, z, t);
    var k := h[t.x := h[t.x].(color := c)];
    SubFrame(nil, h, k, t.l, h[t.x].left, t.x);
    SubFrame(nil, h, k, t.r, h[t.x].right, t.x);
    HangFrame(nil, h, k, z, t.x, root);
    Unplug(nil, k, z, t.(c := c), root);
    PlugNodes(z, t);
    PlugNodes(z, t.(c := c));
    PlugDistinct(z, t.(c := c));
    PlugInOrder(z, t);
    PlugInOrder(z, t.(c := c));
  }

  /** Cells `k` are `h` plus the red leaf `d`, hung into the gap of `z`. */
  ghost predicate Attached(nil: Node, h: Heap, k: Heap, root: Node, root': Node, z: Ctx, d: Node)
  {
    && d !in h && d != nil
    && k.Keys == h.Keys + {d} && k[d] == Cell(Above(nil, z), nil, nil, Red)
    && root' == (if z.Top? then d else root)
    && (!z.Top? ==> z.x in h && k[z.x] == Redirect(z, h[z.x], d))
    && SameCells(h, k, h.Keys - {Above(nil, z)})
  }

  lemma AttachHang(nil: Node, h: Heap, k: Heap, root: Node, root': Node, z: Ctx, d: Node)
    requires Formed(nil, h, Plug(z, Leaf), root) && Attached(nil, h, k, root, root', z, d)
    ensures Hang(nil, k, z, d, root')
  {
    Open(nil, h, root, z, Leaf);
    Rehang(nil, h, k, z, nil, d, root, root');
  }

  lemma AttachFormed(nil: Node, h: Heap, k: Heap, root: Node, root': Node, z: Ctx, d: Node)
    requires Formed(nil, h, Plug(z, Leaf), root) && Attached(nil, h, k, root, root', z, d)
    ensures Formed(nil, k, Plug(z, T(Leaf, d, Red, Leaf)), root')
    ensures InOrder(Plug(z, T(Leaf, d, Red, Leaf))) == Before(z) + [d] + After(z)
  {
    var t := T(Leaf, d, Red, Leaf);
    PlugNodes(z, Leaf);
    PlugDistinct(z, Leaf);
    AttachHang(nil, h, k, root, root', z, d);
    Unplug(nil, k, z, t, root');
    PlugNodes(z, t);
    PlugDistinct(z, t);
    PlugInOrder(z, t);
  }
}
