/** The red-black tree over linked nodes. */
module RbTrees {
  import opened Names
  import opened Powers
  import opened RbShape
  import opened RbOrder
  import opened RbBalance
  import opened RbLinks
  import opened RbSwap

  /** `ramfs_rbtree_t`. `nil` is the null node, which many trees may share; `tree` records the
      shape that the links have, `cells` the fields of its nodes, and `rotations` how many
      rotations were ever made. */
  class RbTree {
    const nil: Node
    var root: Node
    var count: int
    ghost var tree: Tree
    ghost var cells: Heap
    ghost var rotations: nat

    constructor (nil: Node)
      requires nil.parent == nil.left == nil.right == nil && nil.color == Black
      ensures this.nil == nil && tree == Leaf && cells == map[] && Valid()
    {
      this.nil, root, count, tree, cells, rotations := nil, nil, 0, Leaf, map[], 0;
    }

    /** `cells` is what the heap holds. */
    ghost predicate Mirrored()
      reads this, cells.Keys
    {
      && (forall w {:trigger w.parent} :: w in cells ==> w.parent == cells[w].parent)
      && (forall w {:trigger w.left} :: w in cells ==> w.left == cells[w].left)
      && (forall w {:trigger w.right} :: w in cells ==> w.right == cells[w].right)
      && (forall w {:trigger w.color} :: w in cells ==> w.color == cells[w].color)
    }

    /** Links, parents and colours are those of `tree`; the null node is black and self-linked. */
    ghost predicate Linked()
      reads this, nil, cells.Keys
    {
      && Mirrored() && Formed(nil, cells, tree, root)
      && nil.parent == nil.left == nil.right == nil && nil.color == Black
    }

    /** The fields of a node, and of the node above it, read off its place in the tree. */
    lemma At(z: Ctx, t: Tree)
      requires Linked() && tree == Plug(z, t)
      ensures t.T? ==> t.x in cells && t.x.parent == Above(nil, z) && t.x.color == t.c
                       && t.x.left == Ptr(nil, t.l) && t.x.right == Ptr(nil, t.r)
                       && (t.x.left == nil <==> t.l.Leaf?) && (t.x.right == nil <==> t.r.Leaf?)
      ensures root == nil <==> tree.Leaf?
      ensures t.T? ==> (t.x == root <==> z.Top?)
      ensures z.InL? ==> z.x in cells && z.x.left == Ptr(nil, t) && z.x.right == Ptr(nil, z.r)
                         && z.x.parent == Above(nil, z.up) && z.x.color == z.c
      ensures z.InR? ==> z.x in cells && z.x.right == Ptr(nil, t) && z.x.left == Ptr(nil, z.l)
                         && z.x.parent == Above(nil, z.up) && z.x.color == z.c
      ensures z.InL? && t.T? ==> z.x.right != t.x
      ensures z.InR? && t.T? ==> z.x.left != t.x
    {
      Open(nil, cells, root, z, t);
      Open(nil, cells, root, Top, tree);
    }

    /** The node next to the gap has the colour recorded for it; a missing one counts as black. */
    lemma UncleColor(z: Ctx, t: Tree)
      requires Linked() && tree == Plug(z, t)
      ensures z.InL? ==> (Ptr(nil, z.r).color == Red <==> IsRed(z.r))
      ensures z.InR? ==> (Ptr(nil, z.l).color == Red <==> IsRed(z.l))
    {
      match z
      case Top =>
      case InL(up, x, c, r) => At(InR(t, x, c, up), r);
      case InR(l, x, c, up) => At(InL(up, x, c, t), l);
    }

    /** `ramfs_rbtree_rotate_left`, first part: the right child's left child goes over to `node`. */
    method GiveInnerLeft(node: Node)
      requires Mirrored() && nil !in cells && TurnableLeft(nil, cells, node)
      modifies this`cells, cells.Keys
      ensures Mirrored() && cells == InnerGivenLeft(nil, old(cells), node)
    {
      ghost var h := cells;
      var right := node.right;
      node.right := right.left;
      if right.left != nil {
        right.left.parent := node;
      }
      cells := InnerGivenLeft(nil, h, node);
    }

    /** Second part: the right child takes the place of `node`. */
    method PassUpLeft(node: Node, right: Node)
      requires Mirrored() && nil !in cells && node in cells && right in cells && node != right
      requires node.parent == nil || (node.parent in cells && node.parent !in {node, right})
      modifies this`root, this`cells, cells.Keys
      ensures Mirrored() && cells == PassedUpLeft(nil, old(cells), node, right)
      ensures root == if old(cells)[node].parent == nil then right else old(root)
    {
      ghost var h := cells;
      right.parent := node.parent;
      if node.parent != nil {
        if node == node.parent.left {
          node.parent.left := right;
        } else {
          node.parent.right := right;
        }
      } else {
        root := right;
      }
      cells := PassedUpLeft(nil, h, node, right);
    }

    /** Last part: `node` goes below what was its right child. */
    method PutUnderLeft(node: Node, right: Node)
      requires Mirrored() && node in cells && right in cells
      modifies this`cells, node, right
      ensures Mirrored() && cells == PutBelowLeft(old(cells), node, right)
    {
      right.left := node;
      node.parent := right;
      cells := PutBelowLeft(cells, node, right);
    }

    /** The pointer writes of `ramfs_rbtree_rotate_left`. */
    method TurnLeft(node: Node)
      requires Mirrored() && nil !in cells && TurnableLeft(nil, cells, node)
      modifies this`root, this`cells, cells.Keys
      ensures Mirrored() && cells.Keys == old(cells.Keys)
      ensures TurnedLeft(nil, old(cells), cells, old(root), root, node)
    {
      TurnLeftWrites(nil, cells, root, node);
      var right := node.right;
      GiveInnerLeft(node);
      PassUpLeft(node, right);
      PutUnderLeft(node, right);
    }

    method RotateLeft(node: Node, ghost z: Ctx, ghost t: Tree)
      requires Linked() && tree == Plug(z, t)
      requires t.T? && t.r.T? && t.x == node
      modifies this`root, this`tree, this`cells, this`rotations, cells.Keys
      ensures Linked() && tree == Plug(z, RotL(t))
      ensures cells.Keys == old(cells.Keys) && InOrder(tree) == old(InOrder(tree))
      ensures rotations == old(rotations) + 1
    {
      LeftRotatable(nil, cells, root, z, t);
      TurnLeft(node);
      RotateLeftOrder(z, t);
      RotateLeftWhole(nil, old(cells), cells, old(root), root, z, t);
      tree, rotations := Plug(z, RotL(t)), rotations + 1;
    }

    /** `ramfs_rbtree_rotate_right`, first part: the left child's right child goes over to `node`. */
    method GiveInnerRight(node: Node)
      requires Mirrored() && nil !in cells && TurnableRight(nil, cells, node)
      modifies this`cells, cells.Keys
      ensures Mirrored() && cells == InnerGivenRight(nil, old(cells), node)
    {
      ghost var h := cells;
      var left := node.left;
      node.left := left.right;
      if left.right != nil {
        left.right.parent := node;
      }
      cells := InnerGivenRight(nil, h, node);
    }

    /** Second part: the left child takes the place of `node`. */
    method PassUpRight(node: Node, left: Node)
      requires Mirrored() && nil !in cells && node in cells && left in cells && node != left
      requires node.parent == nil || (node.parent in cells && node.parent !in {node, left})
      modifies this`root, this`cells, cells.Keys
      ensures Mirrored() && cells == PassedUpRight(nil, old(cells), node, left)
      ensures root == if old(cells)[node].parent == nil then left else old(root)
    {
      ghost var h := cells;
      left.parent := node.parent;
      if node.parent != nil {
        if node == node.parent.right {
          node.parent.right := left;
        } else {
          node.parent.left := left;
        }
      } else {
        root := left;
      }
      cells := PassedUpRight(nil, h, node, left);
    }

    /** Last part: `node` goes below what was its left child. */
    method PutUnderRight(node: Node, left: Node)
      requires Mirrored() && node in cells && left in cells
      modifies this`cells, node, left
      ensures Mirrored() && cells == PutBelowRight(old(cells), node, left)
    {
      left.right := node;
      node.parent := left;
      cells := PutBelowRight(cells, node, left);
    }

    /** The pointer writes of `ramfs_rbtree_rotate_right`. */
    method TurnRight(node: Node)
      requires Mirrored() && nil !in cells && TurnableRight(nil, cells, node)
      modifies this`root, this`cells, cells.Keys
      ensures Mirrored() && cells.Keys == old(cells.Keys)
      ensures TurnedRight(nil, old(cells), cells, old(root), root, node)
    {
      TurnRightWrites(nil, cells, root, node);
      var left := node.left;
      GiveInnerRight(node);
      PassUpRight(node, left);
      PutUnderRight(node, left);
    }

    method RotateRight(node: Node, ghost z: Ctx, ghost t: Tree)
      requires Linked() && tree == Plug(z, t)
      requires t.T? && t.l.T? && t.x == node
      modifies this`root, this`tree, this`cells, this`rotations, cells.Keys
      ensures Linked() && tree == Plug(z, RotR(t))
      ensures cells.Keys == old(cells.Keys) && InOrder(tree) == old(InOrder(tree))
      ensures rotations == old(rotations) + 1
    {
      RightRotatable(nil, cells, root, z, t);
      TurnRight(node);
      RotateRightOrder(z, t);
      RotateRightWhole(nil, old(cells), cells, old(root), root, z, t);
      tree, rotations := Plug(z, RotR(t)), rotations + 1;
    }

    /** `x->color = c`. */
    method Paint(x: Node, c: Color, ghost z: Ctx, ghost t: Tree)
      requires Linked() && tree == Plug(z, t)
      requires t.T? && t.x == x
      modifies this`tree, this`cells, cells.Keys
      ensures Linked() && tree == Plug(z, t.(c := c))
      ensures cells.Keys == old(cells.Keys) && InOrder(tree) == old(InOrder(tree))
    {
      PaintFormed(nil, cells, root, z, t, c);
      x.color := c;
      cells, tree := cells[x := cells[x].(color := c)], Plug(z, t.(c := c));
    }

    /** The first two paints of that case: the parent and the uncle. */
    method BlackenBothLeft(parent: Node, uncle: Node, ghost z: Ctx, ghost t: Tree)
      requires Linked() && tree == Plug(z, t)
      requires !z.Top? && z.x == parent && z.up.InL? && z.up.c == Black && z.up.r.T? && z.up.r.x == uncle
      modifies this`tree, this`cells, cells.Keys
      ensures var f, g, u := Lift(z, t), z.up.x, z.up.r;
              var s := f.(c := Black);
              Linked() && tree == Plug(z.up.up, T(s, g, Black, u.(c := Black)))
      ensures cells.Keys == old(cells.Keys) && InOrder(tree) == old(InOrder(tree))
    {
      ghost var f, g, u, top := Lift(z, t), z.up.x, z.up.r, z.up.up;
      ghost var s := f.(c := Black);
      Paint(parent, Black, z.up, Lift(z, t));
      Paint(uncle, Black, InR(s, g, Black, top), u);
    }

    /** Insert fixup, parent a left child, uncle red: recolour and move up two levels. */
    method RecolorLeft(node: Node, ghost z: Ctx, ghost t: Tree, ghost n: int)
      returns (next: Node, ghost z': Ctx, ghost t': Tree, ghost n': int)
      requires Linked() && tree == Plug(z, t)
      requires t.T? && t.x == node && t.c == Red && Ok(t, n) && CtxOk(z, n)
      requires !z.Top? && z.c == Red && z.up.InL?
      requires IsRed(z.up.r)
      modifies this`root, this`tree, this`cells, this`rotations, cells.Keys
      ensures Linked() && tree == Plug(z', t')
      ensures t'.T? && t'.x == next && t'.c == Red && Ok(t', n') && CtxOk(z', n')
      ensures cells.Keys == old(cells.Keys) && InOrder(tree) == old(InOrder(tree))
      ensures Depth(z') + 2 == Depth(z)
      ensures rotations == old(rotations)
    {
      ghost var g, u, top := z.up.x, z.up.r, z.up.up;
      ghost var f := Lift(z, t);
      ghost var s := f.(c := Black);
      At(z, t);
      At(z.up, Lift(z, t));
      var parent, grand := node.parent, node.parent.parent;
      var uncle := grand.right;
      BlackenBothLeft(parent, uncle, z, t);
      Paint(grand, Red, top, T(s, g, Black, u.(c := Black)));
      next, z', t', n' := grand, top, T(s, g, Red, u.(c := Black)), n + 1;
    }

    /** Insert fixup, parent a left child, node its left child, uncle black: one rotation at the
        grandparent. */
    method RaiseLeft(node: Node, ghost z: Ctx, ghost t: Tree, ghost n: int) returns (ghost z': Ctx)
      requires Linked() && tree == Plug(z, t)
      requires t.T? && t.x == node && t.c == Red && Ok(t, n) && CtxOk(z, n)
      requires !z.Top? && z.c == Red && z.up.InL?
      requires z.InL? && !IsRed(z.up.r)
      modifies this`root, this`tree, this`cells, this`rotations, cells.Keys
      ensures Linked() && tree == Plug(z', t) && CtxOk(z', n) && !WantsBlack(z')
      ensures cells.Keys == old(cells.Keys) && InOrder(tree) == old(InOrder(tree))
      ensures Depth(z') < Depth(z) && rotations == old(rotations) + 1
    {
      ghost var g, u, top := z.up.x, z.up.r, z.up.up;
      ghost var f := Lift(z, t);
      ghost var s := f.(c := Black);
      At(z, t);
      At(z.up, Lift(z, t));
      var parent, grand := node.parent, node.parent.parent;
      Paint(parent, Black, z.up, Lift(z, t));
      Paint(grand, Red, top, T(s, g, Black, u));
      RotateRight(grand, top, T(s, g, Red, u));
      z' := InL(top, z.x, Black, T(z.r, g, Red, u));
    }

    /** Insert fixup, parent a left child, uncle black: one or two rotations finish the work. */
    method RestructureLeft(node: Node, ghost z: Ctx, ghost t: Tree, ghost n: int)
      returns (next: Node, ghost z': Ctx, ghost t': Tree)
      requires Linked() && tree == Plug(z, t)
      requires t.T? && t.x == node && t.c == Red && Ok(t, n) && CtxOk(z, n)
      requires !z.Top? && z.c == Red && z.up.InL?
      requires !IsRed(z.up.r)
      modifies this`root, this`tree, this`cells, this`rotations, cells.Keys
      ensures Linked() && tree == Plug(z', t')
      ensures t'.T? && t'.x == next && t'.c == Red && Ok(t', n) && CtxOk(z', n)
      ensures cells.Keys == old(cells.Keys) && InOrder(tree) == old(InOrder(tree))
      ensures Depth(z') < Depth(z)
      ensures !WantsBlack(z') && rotations <= old(rotations) + 2
    {
      At(z, t);
      next, z', t' := node, z, t;
      if node == node.parent.right {
        next := node.parent;
        RotateLeft(next, z.up, Lift(z, t));
        z', t' := InL(z.up, node, Red, t.r), T(z.l, z.x, Red, t.l);
      }
      z' := RaiseLeft(next, z', t', n);
    }

    /** The first two paints of that case: the parent and the uncle. */
    method BlackenBothRight(parent: Node, uncle: Node, ghost z: Ctx, ghost t: Tree)
      requires Linked() && tree == Plug(z, t)
      requires !z.Top? && z.x == parent && z.up.InR? && z.up.c == Black && z.up.l.T? && z.up.l.x == uncle
      modifies this`tree, this`cells, cells.Keys
      ensures var f, g, u := Lift(z, t), z.up.x, z.up.l;
              var s := f.(c := Black);
              Linked() && tree == Plug(z.up.up, T(u.(c := Black), g, Black, s))
      ensures cells.Keys == old(cells.Keys) && InOrder(tree) == old(InOrder(tree))
    {
      ghost var f, g, u, top := Lift(z, t), z.up.x, z.up.l, z.up.up;
      ghost var s := f.(c := Black);
      Paint(parent, Black, z.up, Lift(z, t));
      Paint(uncle, Black, InL(top, g, Black, s), u);
    }

    /** Insert fixup, parent a right child, uncle red: recolour and move up two levels. */
    method RecolorRight(node: Node, ghost z: Ctx, ghost t: Tree, ghost n: int)
      returns (next: Node, ghost z': Ctx, ghost t': Tree, ghost n': int)
      requires Linked() && tree == Plug(z, t)
      requires t.T? && t.x == node && t.c == Red && Ok(t, n) && CtxOk(z, n)
      requires !z.Top? && z.c == Red && z.up.InR?
      requires IsRed(z.up.l)
      modifies this`root, this`tree, this`cells, this`rotations, cells.Keys
      ensures Linked() && tree == Plug(z', t')
      ensures t'.T? && t'.x == next && t'.c == Red && Ok(t', n') && CtxOk(z', n')
      ensures cells.Keys == old(cells.Keys) && InOrder(tree) == old(InOrder(tree))
      ensures Depth(z') + 2 == Depth(z)
      ensures rotations == old(rotations)
    {
      ghost var g, u, top := z.up.x, z.up.l, z.up.up;
      ghost var f := Lift(z, t);
      ghost var s := f.(c := Black);
      At(z, t);
      At(z.up, Lift(z, t));
      var parent, grand := node.parent, node.parent.parent;
      var uncle := grand.left;
      BlackenBothRight(parent, uncle, z, t);
      Paint(grand, Red, top, T(u.(c := Black), g, Black, s));
      next, z', t', n' := grand, top, T(u.(c := Black), g, Red, s), n + 1;
    }

    /** Insert fixup, parent a right child, node its right child, uncle black: one rotation at the
        grandparent. */
    method RaiseRight(node: Node, ghost z: Ctx, ghost t: Tree, ghost n: int) returns (ghost z': Ctx)
      requires Linked() && tree == Plug(z, t)
      requires t.T? && t.x == node && t.c == Red && Ok(t, n) && CtxOk(z, n)
      requires !z.Top? && z.c == Red && z.up.InR?
      requires z.InR? && !IsRed(z.up.l)
      modifies this`root, this`tree, this`cells, this`rotations, cells.Keys
      ensures Linked() && tree == Plug(z', t) && CtxOk(z', n) && !WantsBlack(z')
      ensures cells.Keys == old(cells.Keys) && InOrder(tree) == old(InOrder(tree))
      ensures Depth(z') < Depth(z) && rotations == old(rotations) + 1
    {
      ghost var g, u, top := z.up.x, z.up.l, z.up.up;
      ghost var f := Lift(z, t);
      ghost var s := f.(c := Black);
      At(z, t);
      At(z.up, Lift(z, t));
      var parent, grand := node.parent, node.parent.parent;
      Paint(parent, Black, z.up, Lift(z, t));
      Paint(grand, Red, top, T(u, g, Black, s));
      RotateLeft(grand, top, T(u, g, Red, s));
      z' := InR(T(u, g, Red, z.l), z.x, Black, top);
    }

    /** Insert fixup, parent a right child, uncle black: one or two rotations finish the work. */
    method RestructureRight(node: Node, ghost z: Ctx, ghost t: Tree, ghost n: int)
      returns (next: Node, ghost z': Ctx, ghost t': Tree)
      requires Linked() && tree == Plug(z, t)
      requires t.T? && t.x == node && t.c == Red && Ok(t, n) && CtxOk(z, n)
      requires !z.Top? && z.c == Red && z.up.InR?
      requires !IsRed(z.up.l)
      modifies this`root, this`tree, this`cells, this`rotations, cells.Keys
      ensures Linked() && tree == Plug(z', t')
      ensures t'.T? && t'.x == next && t'.c == Red && Ok(t', n) && CtxOk(z', n)
      ensures cells.Keys == old(cells.Keys) && InOrder(tree) == old(InOrder(tree))
      ensures Depth(z') < Depth(z)
      ensures !WantsBlack(z') && rotations <= old(rotations) + 2
    {
      At(z, t);
      next, z', t' := node, z, t;
      if node == node.parent.left {
        next := node.parent;
        RotateRight(next, z.up, Lift(z, t));
        z', t' := InR(t.l, node, Red, z.up), T(t.r, z.x, Red, z.r);
      }
      z' := RaiseRight(next, z', t', n);
    }

    /** One turn of the insert fixup: the red node below a red parent moves nearer the root, without
        a rotation, or nothing is left to mend, after at most two. */
    method RaiseTurn(node: Node, ghost z: Ctx, ghost t: Tree, ghost n: int)
      returns (next: Node, ghost z': Ctx, ghost t': Tree, ghost n': int)
      requires Linked() && tree == Plug(z, t)
      requires t.T? && t.x == node && t.c == Red && Ok(t, n) && CtxOk(z, n)
      requires !z.Top? && z.c == Red
      modifies this`root, this`tree, this`cells, this`rotations, cells.Keys
      ensures Linked() && tree == Plug(z', t')
      ensures t'.T? && t'.x == next && t'.c == Red && Ok(t', n') && CtxOk(z', n')
      ensures cells.Keys == old(cells.Keys) && InOrder(tree) == old(InOrder(tree))
      ensures Depth(z') < Depth(z)
      ensures rotations <= old(rotations) + if WantsBlack(z') then 0 else 2
    {
      At(z, t);
      At(z.up, Lift(z, t));
      UncleColor(z.up, Lift(z, t));
      n' := n;
      if node.parent == node.parent.parent.left {
        var uncle := node.parent.parent.right;
        if uncle.color == Red {
          next, z', t', n' := RecolorLeft(node, z, t, n);
        } else {
          next, z', t' := RestructureLeft(node, z, t, n);
        }
      } else {
        var uncle := node.parent.parent.left;
        if uncle.color == Red {
          next, z', t', n' := RecolorRight(node, z, t, n);
        } else {
          next, z', t' := RestructureRight(node, z, t, n);
        }
      }
    }

    method InsertFixup(node: Node, ghost z: Ctx, ghost t: Tree, ghost n: nat)
      requires Linked() && tree == Plug(z, t)
      requires t.T? && t.x == node && t.c == Red && Ok(t, n) && CtxOk(z, n)
      modifies this`root, this`tree, this`cells, this`rotations, cells.Keys
      ensures Linked() && RedBlack(tree)
      ensures cells.Keys == old(cells.Keys) && InOrder(tree) == old(InOrder(tree))
      ensures rotations <= old(rotations) + 2
    {
      var node := node;
      ghost var z, t, n: int := z, t, n;
      At(z, t);
      while node != root && node.parent.color == Red
        invariant Linked() && tree == Plug(z, t)
        invariant t.T? && t.x == node && t.c == Red && Ok(t, n) && CtxOk(z, n)
        invariant cells.Keys == old(cells.Keys) && InOrder(tree) == old(InOrder(tree))
        invariant rotations <= old(rotations) + if WantsBlack(z) then 0 else 2
        decreases Depth(z)
      {
        At(z, t);
        node, z, t, n := RaiseTurn(node, z, t, n);
      }
      BlackenRoot(z, t, n);
    }

    /** The last line of the insert fixup. */
    method BlackenRoot(ghost z: Ctx, ghost t: Tree, ghost n: int)
      requires Linked() && tree == Plug(z, t)
      requires t.T? && t.c == Red && Ok(t, n) && CtxOk(z, n)
      requires t.x == root || t.x.parent.color == Black
      modifies this`tree, this`cells, cells.Keys
      ensures Linked() && RedBlack(tree)
      ensures cells.Keys == old(cells.Keys) && InOrder(tree) == old(InOrder(tree))
    {
      At(z, t);
      if z.Top? {
        PlugBalanced(Top, t.(c := Black), n + 1);
      } else {
        PlugBalanced(z, t, n);
      }
      Paint(root, Black, Top, tree);
    }

    /** A red-black search tree with `count` nodes. */
    ghost predicate Valid()
      reads this, nil, cells.Keys
    {
      Linked() && RedBlack(tree) && Ordered(tree) && count == |InOrder(tree)|
    }

    /** The pointer above the gap of `z`, which `r` tells, leads to `data`. */
    method PointTo(data: Node, parent: Node, r: int, ghost z: Ctx)
      requires Mirrored() && nil !in cells
      requires parent == Above(nil, z) && (!z.Top? ==> parent in cells && (r < 0 <==> z.InL?))
      modifies this`root, this`cells, cells.Keys
      ensures Mirrored() && root == if z.Top? then data else old(root)
      ensures cells == if z.Top? then old(cells) else old(cells)[parent := Redirect(z, old(cells)[parent], data)]
    {
      if parent != nil {
        if r < 0 {
          parent.left := data;
        } else {
          parent.right := data;
        }
        cells := cells[parent := Redirect(z, cells[parent], data)];
      } else {
        root := data;
      }
    }

    /** The pointer writes that hang a new red leaf below `parent`. */
    method LinkIn(data: Node, parent: Node, r: int, ghost z: Ctx)
      requires Mirrored() && data != nil && data !in cells && nil !in cells
      requires parent == Above(nil, z) && (!z.Top? ==> parent in cells && (r < 0 <==> z.InL?))
      modifies this`root, this`cells, cells.Keys, data
      ensures Mirrored() && Attached(nil, old(cells), cells, old(root), root, z, data)
    {
      data.parent := parent;
      data.left, data.right := nil, nil;
      data.color := Red;
      PointTo(data, parent, r, z);
      cells := cells[data := Cell(parent, nil, nil, Red)];
    }

    method Attach(data: Node, parent: Node, r: int, ghost z: Ctx)
      requires Linked() && tree == Plug(z, Leaf)
      requires data != nil && data !in cells
      requires parent == Above(nil, z) && (!z.Top? ==> (r < 0 <==> z.InL?))
      modifies this`root, this`tree, this`cells, cells.Keys, data
      ensures Linked() && tree == Plug(z, T(Leaf, data, Red, Leaf))
      ensures cells.Keys == old(cells.Keys) + {data}
      ensures InOrder(tree) == Before(z) + [data] + After(z)
    {
      At(z, Leaf);
      LinkIn(data, parent, r, z);
      AttachFormed(nil, old(cells), cells, old(root), root, z, data);
      tree := Plug(z, T(Leaf, data, Red, Leaf));
    }

    /** The way down of insert: the parent for a new node with that key, unless the key is there. */
    method Descend(key: Name) returns (found: bool, parent: Node, r: int, ghost z: Ctx)
      requires Linked() && Ordered(tree)
      ensures found ==> key in Keys(InOrder(tree))
      ensures !found ==> tree == Plug(z, Leaf) && Around(z, key) && parent == Above(nil, z)
      ensures !found && !z.Top? ==> (r < 0 <==> z.InL?)
    {
      var node := root;
      ghost var s := tree;
      found, parent, r, z := false, nil, 0, Top;
      At(z, s);
      while node != nil
        invariant tree == Plug(z, s) && Around(z, key)
        invariant node == Ptr(nil, s) && (node == nil <==> s.Leaf?)
        invariant parent == Above(nil, z) && (!z.Top? ==> (r < 0 <==> z.InL?))
        decreases s
      {
        At(z, s);
        Compare(z, s, key);
        r := Strcmp(key, node.key);
        if r == 0 {
          found := true;
          return;
        }
        parent := node;
        if r < 0 {
          node := node.left;
          z, s := InL(z, s.x, s.c, s.r), s.l;
        } else {
          node := node.right;
          z, s := InR(s.l, s.x, s.c, z), s.r;
        }
      }
    }

    /** A new red leaf in the gap of `z`, and the colours mended. */
    method Grow(data: Node, parent: Node, r: int, ghost z: Ctx)
      requires Linked() && RedBlack(tree) && tree == Plug(z, Leaf)
      requires data != nil && data !in cells
      requires parent == Above(nil, z) && (!z.Top? ==> (r < 0 <==> z.InL?))
      modifies this`root, this`tree, this`cells, this`rotations, cells.Keys, data
      ensures Linked() && RedBlack(tree) && cells.Keys == old(cells.Keys) + {data}
      ensures InOrder(tree) == Before(z) + [data] + After(z)
      ensures rotations <= old(rotations) + 2
    {
      UnplugBalanced(z, Leaf);
      Attach(data, parent, r, z);
      InsertFixup(data, z, T(Leaf, data, Red, Leaf), 0);
    }

    /** A node of the tree has its key in the tree. */
    lemma OwnKey(node: Node)
      requires Linked() && node in cells
      ensures node.key in Keys(InOrder(tree))
    {
      InOrderNodes(tree, node);
      var i :| 0 <= i < |InOrder(tree)| && InOrder(tree)[i] == node;
      assert Keys(InOrder(tree))[i] == node.key;
    }

    /** `ramfs_rbtree_insert`. A node that is in this tree already is a duplicate of itself. */
    method Insert(data: Node) returns (result: Node?, ghost pos: nat)
      requires Valid() && data != nil
      modifies this, cells.Keys, data
      ensures Valid()
      ensures result == null <==> data.key in Keys(old(InOrder(tree)))
      ensures result == null ==> unchanged(this) && unchanged(data) && unchanged(cells.Keys)
      ensures result != null ==>
                result == data && Slot(Keys(old(InOrder(tree))), data.key, pos)
                && InOrder(tree) == old(InOrder(tree))[..pos] + [data] + old(InOrder(tree))[pos..]
                && cells.Keys == old(cells.Keys) + {data} && count == old(count) + 1
      ensures rotations <= old(rotations) + 2
    {
      var found, parent, r;
      ghost var z;
      found, parent, r, z := Descend(data.key);
      pos := 0;
      if found {
        return null, pos;
      }
      pos := |Before(z)|;
      GapIsSlot(z, data.key);
      KeyMissing(z, data.key);
      InsertKeys(InOrder(tree), data, pos);
      if data in cells {
        OwnKey(data);
      }
      count := count + 1;
      Grow(data, parent, r, z);
      result := data;
    }

    // ---- Deletion ----

    /** The sibling of the gap: its colour, its children and theirs. */
    lemma SiblingAt(z: Ctx, t: Tree)
      requires Linked() && tree == Plug(z, t) && !z.Top? && Sibling(z).T?
      ensures var s := Sibling(z);
              && s.x in cells && s.x.color == s.c
              && s.x.left == Ptr(nil, s.l) && s.x.right == Ptr(nil, s.r)
              && (s.x.left.color == Red <==> IsRed(s.l)) && (s.x.right.color == Red <==> IsRed(s.r))
              && z.x in cells && z.x.color == z.c
              && s.x != Ptr(nil, t)
              && (if z.InL? then z.x.left == Ptr(nil, t) && z.x.right == s.x
                  else z.x.right == Ptr(nil, t) && z.x.left == s.x)
    {
      At(z, t);
      var w := Across(z, t);
      var s := Sibling(z);
      At(w, s);
      UncleColor(InL(w, s.x, s.c, s.r), s.l);
      UncleColor(InR(s.l, s.x, s.c, w), s.r);
    }

    /** Next to a subtree that is one black node short there is always a sibling. */
    lemma SiblingLives(z: Ctx, t: Tree, n: nat)
      requires Linked() && tree == Plug(z, t) && CtxOk(z, n + 1)
      ensures !z.Top? ==> Sibling(z).T?
      ensures z.InL? ==> z.x.left == Ptr(nil, t) && z.x.right == z.r.x && z.r.x != Ptr(nil, t)
      ensures z.InR? ==> z.x.right == Ptr(nil, t) && z.x.left == z.l.x
    {
      At(z, t);
      if !z.Top? {
        SiblingAt(z, t);
      }
    }

    /** Delete fixup, child on the left, sibling red: a rotation gives it a black sibling. */
    method LowerLeft(parent: Node, sibling: Node, ghost z: Ctx, ghost t: Tree, ghost n: nat) returns (ghost z': Ctx)
      requires Linked() && tree == Plug(z, t) && z.InL?
      requires Ok(t, n) && !IsRed(t) && CtxOk(z, n + 1)
      requires parent == z.x && z.r.T? && sibling == z.r.x
      requires IsRed(z.r)
      modifies this`root, this`tree, this`cells, this`rotations, cells.Keys
      ensures Linked() && tree == Plug(z', t) && CtxOk(z', n + 1)
      ensures z'.InL? && z'.x == parent && z'.c == Red && !IsRed(z'.r)
      ensures cells.Keys == old(cells.Keys) && InOrder(tree) == old(InOrder(tree))
      ensures rotations == old(rotations) + 1
    {
      ghost var s, up := z.r, z.up;
      Paint(parent, Red, up, T(t, parent, z.c, s));
      Paint(sibling, Black, InR(t, parent, Red, up), s);
      RotateLeft(parent, up, T(t, parent, Red, s.(c := Black)));
      z' := InL(InL(up, sibling, Black, s.r), parent, Red, s.l);
    }

    /** Delete fixup, child on the left, only the sibling's left child red: rotate at the sibling. */
    method TwistLeft(parent: Node, sibling: Node, ghost z: Ctx, ghost t: Tree, ghost n: nat) returns (ghost z': Ctx)
      requires Linked() && tree == Plug(z, t) && z.InL?
      requires Ok(t, n) && !IsRed(t) && CtxOk(z, n + 1)
      requires parent == z.x && z.r.T? && sibling == z.r.x
      requires !IsRed(z.r) && IsRed(z.r.l) && !IsRed(z.r.r)
      modifies this`root, this`tree, this`cells, this`rotations, cells.Keys
      ensures Linked() && tree == Plug(z', t) && CtxOk(z', n + 1)
      ensures z'.InL? && z'.x == parent && z'.c == z.c && !IsRed(z'.r) && z'.r.T? && IsRed(z'.r.r)
      ensures z'.up == z.up
      ensures cells.Keys == old(cells.Keys) && InOrder(tree) == old(InOrder(tree))
      ensures rotations == old(rotations) + 1
    {
      ghost var s, y := z.r, z.r.l;
      ghost var w := InR(t, parent, z.c, z.up);
      TwistedLeft(z, n);
      At(w, s);
      var nephew := sibling.left;
      Paint(sibling, Red, w, s);
      Paint(nephew, Black, InL(w, sibling, Red, s.r), y);
      RotateRight(sibling, w, T(y.(c := Black), sibling, Red, s.r));
      z' := InL(z.up, parent, z.c, T(y.l, y.x, Black, T(y.r, sibling, Red, s.r)));
    }

    /** Delete fixup, child on the left, the sibling's right child red: exchange colours before the rotation. */
    method ShiftColorsLeft(parent: Node, sibling: Node, ghost z: Ctx, ghost t: Tree, ghost n: nat)
      requires Linked() && tree == Plug(z, t) && z.InL?
      requires Ok(t, n) && !IsRed(t) && CtxOk(z, n + 1)
      requires parent == z.x && z.r.T? && sibling == z.r.x
      requires !IsRed(z.r) && IsRed(z.r.r)
      modifies this`tree, this`cells, cells.Keys
      ensures Linked() && tree == Plug(z.up, T(t, parent, Black, T(z.r.l, sibling, z.c, z.r.r.(c := Black))))
      ensures cells.Keys == old(cells.Keys) && InOrder(tree) == old(InOrder(tree))
    {
      ghost var s, far, up := z.r, z.r.r, z.up;
      ghost var w := InR(t, parent, z.c, up);
      At(w, s);
      var nephew := sibling.right;
      At(up, T(t, parent, z.c, s));
      Paint(sibling, parent.color, w, s);
      Paint(parent, Black, up, T(t, parent, z.c, s.(c := z.c)));
      Paint(nephew, Black, InR(s.l, sibling, z.c, InR(t, parent, Black, up)), far);
    }

    /** Delete fixup, child on the left, the sibling's right child red: exchange colours, rotate, done. */
    method BorrowLeft(parent: Node, sibling: Node, ghost z: Ctx, ghost t: Tree, ghost n: nat)
      requires Linked() && tree == Plug(z, t) && z.InL?
      requires Ok(t, n) && !IsRed(t) && CtxOk(z, n + 1)
      requires parent == z.x && z.r.T? && sibling == z.r.x
      requires !IsRed(z.r) && IsRed(z.r.r)
      modifies this`root, this`tree, this`cells, this`rotations, cells.Keys
      ensures Linked() && RedBlack(tree)
      ensures cells.Keys == old(cells.Keys) && InOrder(tree) == old(InOrder(tree))
      ensures rotations == old(rotations) + 1
    {
      ShiftColorsLeft(parent, sibling, z, t, n);
      RotateLeft(parent, z.up, T(t, parent, Black, T(z.r.l, sibling, z.c, z.r.r.(c := Black))));
      BorrowedLeft(z, t, n);
    }

    /** Delete fixup, child on the right, sibling red: a rotation gives it a black sibling. */
    method LowerRight(parent: Node, sibling: Node, ghost z: Ctx, ghost t: Tree, ghost n: nat) returns (ghost z': Ctx)
      requires Linked() && tree == Plug(z, t) && z.InR?
      requires Ok(t, n) && !IsRed(t) && CtxOk(z, n + 1)
      requires parent == z.x && z.l.T? && sibling == z.l.x
      requires IsRed(z.l)
      modifies this`root, this`tree, this`cells, this`rotations, cells.Keys
      ensures Linked() && tree == Plug(z', t) && CtxOk(z', n + 1)
      ensures z'.InR? && z'.x == parent && z'.c == Red && !IsRed(z'.l)
      ensures cells.Keys == old(cells.Keys) && InOrder(tree) == old(InOrder(tree))
      ensures rotations == old(rotations) + 1
    {
      ghost var s, up := z.l, z.up;
      Paint(parent, Red, up, T(s, parent, z.c, t));
      Paint(sibling, Black, InL(up, parent, Red, t), s);
      RotateRight(parent, up, T(s.(c := Black), parent, Red, t));
      z' := InR(s.r, parent, Red, InR(s.l, sibling, Black, up));
    }

    /** Delete fixup, child on the right, only the sibling's right child red: rotate at the sibling. */
    method TwistRight(parent: Node, sibling: Node, ghost z: Ctx, ghost t: Tree, ghost n: nat) returns (ghost z': Ctx)
      requires Linked() && tree == Plug(z, t) && z.InR?
      requires Ok(t, n) && !IsRed(t) && CtxOk(z, n + 1)
      requires parent == z.x && z.l.T? && sibling == z.l.x
      requires !IsRed(z.l) && IsRed(z.l.r) && !IsRed(z.l.l)
      modifies this`root, this`tree, this`cells, this`rotations, cells.Keys
      ensures Linked() && tree == Plug(z', t) && CtxOk(z', n + 1)
      ensures z'.InR? && z'.x == parent && z'.c == z.c && !IsRed(z'.l) && z'.l.T? && IsRed(z'.l.l)
      ensures z'.up == z.up
      ensures cells.Keys == old(cells.Keys) && InOrder(tree) == old(InOrder(tree))
      ensures rotations == old(rotations) + 1
    {
      ghost var s, y := z.l, z.l.r;
      ghost var w := InL(z.up, parent, z.c, t);
      TwistedRight(z, n);
      At(w, s);
      var nephew := sibling.right;
      Paint(sibling, Red, w, s);
      Paint(nephew, Black, InR(s.l, sibling, Red, w), y);
      RotateLeft(sibling, w, T(s.l, sibling, Red, y.(c := Black)));
      z' := InR(T(T(s.l, sibling, Red, y.l), y.x, Black, y.r), parent, z.c, z.up);
    }

    /** Delete fixup, child on the right, the sibling's left child red: exchange colours before the rotation. */
    method ShiftColorsRight(parent: Node, sibling: Node, ghost z: Ctx, ghost t: Tree, ghost n: nat)
      requires Linked() && tree == Plug(z, t) && z.InR?
      requires Ok(t, n) && !IsRed(t) && CtxOk(z, n + 1)
      requires parent == z.x && z.l.T? && sibling == z.l.x
      requires !IsRed(z.l) && IsRed(z.l.l)
      modifies this`tree, this`cells, cells.Keys
      ensures Linked() && tree == Plug(z.up, T(T(z.l.l.(c := Black), sibling, z.c, z.l.r), parent, Black, t))
      ensures cells.Keys == old(cells.Keys) && InOrder(tree) == old(InOrder(tree))
    {
      ghost var s, far, up := z.l, z.l.l, z.up;
      ghost var w := InL(up, parent, z.c, t);
      At(w, s);
      var nephew := sibling.left;
      At(up, T(s, parent, z.c, t));
      Paint(sibling, parent.color, w, s);
      Paint(parent, Black, up, T(s.(c := z.c), parent, z.c, t));
      Paint(nephew, Black, InL(InL(up, parent, Black, t), sibling, z.c, s.r), far);
    }

    /** Delete fixup, child on the right, the sibling's left child red: exchange colours, rotate, done. */
    method BorrowRight(parent: Node, sibling: Node, ghost z: Ctx, ghost t: Tree, ghost n: nat)
      requires Linked() && tree == Plug(z, t) && z.InR?
      requires Ok(t, n) && !IsRed(t) && CtxOk(z, n + 1)
      requires parent == z.x && z.l.T? && sibling == z.l.x
      requires !IsRed(z.l) && IsRed(z.l.l)
      modifies this`root, this`tree, this`cells, this`rotations, cells.Keys
      ensures Linked() && RedBlack(tree)
      ensures cells.Keys == old(cells.Keys) && InOrder(tree) == old(InOrder(tree))
      ensures rotations == old(rotations) + 1
    {
      ShiftColorsRight(parent, sibling, z, t, n);
      RotateRight(parent, z.up, T(T(z.l.l.(c := Black), sibling, z.c, z.l.r), parent, Black, t));
      BorrowedRight(z, t, n);
    }

    /** Delete fixup, parent red, sibling and nephews black: the two exchange colours, done. */
    method ShareRed(parent: Node, sibling: Node, ghost z: Ctx, ghost t: Tree, ghost n: nat)
      requires Linked() && tree == Plug(z, t) && Ok(t, n) && !IsRed(t) && CtxOk(z, n + 1)
      requires !z.Top? && parent == z.x && z.c == Red
      requires Sibling(z).T? && sibling == Sibling(z).x && !IsRed(Sibling(z))
      requires !IsRed(Sibling(z).l) && !IsRed(Sibling(z).r)
      modifies this`tree, this`cells, cells.Keys
      ensures Linked() && RedBlack(tree)
      ensures cells.Keys == old(cells.Keys) && InOrder(tree) == old(InOrder(tree))
    {
      SiblingAt(z, t);
      if sibling != nil {
        Paint(sibling, Red, Across(z, t), Sibling(z));
      }
      Paint(parent, Black, z.up, Recoloured(z, t));
      PlugBalanced(z.up, Recoloured(z, t).(c := Black), n + 1);
    }

    /** Delete fixup, one nephew red: see to it that the red one is the nephew away from the child. */
    method Straighten(child: Node, parent: Node, sibling: Node, ghost z: Ctx, ghost t: Tree, ghost n: nat)
      returns (next: Node, ghost z': Ctx)
      requires Linked() && tree == Plug(z, t) && Ok(t, n) && !IsRed(t) && CtxOk(z, n + 1)
      requires !z.Top? && child == Ptr(nil, t) && parent == z.x
      requires Sibling(z).T? && sibling == Sibling(z).x && !IsRed(Sibling(z))
      requires IsRed(Sibling(z).l) || IsRed(Sibling(z).r)
      modifies this`root, this`tree, this`cells, this`rotations, cells.Keys
      ensures Linked() && tree == Plug(z', t) && CtxOk(z', n + 1)
      ensures !z'.Top? && z'.x == parent && Sibling(z').T? && next == Sibling(z').x && !IsRed(Sibling(z'))
      ensures if z'.InL? then IsRed(z'.r.r) else IsRed(z'.l.l)
      ensures cells.Keys == old(cells.Keys) && InOrder(tree) == old(InOrder(tree))
      ensures rotations <= old(rotations) + 1
    {
      SiblingAt(z, t);
      next, z' := sibling, z;
      if parent.right == child && sibling.color == Black
         && sibling.right.color == Red && sibling.left.color == Black {
        z' := TwistRight(parent, sibling, z, t, n);
        SiblingAt(z', t);
        next := parent.left;
      } else if parent.left == child && sibling.color == Black
                && sibling.left.color == Red && sibling.right.color == Black {
        z' := TwistLeft(parent, sibling, z, t, n);
        SiblingAt(z', t);
        next := parent.right;
      }
    }

    /** The end of the delete fixup, when there is a black sibling and a red node near it. */
    method FinishFixup(child: Node, parent: Node, sibling: Node, ghost z: Ctx, ghost t: Tree, ghost n: nat)
      requires Linked() && tree == Plug(z, t) && Ok(t, n) && !IsRed(t) && CtxOk(z, n + 1)
      requires !z.Top? && child == Ptr(nil, t) && parent == z.x
      requires Sibling(z).T? && sibling == Sibling(z).x && !IsRed(Sibling(z))
      requires z.c == Red || IsRed(Sibling(z).l) || IsRed(Sibling(z).r)
      modifies this`root, this`tree, this`cells, this`rotations, cells.Keys
      ensures Linked() && RedBlack(tree)
      ensures cells.Keys == old(cells.Keys) && InOrder(tree) == old(InOrder(tree))
      ensures rotations <= old(rotations) + 2
    {
      SiblingAt(z, t);
      if parent.color == Red && sibling.color == Black
         && sibling.left.color == Black && sibling.right.color == Black {
        ShareRed(parent, sibling, z, t, n);
        return;
      }
      var next;
      ghost var z';
      next, z' := Straighten(child, parent, sibling, z, t, n);
      SiblingAt(z', t);
      if parent.right == child {
        BorrowRight(parent, next, z', t, n);
      } else {
        BorrowLeft(parent, next, z', t, n);
      }
    }

    /** Delete fixup with a red sibling: rotate at the parent to get a black one. */
    method BlackenSibling(child: Node, parent: Node, sibling: Node, ghost z: Ctx, ghost t: Tree, ghost n: nat)
      returns (next: Node, ghost z': Ctx)
      requires Linked() && tree == Plug(z, t) && Ok(t, n) && !IsRed(t) && CtxOk(z, n + 1)
      requires !z.Top? && child == Ptr(nil, t) && parent == z.x
      requires IsRed(Sibling(z)) && sibling == Sibling(z).x
      modifies this`root, this`tree, this`cells, this`rotations, cells.Keys
      ensures Linked() && tree == Plug(z', t) && CtxOk(z', n + 1)
      ensures !z'.Top? && z'.x == parent && z'.c == Red
      ensures Sibling(z').T? && next == Sibling(z').x && !IsRed(Sibling(z'))
      ensures cells.Keys == old(cells.Keys) && InOrder(tree) == old(InOrder(tree))
      ensures rotations == old(rotations) + 1
    {
      SiblingAt(z, t);
      if parent.right == child {
        z' := LowerRight(parent, sibling, z, t, n);
      } else {
        z' := LowerLeft(parent, sibling, z, t, n);
      }
      SiblingLives(z', t, n);
      if parent.right == child {
        next := parent.left;
      } else {
        next := parent.right;
      }
    }

    /** Delete fixup, parent, sibling and nephews all black: a red sibling moves the shortage up. */
    method Climb(child: Node, parent: Node, sibling: Node, ghost z: Ctx, ghost t: Tree, ghost n: nat)
      returns (child': Node, parent': Node, sibling': Node, ghost z': Ctx, ghost t': Tree, ghost n': nat)
      requires Linked() && tree == Plug(z, t) && Ok(t, n) && !IsRed(t) && CtxOk(z, n + 1)
      requires !z.Top? && child == Ptr(nil, t) && parent == z.x
      requires Sibling(z).T? && sibling == Sibling(z).x
      requires z.c == Black && !IsRed(Sibling(z)) && !IsRed(Sibling(z).l) && !IsRed(Sibling(z).r)
      modifies this`tree, this`cells, cells.Keys
      ensures Linked() && tree == Plug(z', t') && Ok(t', n') && !IsRed(t') && CtxOk(z', n' + 1)
      ensures z' == z.up && child' == Ptr(nil, t') && parent' == Above(nil, z')
      ensures !z'.Top? ==> Sibling(z').T? && sibling' == Sibling(z').x
      ensures cells.Keys == old(cells.Keys) && InOrder(tree) == old(InOrder(tree))
    {
      SiblingAt(z, t);
      if sibling != nil {
        Paint(sibling, Red, Across(z, t), Sibling(z));
      }
      z', t', n' := z.up, Recoloured(z, t), n + 1;
      At(z', t');
      SiblingLives(z', t', n');
      child', parent' := parent, parent.parent;
      if parent'.right == child' {
        sibling' := parent'.left;
      } else {
        sibling' := parent'.right;
      }
    }

    /** One turn of the delete fixup below a parent: `goUp` says whether the shortage moved up. */
    method FixupTurn(child: Node, parent: Node, sibling: Node, ghost z: Ctx, ghost t: Tree, ghost n: nat)
      returns (goUp: bool, child': Node, parent': Node, sibling': Node, ghost z': Ctx, ghost t': Tree, ghost n': nat)
      requires Linked() && tree == Plug(z, t) && Ok(t, n) && !IsRed(t) && CtxOk(z, n + 1)
      requires !z.Top? && child == Ptr(nil, t) && parent == z.x
      requires Sibling(z).T? && sibling == Sibling(z).x
      modifies this`root, this`tree, this`cells, this`rotations, cells.Keys
      ensures Linked() && tree == Plug(z', t') && Ok(t', n') && !IsRed(t') && CtxOk(z', n' + 1)
      ensures child' == Ptr(nil, t') && parent' == Above(nil, z')
      ensures !z'.Top? ==> Sibling(z').T? && sibling' == Sibling(z').x
      ensures goUp ==> Depth(z') < Depth(z)
      ensures !goUp ==> !z'.Top? && !IsRed(Sibling(z'))
                        && (z'.c == Red || IsRed(Sibling(z').l) || IsRed(Sibling(z').r))
      ensures cells.Keys == old(cells.Keys) && InOrder(tree) == old(InOrder(tree))
      ensures rotations <= old(rotations) + if goUp then 0 else 1
    {
      SiblingAt(z, t);
      goUp, child', parent', sibling', z', t', n' := true, child, parent, sibling, z, t, n;
      if sibling.color == Red {
        sibling', z' := BlackenSibling(child, parent, sibling, z, t, n);
        SiblingAt(z', t);
      }
      if parent.color == Black && sibling'.color == Black
         && sibling'.left.color == Black && sibling'.right.color == Black {
        child', parent', sibling', z', t', n' := Climb(child, parent, sibling', z', t, n);
      } else {
        goUp := false;
      }
    }

    method DeleteFixup(child: Node, childParent: Node, ghost z: Ctx, ghost t: Tree, ghost n: nat)
      requires Linked() && tree == Plug(z, t)
      requires child == Ptr(nil, t) && childParent == Above(nil, z)
      requires Ok(t, n) && !IsRed(t) && CtxOk(z, n + 1)
      modifies this`root, this`tree, this`cells, this`rotations, cells.Keys
      ensures Linked() && RedBlack(tree)
      ensures cells.Keys == old(cells.Keys) && InOrder(tree) == old(InOrder(tree))
      ensures rotations <= old(rotations) + 3
    {
      var child, parent := child, childParent;
      ghost var z, t, n := z, t, n;
      var sibling;
      SiblingLives(z, t, n);
      if parent.right == child {
        sibling := parent.left;
      } else {
        sibling := parent.right;
      }
      var goUp := true;
      while goUp
        invariant Linked() && tree == Plug(z, t) && Ok(t, n) && !IsRed(t) && CtxOk(z, n + 1)
        invariant child == Ptr(nil, t) && parent == Above(nil, z)
        invariant !z.Top? ==> Sibling(z).T? && sibling == Sibling(z).x
        invariant !goUp ==> !z.Top? && !IsRed(Sibling(z))
                            && (z.c == Red || IsRed(Sibling(z).l) || IsRed(Sibling(z).r))
        invariant cells.Keys == old(cells.Keys) && InOrder(tree) == old(InOrder(tree))
        invariant rotations <= old(rotations) + if goUp then 0 else 1
        decreases goUp, Depth(z)
      {
        At(z, t);
        if parent == nil {
          PlugBalanced(z, t, n);
          return;
        }
        goUp, child, parent, sibling, z, t, n := FixupTurn(child, parent, sibling, z, t, n);
      }
      FinishFixup(child, parent, sibling, z, t, n);
    }

    /** `change_parent_ptr`: below `parent`, or at the root, `from` becomes `to`. */
    method ChangeParentPtr(parent: Node, from: Node, to: Node)
      requires Mirrored() && (parent == nil || parent in cells)
      modifies this`root, this`cells, {parent} - {nil}
      ensures Mirrored() && cells == ParentChanged(nil, old(cells), parent, from, to)
      ensures root == RootChanged(nil, old(root), parent, from, to)
    {
      if parent == nil {
        if root == from {
          root := to;
        }
        return;
      }
      if parent.left == from {
        parent.left := to;
      }
      if parent.right == from {
        parent.right := to;
      }
      cells := ParentChanged(nil, cells, parent, from, to);
    }

    /** `change_child_ptr`: the parent pointer of `child` changes from `from` to `to`. */
    method ChangeChildPtr(child: Node, from: Node, to: Node)
      requires Mirrored() && (child == nil || child in cells)
      modifies this`cells, {child} - {nil}
      ensures Mirrored() && cells == ChildChanged(nil, old(cells), child, from, to)
    {
      if child == nil {
        return;
      }
      if child.parent == from {
        child.parent := to;
      }
      cells := ChildChanged(nil, cells, child, from, to);
    }

    method SwapColors(node: Node, smright: Node)
      requires Mirrored() && node in cells && smright in cells && node != smright
      modifies this`cells, {node, smright}
      ensures Mirrored() && cells == ColorsSwapped(old(cells), node, smright)
    {
      node.color, smright.color := smright.color, node.color;
      cells := ColorsSwapped(cells, node, smright);
    }

    /** Exchange, first part: colours, and the child pointers that lead to the two nodes. */
    method SwapPointersInParents(node: Node, smright: Node)
      requires Mirrored() && Exchangeable(nil, cells, node, smright)
      requires Consistent(nil, cells, root)
      modifies this`root, this`cells, cells.Keys
      ensures Mirrored() && ParentsSwapped(old(cells), cells, node, smright) && root == Swap(node, smright, old(root))
    {
      ghost var h := cells;
      assert ConsistentAt(nil, h, root, node) && ConsistentAt(nil, h, root, smright);
      SwapColors(node, smright);
      ChangeParentPtr(node.parent, node, smright);
      if node.right != smright {
        ChangeParentPtr(smright.parent, smright, node);
      }
      ParentsAreSwapped(nil, h, old(root), node, smright);
    }

    /** Exchange, second part: the parent pointers of the two nodes' children. */
    method SwapPointersInChildren(node: Node, smright: Node, ghost h: Heap, ghost oldRoot: Node)
      requires Mirrored() && ParentsSwapped(h, cells, node, smright) && Exchangeable(nil, h, node, smright)
      requires Consistent(nil, h, oldRoot)
      modifies this`cells, cells.Keys
      ensures Mirrored() && NeighboursSwapped(h, cells, node, smright)
    {
      ghost var k := cells;
      ChildrenKnown(nil, h, k, oldRoot, node, smright);
      OwnUntouched(nil, k, node, smright);
      ChildrenAreSwapped(nil, h, k, oldRoot, node, smright);
      SwapPointerInLaterChildren(node, smright);
      ChangeChildPtr(node.left, node, smright);
      if node.right != smright {
        ChangeChildPtr(node.right, node, smright);
      }
    }

    /** The children of `smright`, each of them twice, as in the code. */
    method SwapPointerInLaterChildren(node: Node, smright: Node)
      requires Mirrored() && nil !in cells && node in cells && smright in cells
      requires smright.left !in {node, smright} && smright.right !in {node, smright}
      requires smright.left == nil || smright.left in cells
      requires smright.right == nil || smright.right in cells
      modifies this`cells, cells.Keys
      ensures Mirrored() && cells == LaterChildrenChanged(nil, old(cells), node, smright)
    {
      ChangeChildPtr(smright.left, smright, node);
      ChangeChildPtr(smright.left, smright, node);
      ChangeChildPtr(smright.right, smright, node);
      ChangeChildPtr(smright.right, smright, node);
    }

    /** Exchange, third part: an adjacent pair is first made to point at itself. */
    method TieAdjacent(node: Node, smright: Node)
      requires Mirrored() && node in cells && smright in cells && node != smright
      modifies this`cells, {node, smright}
      ensures Mirrored() && cells == Tied(old(cells), node, smright)
    {
      if node.right == smright {
        node.right := node;
        smright.parent := smright;
      }
      cells := Tied(cells, node, smright);
    }

    method SetLinks(w: Node, parent: Node, left: Node, right: Node)
      requires Mirrored() && w in cells
      modifies this`cells, w
      ensures Mirrored() && cells == old(cells)[w := Cell(parent, left, right, old(cells)[w].color)]
    {
      w.parent, w.left, w.right := parent, left, right;
      cells := cells[w := Cell(parent, left, right, w.color)];
    }

    /** Exchange, last part: the two nodes' own links. */
    method SwapOwnPointers(node: Node, smright: Node)
      requires Mirrored() && node in cells && smright in cells && node != smright
      modifies this`cells, {node, smright}
      ensures Mirrored() && cells == OwnSwapped(old(cells), node, smright)
    {
      var parent, left, right := node.parent, node.left, node.right;
      SetLinks(node, smright.parent, smright.left, smright.right);
      SetLinks(smright, parent, left, right);
    }

    /** The pointer writes by which `node` and `smright` trade places. */
    method Exchange(node: Node, smright: Node)
      requires Mirrored() && Exchangeable(nil, cells, node, smright)
      requires Consistent(nil, cells, root)
      modifies this`root, this`cells, cells.Keys
      ensures Mirrored() && Swapped(old(cells), cells, node, smright) && root == Swap(node, smright, old(root))
    {
      ghost var h := cells;
      SwapPointersInParents(node, smright);
      SwapPointersInChildren(node, smright, h, old(root));
      OwnAreSwapped(nil, h, cells, old(root), node, smright);
      TieAdjacent(node, smright);
      SwapOwnPointers(node, smright);
    }

    /** The smallest node of the right subtree. */
    method SmallestRight(node: Node, ghost z: Ctx, ghost t: Tree) returns (smright: Node, ghost y: Ctx, ghost cur: Tree)
      requires Linked() && tree == Plug(z, t)
      requires t.T? && t.x == node && t.r.T?
      ensures InRightSpine(z, t, y, cur) && cur.x == smright && cur.l.Leaf? && smright.left == nil
    {
      At(z, t);
      y, cur := InR(t.l, node, t.c, z), t.r;
      SpineStart(z, t);
      smright := node.right;
      At(y, cur);
      while smright.left != nil
        invariant cur.T? && smright == cur.x
        invariant smright.left == Ptr(nil, cur.l) && (smright.left == nil <==> cur.l.Leaf?)
        invariant InRightSpine(z, t, y, cur)
        decreases cur
      {
        SpineDown(z, t, y, cur);
        smright := smright.left;
        y, cur := InL(y, cur.x, cur.c, cur.r), cur.l;
        At(y, cur);
      }
    }

    /** The smallest node of the right subtree trades places with `node`, which then has no left
        child. */
    method BringDown(node: Node, ghost z: Ctx, ghost t: Tree) returns (ghost z': Ctx, ghost t': Tree)
      requires Linked() && RedBlack(tree) && Ordered(tree) && tree == Plug(z, t)
      requires t.T? && t.x == node && t.l.T? && t.r.T?
      modifies this`root, this`tree, this`cells, cells.Keys
      ensures Linked() && RedBlack(tree) && tree == Plug(z', t')
      ensures t'.T? && t'.x == node && t'.l.Leaf?
      ensures cells.Keys == old(cells.Keys) && |InOrder(tree)| == |old(InOrder(tree))|
      ensures |Before(z)| + |InOrder(t.l)| + 1 == |Before(z')| < |InOrder(tree)|
      ensures Without(InOrder(tree), |Before(z')|) == Without(old(InOrder(tree)), |Before(z)| + |InOrder(t.l)|)
    {
      var smright;
      ghost var y, cur;
      smright, y, cur := SmallestRight(node, z, t);
      TradePlaces(node, smright, z, t, y, cur);
      z', t' := RenameCtx(node, smright, y), Rename(node, smright, cur);
    }

    method TradePlaces(node: Node, smright: Node, ghost z: Ctx, ghost t: Tree, ghost y: Ctx, ghost cur: Tree)
      requires Linked() && RedBlack(tree) && Ordered(tree) && tree == Plug(z, t)
      requires t.T? && t.x == node && t.l.T? && t.r.T?
      requires InRightSpine(z, t, y, cur) && cur.x == smright && cur.l.Leaf?
      modifies this`root, this`tree, this`cells, cells.Keys
      ensures Linked() && RedBlack(tree)
      ensures tree == Plug(RenameCtx(node, smright, y), Rename(node, smright, cur))
      ensures cells.Keys == old(cells.Keys) && |InOrder(tree)| == |old(InOrder(tree))|
      ensures |Before(z)| + |InOrder(t.l)| + 1 == |Before(RenameCtx(node, smright, y))| < |InOrder(tree)|
      ensures Without(InOrder(tree), |Before(z)| + |InOrder(t.l)| + 1) ==
              Without(old(InOrder(tree)), |Before(z)| + |InOrder(t.l)|)
    {
      SpineExchangeable(nil, cells, root, z, t, y, cur);
      Traded(z, t, y, cur);
      ExchangeIn(node, smright);
    }

    /** The exchange, as what it does to the tree. */
    method ExchangeIn(node: Node, smright: Node)
      requires Linked() && Exchangeable(nil, cells, node, smright)
      modifies this`root, this`tree, this`cells, cells.Keys
      ensures Linked() && tree == Rename(node, smright, old(tree)) && cells.Keys == old(cells.Keys)
    {
      AllConsistent(nil, cells, tree, root);
      Exchange(node, smright);
      SwapFormed(nil, old(cells), cells, node, smright, tree, old(root));
      tree := Rename(node, smright, tree);
    }

    /** The only child of `node` takes its place. */
    method ReplaceByChild(node: Node, ghost z: Ctx, ghost t: Tree) returns (child: Node)
      requires Linked() && tree == Plug(z, t)
      requires t.T? && t.x == node && (t.l.Leaf? || t.r.Leaf?)
      modifies this`root, this`tree, this`cells, cells.Keys
      ensures Linked() && tree == Plug(z, OnlyChild(t)) && cells.Keys == old(cells.Keys) - {node}
      ensures child == Ptr(nil, OnlyChild(t))
      ensures node.color == t.c && node.parent == Above(nil, z)
    {
      UnlinkFormed(nil, cells, z, t, root);
      child := Bypass(node, z, t);
      tree := Plug(z, OnlyChild(t));
    }

    /** The pointer writes of that. */
    method Bypass(node: Node, ghost z: Ctx, ghost t: Tree) returns (child: Node)
      requires Linked() && tree == Plug(z, t)
      requires t.T? && t.x == node && (t.l.Leaf? || t.r.Leaf?)
      requires (Above(nil, z) == nil || Above(nil, z) in cells) && (OnlyChild(t).T? ==> OnlyChild(t).x in cells)
      modifies this`root, this`cells, cells.Keys
      ensures Mirrored() && cells == Unlinked(nil, old(cells), z, t)
      ensures root == RootChanged(nil, old(root), Above(nil, z), t.x, Ptr(nil, OnlyChild(t)))
      ensures child == Ptr(nil, OnlyChild(t)) && node.color == t.c && node.parent == Above(nil, z)
    {
      Spliceable(z, t);
      if node.left != nil {
        child := node.left;
      } else {
        child := node.right;
      }
      SpliceOut(node, child);
    }

    /** A node with at most one child, the node above it and the child: three different ones. */
    lemma Spliceable(z: Ctx, t: Tree)
      requires Linked() && tree == Plug(z, t) && t.T? && (t.l.Leaf? || t.r.Leaf?)
      ensures var c := if t.x.left != nil then t.x.left else t.x.right;
              && c == Ptr(nil, OnlyChild(t)) && (c == nil || c in cells) && c != t.x
      ensures t.x in cells && t.x != nil && t.x.color == t.c && t.x.parent == Above(nil, z)
      ensures t.x.parent != t.x && (t.x.parent == nil || t.x.parent in cells)
    {
      At(z, t);
      Open(nil, cells, root, z, t);
    }

    /** The pointer writes by which `child` takes the place of its parent `node`. */
    method SpliceOut(node: Node, child: Node)
      requires Mirrored() && node in cells && (child == nil || child in cells) && child != node
      requires (node.parent == nil || node.parent in cells) && node.parent != node && node != nil
      modifies this`root, this`cells, cells.Keys
      ensures Mirrored() && node.color == old(node.color) && node.parent == old(node.parent)
      ensures root == RootChanged(nil, old(root), node.parent, node, child)
      ensures cells == ChildChanged(nil, ParentChanged(nil, old(cells), node.parent, node, child),
                                    child, node, node.parent) - {node}
    {
      ChangeParentPtr(node.parent, node, child);
      ChangeChildPtr(child, node, node.parent);
      cells := cells - {node};
    }

    /** Put the only child of `node` in its place and mend what that breaks. */
    method Unlink(node: Node, ghost z: Ctx, ghost t: Tree)
      requires Linked() && RedBlack(tree) && tree == Plug(z, t)
      requires t.T? && t.x == node && (t.l.Leaf? || t.r.Leaf?)
      modifies this`root, this`tree, this`cells, this`rotations, cells.Keys
      ensures Linked() && RedBlack(tree) && cells.Keys == old(cells.Keys) - {node}
      ensures |Before(z)| + |InOrder(t.l)| < |old(InOrder(tree))|
      ensures InOrder(tree) == Without(old(InOrder(tree)), |Before(z)| + |InOrder(t.l)|)
      ensures rotations <= old(rotations) + 3
    {
      UnplugBalanced(z, t);
      UnlinkOrder(z, t);
      ghost var n := BlackHeight(t);
      var child := ReplaceByChild(node, z, t);
      MendColors(node, child, z, t, n);
    }

    /** The colours after `child` has taken the place of `node`, whose own fields are as they were. */
    method MendColors(node: Node, child: Node, ghost z: Ctx, ghost t: Tree, ghost n: nat)
      requires t.T? && (t.l.Leaf? || t.r.Leaf?) && Ok(t, n) && CtxOk(z, n) && (WantsBlack(z) ==> !IsRed(t))
      requires Linked() && tree == Plug(z, OnlyChild(t))
      requires child == Ptr(nil, OnlyChild(t)) && node.color == t.c && node.parent == Above(nil, z) && node !in cells
      modifies this`root, this`tree, this`cells, this`rotations, cells.Keys
      ensures Linked() && RedBlack(tree)
      ensures cells.Keys == old(cells.Keys) && InOrder(tree) == old(InOrder(tree))
      ensures rotations <= old(rotations) + 3
    {
      ghost var c := OnlyChild(t);
      At(z, c);
      if node.color == Red {
        PlugBalanced(z, c, n);
      } else if child.color == Red {
        if child != nil {
          Paint(child, Black, z, c);
        }
        PlugBalanced(z, c.(c := Black), n);
      } else {
        DeleteFixup(child, node.parent, z, c, n - 1);
      }
    }

    /** `ramfs_rbtree_delete_node`. */
    method DeleteNode(node: Node) returns (r: Node, ghost pos: nat)
      requires Valid() && node in cells
      modifies this, cells.Keys
      ensures Valid() && r == node && cells.Keys == old(cells.Keys) - {node} && count == old(count) - 1
      ensures pos < |old(InOrder(tree))| && old(InOrder(tree))[pos] == node
      ensures InOrder(tree) == old(InOrder(tree))[..pos] + old(InOrder(tree))[pos + 1..]
      ensures node.parent == node.left == node.right == nil && node.color == Black
      ensures rotations <= old(rotations) + 3
    {
      pos := RemoveFromShape(node);
      count := count - 1;
      WithoutKeys(old(InOrder(tree)), pos);
      Clear(node);
      r := node;
    }

    /** The fields of a removed node. */
    method Clear(node: Node)
      requires Linked() && node !in cells && node != nil
      modifies node
      ensures Linked() && node.parent == node.left == node.right == nil && node.color == Black
    {
      node.parent := nil;
      node.left := nil;
      node.right := nil;
      node.color := Black;
    }

    /** See to it that `node` has at most one child. */
    method MakeRemovable(node: Node, ghost z: Ctx, ghost t: Tree) returns (ghost z': Ctx, ghost t': Tree)
      requires Linked() && RedBlack(tree) && Ordered(tree) && tree == Plug(z, t) && t.T? && t.x == node
      requires |Before(z)| + |InOrder(t.l)| < |InOrder(tree)|
      modifies this`root, this`tree, this`cells, cells.Keys
      ensures Linked() && RedBlack(tree) && tree == Plug(z', t')
      ensures t'.T? && t'.x == node && (t'.l.Leaf? || t'.r.Leaf?)
      ensures cells.Keys == old(cells.Keys) && |Before(z')| + |InOrder(t'.l)| < |InOrder(tree)|
      ensures Without(InOrder(tree), |Before(z')| + |InOrder(t'.l)|) ==
              Without(old(InOrder(tree)), |Before(z)| + |InOrder(t.l)|)
    {
      At(z, t);
      z', t' := z, t;
      if node.left != nil && node.right != nil {
        z', t' := BringDown(node, z, t);
      }
    }

    /** Deletion up to the clearing of the removed node's own fields. */
    method RemoveFromShape(node: Node) returns (ghost pos: nat)
      requires Linked() && RedBlack(tree) && Ordered(tree) && node in cells
      modifies this`root, this`tree, this`cells, this`rotations, cells.Keys
      ensures Linked() && RedBlack(tree) && cells.Keys == old(cells.Keys) - {node}
      ensures pos < |old(InOrder(tree))| && old(InOrder(tree))[pos] == node
      ensures InOrder(tree) == Without(old(InOrder(tree)), pos)
      ensures rotations <= old(rotations) + 3
    {
      ghost var z, t := Locate(Top, tree, node);
      NodeAt(z, t);
      pos := |Before(z)| + |InOrder(t.l)|;
      z, t := MakeRemovable(node, z, t);
      Unlink(node, z, t);
    }

    // ---- Lookup ----

    /** The loop of `ramfs_rbtree_find_less_equal`; `pos` is the place of the match or the slot of the key,
        `steps` the number of comparisons. */
    method FindPlace(key: Name) returns (found: bool, result: Node?, ghost pos: nat, ghost steps: nat)
      requires Valid()
      ensures found <==> key in Keys(InOrder(tree))
      ensures found ==> pos < |InOrder(tree)| && result == InOrder(tree)[pos] && result.key == key && result in cells
      ensures !found ==> Slot(Keys(InOrder(tree)), key, pos)
      ensures !found ==> result == if pos == 0 then null else InOrder(tree)[pos - 1]
      ensures steps <= Height(tree)
    {
      var node := root;
      ghost var z, s := Top, tree;
      result, pos, steps := null, 0, 0;
      At(z, s);
      while node != nil
        invariant tree == Plug(z, s) && Around(z, key)
        invariant node == Ptr(nil, s) && (node == nil <==> s.Leaf?)
        invariant result == Floor(z)
        invariant steps + Height(s) <= Height(tree)
        decreases s
      {
        At(z, s);
        Compare(z, s, key);
        var r := Strcmp(key, node.key);
        steps := steps + 1;
        if r == 0 {
          pos := |Before(z)| + |InOrder(s.l)|;
          result := node;
          found := true;
          return;
        }
        if r < 0 {
          node := node.left;
          z, s := InL(z, s.x, s.c, s.r), s.l;
        } else {
          result := node;
          node := node.right;
          z, s := InR(s.l, s.x, s.c, z), s.r;
        }
      }
      assert s.Leaf?;
      found, pos := false, |Before(z)|;
      FloorIsLast(z);
      KeyMissing(z, key);
    }

    /** What stands before the slot of a key is the greatest smaller one. */
    lemma NearestBelow(key: Name, pos: nat)
      requires Valid() && Slot(Keys(InOrder(tree)), key, pos)
      ensures forall w :: w in cells ==>
                if Precedes(w.key, key) then
                  pos > 0 && (w == InOrder(tree)[pos - 1] || Precedes(w.key, InOrder(tree)[pos - 1].key))
                else Precedes(key, w.key)
      ensures pos > 0 ==> InOrder(tree)[pos - 1] in cells && Precedes(InOrder(tree)[pos - 1].key, key)
    {
      var s := InOrder(tree);
      InOrderInCells();
      if pos > 0 {
        assert Keys(s)[..pos][pos - 1] == s[pos - 1].key;
        PrecedesIsLess(s[pos - 1].key, key);
      }
      forall w | w in cells
        ensures if Precedes(w.key, key) then pos > 0 && (w == s[pos - 1] || Precedes(w.key, s[pos - 1].key))
                else Precedes(key, w.key)
      {
        InOrderNodes(tree, w);
        var i :| 0 <= i < |s| && s[i] == w;
        NearestAt(key, pos, i);
      }
    }

    lemma NearestAt(key: Name, pos: nat, i: nat)
      requires Valid() && Slot(Keys(InOrder(tree)), key, pos) && i < |InOrder(tree)|
      ensures var w := InOrder(tree)[i];
              if Precedes(w.key, key) then
                pos > 0 && (w == InOrder(tree)[pos - 1] || Precedes(w.key, InOrder(tree)[pos - 1].key))
              else Precedes(key, w.key)
    {
      var k := Keys(InOrder(tree));
      PrecedesIsLess(k[i], key);
      PrecedesIsLess(key, k[i]);
      Trichotomy(k[i], key);
      if i < pos {
        assert k[..pos][i] == k[i];
        PrecedesIsLess(k[i], k[pos - 1]);
      } else {
        assert k[pos..][i - pos] == k[i];
      }
    }

    /** `ramfs_rbtree_find_less_equal`: the node with that key, or the one with the greatest smaller key, or
        NULL if there is none. */
    method FindLessEqual(key: Name) returns (found: bool, result: Node?, ghost pos: nat, ghost steps: nat)
      requires Valid()
      ensures found <==> key in Keys(InOrder(tree))
      ensures found ==> pos < |InOrder(tree)| && result == InOrder(tree)[pos] && result.key == key && result in cells
      ensures !found && result == null ==> forall w :: w in cells ==> Precedes(key, w.key)
      ensures !found && result != null ==>
                result in cells && Precedes(result.key, key)
                && forall w :: w in cells && w != result ==> Precedes(w.key, result.key) || Precedes(key, w.key)
      ensures steps <= Height(tree)
    {
      found, result, pos, steps := FindPlace(key);
      if !found {
        NearestBelow(key, pos);
      }
    }

    /** `ramfs_rbtree_search`. Two to the power of the number of comparisons is at most the square
        of the number of nodes plus one. */
    method Search(key: Name) returns (result: Node?, ghost pos: nat, ghost steps: nat)
      requires Valid()
      ensures result == null <==> key !in Keys(InOrder(tree))
      ensures result != null ==>
                pos < |InOrder(tree)| && result == InOrder(tree)[pos] && result.key == key && result in cells
      ensures Pow2(steps) <= (count + 1) * (count + 1)
    {
      var found;
      found, result, pos, steps := FindLessEqual(key);
      if !found {
        result := null;
      }
      LogarithmicHeight(tree);
      Pow2Grows(steps, Height(tree));
    }

    /** `ramfs_rbtree_delete`. */
    method Delete(key: Name) returns (r: Node?, ghost pos: nat)
      requires Valid()
      modifies this, cells.Keys
      ensures Valid()
      ensures r == null <==> key !in Keys(old(InOrder(tree)))
      ensures r == null ==> unchanged(this) && unchanged(cells.Keys)
      ensures r != null ==> pos < |old(InOrder(tree))| && r == old(InOrder(tree))[pos] && r.key == key
                            && InOrder(tree) == old(InOrder(tree))[..pos] + old(InOrder(tree))[pos + 1..]
                            && cells.Keys == old(cells.Keys) - {r} && count == old(count) - 1
      ensures rotations <= old(rotations) + 3
    {
      var toDelete;
      ghost var steps;
      toDelete, pos, steps := Search(key);
      if toDelete == null {
        return null, pos;
      }
      r, pos := DeleteNode(toDelete);
    }

    // ---- Iteration ----

    method First() returns (node: Node?)
      requires Valid()
      ensures node == if InOrder(tree) == [] then null else InOrder(tree)[0]
    {
      node := null;
      At(Top, tree);
      if root != nil {
        var n := root;
        ghost var z, s := Top, tree;
        while n.left != nil
          invariant tree == Plug(z, s) && s.T? && n == s.x && Before(z) == []
          invariant n.left == Ptr(nil, s.l) && (n.left == nil <==> s.l.Leaf?)
          decreases s
        {
          n := n.left;
          z, s := InL(z, s.x, s.c, s.r), s.l;
          At(z, s);
        }
        NodeAt(z, s);
        node := n;
      }
    }

    method Last() returns (node: Node?)
      requires Valid()
      ensures node == if InOrder(tree) == [] then null else InOrder(tree)[|InOrder(tree)| - 1]
    {
      node := null;
      At(Top, tree);
      if root != nil {
        var n := root;
        ghost var z, s := Top, tree;
        while n.right != nil
          invariant tree == Plug(z, s) && s.T? && n == s.x && After(z) == []
          invariant n.right == Ptr(nil, s.r) && (n.right == nil <==> s.r.Leaf?)
          decreases s
        {
          n := n.right;
          z, s := InR(s.l, s.x, s.c, z), s.r;
          At(z, s);
        }
        NodeAt(z, s);
        PlugInOrder(z, s);
        node := n;
      }
    }

    method Next(node: Node, ghost pos: nat) returns (next: Node)
      requires Valid() && pos < |InOrder(tree)| && node == InOrder(tree)[pos]
      ensures next == if pos + 1 < |InOrder(tree)| then InOrder(tree)[pos + 1] else nil
    {
      ghost var z, s := PlaceOf(tree, pos);
      At(z, s);
      if node.right != nil {
        next := node.right;
        z, s := InR(s.l, s.x, s.c, z), s.r;
        At(z, s);
        while next.left != nil
          invariant tree == Plug(z, s) && s.T? && next == s.x && |Before(z)| == pos + 1
          invariant next.left == Ptr(nil, s.l) && (next.left == nil <==> s.l.Leaf?)
          decreases s
        {
          next := next.left;
          z, s := InL(z, s.x, s.c, s.r), s.l;
          At(z, s);
        }
        NodeAt(z, s);
      } else {
        next := node;
        var parent := node.parent;
        while parent != nil && next == parent.right
          invariant tree == Plug(z, s) && s.T? && next == s.x && parent == Above(nil, z)
          invariant |Before(z)| + |InOrder(s)| == pos + 1
          decreases Depth(z)
        {
          At(z, s);
          LiftRight(z, s);
          z, s := z.up, Lift(z, s);
          next := parent;
          At(z, s);
          parent := parent.parent;
        }
        At(z, s);
        AfterGap(z, s, pos);
        next := parent;
      }
    }

    method Previous(node: Node, ghost pos: nat) returns (prev: Node)
      requires Valid() && pos < |InOrder(tree)| && node == InOrder(tree)[pos]
      ensures prev == if pos > 0 then InOrder(tree)[pos - 1] else nil
    {
      ghost var z, s := PlaceOf(tree, pos);
      At(z, s);
      if node.left != nil {
        prev := node.left;
        z, s := InL(z, s.x, s.c, s.r), s.l;
        At(z, s);
        while prev.right != nil
          invariant tree == Plug(z, s) && s.T? && prev == s.x && |Before(z)| + |InOrder(s)| == pos
          invariant prev.right == Ptr(nil, s.r) && (prev.right == nil <==> s.r.Leaf?)
          decreases s
        {
          prev := prev.right;
          z, s := InR(s.l, s.x, s.c, z), s.r;
          At(z, s);
        }
        NodeAt(z, s);
      } else {
        prev := node;
        var parent := node.parent;
        while parent != nil && prev == parent.left
          invariant tree == Plug(z, s) && s.T? && prev == s.x && parent == Above(nil, z)
          invariant |Before(z)| == pos
          decreases Depth(z)
        {
          At(z, s);
          z, s := z.up, Lift(z, s);
          prev := parent;
          At(z, s);
          parent := parent.parent;
        }
        At(z, s);
        if z.InR? {
          NodeAt(z.up, Lift(z, s));
        }
        prev := parent;
      }
    }

    /** From `First` by `Next` to the null node: every node once, in key order. */
    method Traverse() returns (visited: seq<Node>)
      requires Valid()
      ensures visited == InOrder(tree) && |visited| == count && forall w :: w in visited <==> w in cells
      ensures forall i, j :: 0 <= i < j < |visited| ==> Precedes(visited[i].key, visited[j].key)
    {
      visited := VisitAll();
      InOrderMeaning();
    }

    method VisitAll() returns (visited: seq<Node>)
      requires Valid()
      ensures visited == InOrder(tree) && |visited| == count
    {
      visited := [];
      var first := First();
      if first == null {
        return;
      }
      var node: Node := first;
      while node != nil
        invariant |visited| <= |InOrder(tree)| && visited == InOrder(tree)[..|visited|]
        invariant node == if |visited| < |InOrder(tree)| then InOrder(tree)[|visited|] else nil
        decreases |InOrder(tree)| - |visited|
      {
        visited := visited + [node];
        node := Next(node, |visited| - 1);
      }
      InOrderInCells();
    }

    /** From `Last` by `Previous`: every node once, in the opposite order. */
    method TraverseBack() returns (visited: seq<Node>)
      requires Valid()
      ensures |visited| == count
      ensures forall i :: 0 <= i < count ==> visited[i] == InOrder(tree)[count - 1 - i]
    {
      visited := [];
      var last := Last();
      if last == null {
        return;
      }
      var node: Node := last;
      ghost var n := |InOrder(tree)|;
      InOrderInCells();
      while node != nil
        invariant |visited| <= n && forall i :: 0 <= i < |visited| ==> visited[i] == InOrder(tree)[n - 1 - i]
        invariant node == if |visited| < n then InOrder(tree)[n - 1 - |visited|] else nil
        decreases n - |visited|
      {
        visited := visited + [node];
        node := Previous(node, n - |visited|);
      }
    }

    lemma InOrderInCells()
      requires Linked()
      ensures forall i :: 0 <= i < |InOrder(tree)| ==> InOrder(tree)[i] in cells && InOrder(tree)[i] != nil
    {
      forall i | 0 <= i < |InOrder(tree)|
        ensures InOrder(tree)[i] in cells
      {
        InOrderNodes(tree, InOrder(tree)[i]);
      }
    }

    /** In order: every node once, by strictly increasing key. */
    lemma InOrderMeaning()
      requires Valid()
      ensures forall w :: w in InOrder(tree) <==> w in cells
      ensures forall i, j :: 0 <= i < j < |InOrder(tree)| ==> Precedes(InOrder(tree)[i].key, InOrder(tree)[j].key)
    {
      var s := InOrder(tree);
      forall w
        ensures w in s <==> w in cells
      {
        InOrderNodes(tree, w);
      }
      forall i, j | 0 <= i < j < |s|
        ensures Precedes(s[i].key, s[j].key)
      {
        assert Less(Keys(s)[i], Keys(s)[j]);
        PrecedesIsLess(s[i].key, s[j].key);
      }
    }

    /** `previous` undoes `next`, and `next` undoes `previous`. */
    method NextThenPrevious(node: Node, ghost pos: nat) returns (back: Node)
      requires Valid() && pos + 1 < |InOrder(tree)| && node == InOrder(tree)[pos]
      ensures back == node
    {
      var next := Next(node, pos);
      back := Previous(next, pos + 1);
    }

    method PreviousThenNext(node: Node, ghost pos: nat) returns (back: Node)
      requires Valid() && 0 < pos < |InOrder(tree)| && node == InOrder(tree)[pos]
      ensures back == node
    {
      var prev := Previous(node, pos);
      back := Next(prev, pos - 1);
    }
  }
}
