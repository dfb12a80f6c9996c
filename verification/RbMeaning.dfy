/** What a valid tree is, said of the nodes and their pointers alone: along the pointers, keys are in
    search order, no red node has a red child, and all ways down pass equally many black nodes. */
module RbMeaning {
  import opened Names
  import opened RbShape
  import opened RbLinks
  import opened RbBalance
  import opened RbOrder
  import opened RbTrees

  /** Where the pointers lead from `n`, `true` being right; they lead nowhere from outside the tree. */
  ghost function Follow(t: RbTree, n: Node, way: seq<bool>): Node
    reads t, t.cells.Keys
  {
    if way == [] || n !in t.cells then n
    else Follow(t, if way[0] then n.right else n.left, way[1..])
  }

  /** How many black nodes the way passes. */
  ghost function Blacks(t: RbTree, n: Node, way: seq<bool>): nat
    reads t, t.cells.Keys
  {
    if way == [] || n !in t.cells then 0
    else (if n.color == Black then 1 else 0) + Blacks(t, if way[0] then n.right else n.left, way[1..])
  }

  /** The pointers from `n` down are the tree `s`. */
  ghost predicate Below(t: RbTree, s: Tree, n: Node)
    reads t, t.nil, t.cells.Keys
  {
    match s
    case Leaf => n == t.nil && n !in t.cells
    case T(l, x, c, r) => n == x && x in t.cells && x.color == c && Below(t, l, x.left) && Below(t, r, x.right)
  }

  lemma {:induction false} SubBelow(t: RbTree, s: Tree, n: Node, p: Node)
    requires t.Linked() && Sub(t.nil, t.cells, s, n, p)
    ensures Below(t, s, n)
  {
    if s.T? {
      SubBelow(t, s.l, n.left, n);
      SubBelow(t, s.r, n.right, n);
    }
  }

  lemma {:induction false} FollowBelow(t: RbTree, s: Tree, n: Node, way: seq<bool>)
    requires Below(t, s, n)
    ensures Follow(t, n, way) in Nodes(s) || Follow(t, n, way) == t.nil
    decreases s
  {
    if way != [] && s.T? {
      FollowBelow(t, if way[0] then s.r else s.l, if way[0] then n.right else n.left, way[1..]);
    }
  }

  lemma {:induction false} WayTo(t: RbTree, s: Tree, n: Node, w: Node) returns (way: seq<bool>)
    requires Below(t, s, n) && w in Nodes(s)
    ensures Follow(t, n, way) == w
    decreases s
  {
    if w == n {
      way := [];
    } else if w in Nodes(s.l) {
      var rest := WayTo(t, s.l, n.left, w);
      way := [false] + rest;
    } else {
      var rest := WayTo(t, s.r, n.right, w);
      way := [true] + rest;
    }
  }

  /** All ways that lead out of the tree pass the same number of black nodes. */
  lemma {:induction false} BlacksBelow(t: RbTree, s: Tree, n: Node, way: seq<bool>, k: int)
    requires Below(t, s, n) && Ok(s, k) && Follow(t, n, way) !in t.cells
    ensures Blacks(t, n, way) == k
    decreases s
  {
    if s.T? {
      var k' := if s.c == Red then k else k - 1;
      BlacksBelow(t, if way[0] then s.r else s.l, if way[0] then n.right else n.left, way[1..], k');
    }
  }

  /** The keys of a subtree in search order: to the left they are smaller, to the right larger. */
  lemma {:induction false} OrderBelow(t: RbTree, s: Tree, n: Node, way: seq<bool>, right: bool, rest: seq<bool>)
    requires Below(t, s, n) && Ordered(s)
    ensures var x, y := Follow(t, n, way), Follow(t, n, way + [right] + rest);
            x in t.cells && y in t.cells ==> if right then Less(x.key, y.key) else Less(y.key, x.key)
    decreases s
  {
    if s.T? {
      OrderedParts(s);
      var all := way + [right] + rest;
      if way == [] {
        var side := if right then s.r else s.l;
        var next := if right then n.right else n.left;
        assert all[1..] == rest;
        FollowBelow(t, side, next, rest);
        SideOfRoot(s, Follow(t, next, rest), right);
        NilOutside(t, s, n);
      } else {
        assert all[1..] == way[1..] + [right] + rest && all[0] == way[0];
        OrderBelow(t, if way[0] then s.r else s.l, if way[0] then n.right else n.left, way[1..], right, rest);
      }
    }
  }

  lemma OrderedParts(s: Tree)
    requires s.T? && Ordered(s)
    ensures Ordered(s.l) && Ordered(s.r)
  {
    var a, b := InOrder(s.l), InOrder(s.r);
    var k := Keys(InOrder(s));
    assert forall i :: 0 <= i < |a| ==> Keys(a)[i] == k[i];
    assert forall i :: 0 <= i < |b| ==> Keys(b)[i] == k[|a| + 1 + i];
  }

  lemma SideOfRoot(s: Tree, w: Node, right: bool)
    requires s.T? && Ordered(s)
    ensures w in Nodes(if right then s.r else s.l) ==> if right then Less(s.x.key, w.key) else Less(w.key, s.x.key)
  {
    var a, b := InOrder(s.l), InOrder(s.r);
    var k := Keys(InOrder(s));
    assert k[|a|] == s.x.key;
    if w in Nodes(if right then s.r else s.l) {
      InOrderNodes(if right then s.r else s.l, w);
      if right {
        var i :| 0 <= i < |b| && b[i] == w;
        assert k[|a| + 1 + i] == w.key;
      } else {
        var i :| 0 <= i < |a| && a[i] == w;
        assert k[i] == w.key;
      }
    }
  }

  lemma {:induction false} NilOutside(t: RbTree, s: Tree, n: Node)
    requires Below(t, s, n)
    ensures t.nil !in t.cells
  {
    if s.T? {
      NilOutside(t, s.l, n.left);
    }
  }

  lemma {:induction false} SizeOf(s: Tree)
    requires Distinct(s)
    ensures |InOrder(s)| == |Nodes(s)|
  {
    if s.T? {
      SizeOf(s.l);
      SizeOf(s.r);
      assert Nodes(s) == Nodes(s.l) + {s.x} + Nodes(s.r);
    }
  }

  // ---- A valid tree ----

  lemma ValidBelow(t: RbTree)
    requires t.Valid()
    ensures Below(t, t.tree, t.root) && t.nil !in t.cells && Nodes(t.tree) == t.cells.Keys
  {
    SubBelow(t, t.tree, t.root, t.nil);
  }

  /** The nodes of the tree are those that the pointers lead to from the root, and `count` is their number. */
  lemma NodesMeaning(t: RbTree, w: Node)
    requires t.Valid()
    ensures w in t.cells <==> w != t.nil && exists way :: Follow(t, t.root, way) == w
    ensures t.count == |t.cells|
  {
    ValidBelow(t);
    SizeOf(t.tree);
    assert t.cells.Keys == Nodes(t.tree);
    if w in t.cells {
      var way := WayTo(t, t.tree, t.root, w);
    }
    forall way
      ensures Follow(t, t.root, way) in t.cells || Follow(t, t.root, way) == t.nil
    {
      FollowBelow(t, t.tree, t.root, way);
    }
  }

  /** Whatever lies to the left of a node precedes it, whatever lies to the right follows it. */
  lemma OrderMeaning(t: RbTree, way: seq<bool>, rest: seq<bool>)
    requires t.Valid()
    ensures var x, y := Follow(t, t.root, way), Follow(t, t.root, way + [false] + rest);
            x in t.cells && y in t.cells ==> Precedes(y.key, x.key)
    ensures var x, y := Follow(t, t.root, way), Follow(t, t.root, way + [true] + rest);
            x in t.cells && y in t.cells ==> Precedes(x.key, y.key)
  {
    ValidBelow(t);
    var x, l := Follow(t, t.root, way), Follow(t, t.root, way + [false] + rest);
    var r := Follow(t, t.root, way + [true] + rest);
    OrderBelow(t, t.tree, t.root, way, false, rest);
    OrderBelow(t, t.tree, t.root, way, true, rest);
    PrecedesIsLess(l.key, x.key);
    PrecedesIsLess(x.key, r.key);
  }

  /** All ways from the root out of the tree pass equally many black nodes. */
  lemma BlackMeaning(t: RbTree, p: seq<bool>, q: seq<bool>)
    requires t.Valid() && Follow(t, t.root, p) == t.nil && Follow(t, t.root, q) == t.nil
    ensures Blacks(t, t.root, p) == Blacks(t, t.root, q)
  {
    ValidBelow(t);
    BlacksBelow(t, t.tree, t.root, p, BlackHeight(t.tree));
    BlacksBelow(t, t.tree, t.root, q, BlackHeight(t.tree));
  }

  /** Parents and children point at each other, the root and the children of red nodes are black. */
  lemma LinksMeaning(t: RbTree, w: Node)
    requires t.Valid() && w in t.cells
    ensures w.left != t.nil ==> w.left in t.cells && w.left.parent == w
    ensures w.right != t.nil ==> w.right in t.cells && w.right.parent == w && w.right != w.left
    ensures if w == t.root then w.parent == t.nil
            else w.parent in t.cells && (w.parent.left == w || w.parent.right == w)
    ensures w == t.root ==> w.color == Black
    ensures w.color == Red ==> w.left.color == Black && w.right.color == Black
  {
    var z, s := Locate(Top, t.tree, w);
    t.At(z, s);
    t.At(InL(z, s.x, s.c, s.r), s.l);
    t.At(InR(s.l, s.x, s.c, z), s.r);
    UnplugBalanced(z, s);
  }
}
