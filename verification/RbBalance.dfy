/** The red-black discipline on trees and contexts: equal black height on all paths, no red
    node with a red child, a black root; and what it says about size and height. */
module RbBalance {
  import opened Powers
  import opened RbShape

  predicate IsRed(t: Tree)
  {
    t.T? && t.c == Red
  }

  /** Black nodes on the leftmost path. */
  function BlackHeight(t: Tree): nat
  {
    match t
    case Leaf => 0
    case T(l, _, c, _) => BlackHeight(l) + if c == Black then 1 else 0
  }

  /** Every path has `n` black nodes, and no red node below the root has a red parent. */
  predicate Ok(t: Tree, n: int)
  {
    match t
    case Leaf => n == 0
    case T(l, _, Red, r) => Ok(l, n) && Ok(r, n) && !IsRed(l) && !IsRed(r)
    case T(l, _, Black, r) => Ok(l, n - 1) && Ok(r, n - 1)
  }

  /** A red-black tree. */
  predicate RedBlack(t: Tree)
  {
    !IsRed(t) && Ok(t, BlackHeight(t))
  }

  /** Below a red node, and at the very top, only a black subtree may be put. */
  predicate WantsBlack(z: Ctx)
  {
    z.Top? || z.c == Red
  }

  /** A context into which a tree of black height `n` fits. */
  predicate CtxOk(z: Ctx, n: int)
  {
    match z
    case Top => true
    case InL(up, _, Red, r) => Ok(r, n) && !IsRed(r) && CtxOk(up, n) && !WantsBlack(up)
    case InR(l, _, Red, up) => Ok(l, n) && !IsRed(l) && CtxOk(up, n) && !WantsBlack(up)
    case InL(up, _, Black, r) => Ok(r, n) && CtxOk(up, n + 1)
    case InR(l, _, Black, up) => Ok(l, n) && CtxOk(up, n + 1)
  }

  lemma {:induction false} OkHeight(t: Tree, n: int)
    requires Ok(t, n)
    ensures n == BlackHeight(t)
  {
    if t.T? {
      OkHeight(t.l, if t.c == Red then n else n - 1);
    }
  }

  /** A fitting subtree makes the whole a red-black tree, and conversely. */
  lemma {:induction false} PlugBalanced(z: Ctx, t: Tree, n: int)
    requires CtxOk(z, n) && Ok(t, n) && (WantsBlack(z) ==> !IsRed(t))
    ensures RedBlack(Plug(z, t))
  {
    match z
    case Top => OkHeight(t, n);
    case InL(up, x, c, r) => PlugBalanced(up, T(t, x, c, r), if c == Red then n else n + 1);
    case InR(l, x, c, up) => PlugBalanced(up, T(l, x, c, t), if c == Red then n else n + 1);
  }

  lemma {:induction false} UnplugBalanced(z: Ctx, t: Tree)
    requires RedBlack(Plug(z, t))
    ensures CtxOk(z, BlackHeight(t)) && Ok(t, BlackHeight(t)) && (WantsBlack(z) ==> !IsRed(t))
  {
    match z
    case Top =>
    case InL(up, x, c, r) =>
      UnplugBalanced(up, T(t, x, c, r));
    case InR(l, x, c, up) =>
      UnplugBalanced(up, T(l, x, c, t));
      OkHeight(t, BlackHeight(l));
  }

  /** What the last rotation of the delete fixup makes of the subtree `t`, one black node short,
      its parent `z.x` and its sibling with a red child on the far side. */
  lemma BorrowedLeft(z: Ctx, t: Tree, n: nat)
    requires z.InL? && Ok(t, n) && CtxOk(z, n + 1) && z.r.T? && !IsRed(z.r) && IsRed(z.r.r)
    ensures RedBlack(Plug(z.up, T(T(t, z.x, Black, z.r.l), z.r.x, z.c, z.r.r.(c := Black))))
  {
    var far := z.r.r;
    assert Ok(z.r, n + 1) && Ok(z.r.l, n) && Ok(far, n) && Ok(far.l, n) && Ok(far.r, n);
    var s := T(T(t, z.x, Black, z.r.l), z.r.x, z.c, far.(c := Black));
    assert Ok(s.l, n + 1) && Ok(s.r, n + 1);
    PlugBalanced(z.up, s, if z.c == Red then n + 1 else n + 2);
  }

  lemma BorrowedRight(z: Ctx, t: Tree, n: nat)
    requires z.InR? && Ok(t, n) && CtxOk(z, n + 1) && z.l.T? && !IsRed(z.l) && IsRed(z.l.l)
    ensures RedBlack(Plug(z.up, T(z.l.l.(c := Black), z.l.x, z.c, T(z.l.r, z.x, Black, t))))
  {
    var far := z.l.l;
    assert Ok(z.l, n + 1) && Ok(z.l.r, n) && Ok(far, n) && Ok(far.l, n) && Ok(far.r, n);
    var s := T(far.(c := Black), z.l.x, z.c, T(z.l.r, z.x, Black, t));
    assert Ok(s.l, n + 1) && Ok(s.r, n + 1);
    PlugBalanced(z.up, s, if z.c == Red then n + 1 else n + 2);
  }

  /** What the rotation at a black sibling with its inner child red leaves around the gap. */
  lemma TwistedLeft(z: Ctx, n: nat)
    requires z.InL? && CtxOk(z, n + 1) && z.r.T? && !IsRed(z.r) && IsRed(z.r.l) && !IsRed(z.r.r)
    ensures var s, y := z.r, z.r.l;
            CtxOk(InL(z.up, z.x, z.c, T(y.l, y.x, Black, T(y.r, s.x, Red, s.r))), n + 1)
  {
    var s, y := z.r, z.r.l;
    assert Ok(s, n + 1) && Ok(y, n) && Ok(s.r, n) && Ok(y.l, n) && Ok(y.r, n);
  }

  lemma TwistedRight(z: Ctx, n: nat)
    requires z.InR? && CtxOk(z, n + 1) && z.l.T? && !IsRed(z.l) && IsRed(z.l.r) && !IsRed(z.l.l)
    ensures var s, y := z.l, z.l.r;
            CtxOk(InR(T(T(s.l, s.x, Red, y.l), y.x, Black, y.r), z.x, z.c, z.up), n + 1)
  {
    var s, y := z.l, z.l.r;
    assert Ok(s, n + 1) && Ok(y, n) && Ok(s.l, n) && Ok(y.l, n) && Ok(y.r, n);
  }

  // ---- Size and height ----

  function Height(t: Tree): nat
  {
    match t
    case Leaf => 0
    case T(l, _, _, r) => 1 + if Height(l) < Height(r) then Height(r) else Height(l)
  }

  /** No path is more than twice as long as its number of black nodes. */
  lemma {:induction false} HeightBlackHeight(t: Tree, n: nat)
    requires Ok(t, n)
    ensures Height(t) <= 2 * n + if IsRed(t) then 1 else 0
  {
    if t.T? {
      OkHeight(t.l, if t.c == Red then n else n - 1);
      HeightBlackHeight(t.l, if t.c == Red then n else n - 1);
      HeightBlackHeight(t.r, if t.c == Red then n else n - 1);
    }
  }

  lemma {:induction false} SizeBlackHeight(t: Tree, n: nat)
    requires Ok(t, n)
    ensures Pow2(n) <= |InOrder(t)| + 1
  {
    if t.T? {
      OkHeight(t.l, if t.c == Red then n else n - 1);
      SizeBlackHeight(t.l, if t.c == Red then n else n - 1);
      SizeBlackHeight(t.r, if t.c == Red then n else n - 1);
    }
  }

  /** The height of a red-black tree is at most twice the logarithm of its size plus one. */
  lemma LogarithmicHeight(t: Tree)
    requires RedBlack(t)
    ensures Pow2(BlackHeight(t)) - 1 <= |InOrder(t)|
    ensures Height(t) <= 2 * BlackHeight(t)
    ensures Pow2(Height(t)) <= (|InOrder(t)| + 1) * (|InOrder(t)| + 1)
  {
    var n := BlackHeight(t);
    HeightBlackHeight(t, n);
    SizeBlackHeight(t, n);
    Pow2Grows(Height(t), n + n);
    Pow2Adds(n, n);
    MultiplyMonotone(Pow2(n), |InOrder(t)| + 1);
  }

  lemma MultiplyMonotone(a: nat, b: nat)
    requires a <= b
    ensures a * a <= b * b
  {
  }
}
