/** Key order along the tree, and what a comparison at a node says about a key searched for. */
module RbOrder {
  import opened Names
  import opened RbShape

  function Keys(s: seq<Node>): (k: seq<Name>)
    ensures |k| == |s|
    ensures forall i :: 0 <= i < |s| ==> k[i] == s[i].key
  {
    seq(|s|, i requires 0 <= i < |s| => s[i].key)
  }

  /** In-order, the keys increase strictly. */
  ghost predicate Ordered(t: Tree)
  {
    Sorted(Keys(InOrder(t)))
  }

  /** The gap of `z` is where `key` belongs: what lies before it is smaller, what lies after
      it is larger. */
  ghost predicate Around(z: Ctx, key: Name)
  {
    AllLess(Keys(Before(z)), key) && AllMore(key, Keys(After(z)))
  }

  /** Of five consecutive stretches of a sorted list, those after the middle are larger than
      whatever is smaller than the middle, and conversely. */
  lemma AroundMiddle(a: seq<Name>, b: seq<Name>, m: Name, c: seq<Name>, d: seq<Name>, key: Name)
    requires Sorted(a + b + [m] + c + d)
    ensures Less(key, m) && AllMore(key, d) ==> AllMore(key, [m] + c + d)
    ensures Less(m, key) && AllLess(a, key) ==> AllLess(a + b + [m], key)
  {
    var s := a + b + [m] + c + d;
    var k := |a| + |b|;
    assert s[k] == m;
    forall i | 0 <= i < |[m] + c + d| && Less(key, m)
      ensures Less(key, ([m] + c + d)[i])
    {
      assert s[k + i] == ([m] + c + d)[i];
      if i > 0 {
        LessTransitive(key, m, s[k + i]);
      }
    }
    forall i | 0 <= i < |a + b + [m]| && Less(m, key)
      ensures Less((a + b + [m])[i], key)
    {
      assert s[i] == (a + b + [m])[i];
      if i < k {
        LessTransitive(s[i], m, key);
      }
    }
  }

  lemma KeysAround(a: seq<Node>, l: seq<Node>, x: Node, r: seq<Node>, d: seq<Node>)
    ensures Keys(a + l + [x]) == Keys(a) + Keys(l) + [x.key]
    ensures Keys([x] + r + d) == [x.key] + Keys(r) + Keys(d)
    ensures Keys(a + l + [x] + r + d) == Keys(a) + Keys(l) + [x.key] + Keys(r) + Keys(d)
  {
  }

  lemma Reassociate<A>(a: seq<A>, l: seq<A>, x: A, r: seq<A>, d: seq<A>)
    ensures a + (l + [x] + r) + d == a + l + [x] + r + d
  {
  }

  lemma KeysOfPlug(z: Ctx, t: Tree)
    requires t.T?
    ensures Keys(InOrder(Plug(z, t))) ==
            Keys(Before(z)) + Keys(InOrder(t.l)) + [t.x.key] + Keys(InOrder(t.r)) + Keys(After(z))
  {
    PlugInOrder(z, t);
    Reassociate(Before(z), InOrder(t.l), t.x, InOrder(t.r), After(z));
    KeysAround(Before(z), InOrder(t.l), t.x, InOrder(t.r), After(z));
  }

  lemma StepDown(z: Ctx, t: Tree, key: Name)
    requires t.T? && Ordered(Plug(z, t)) && Around(z, key)
    ensures Less(key, t.x.key) ==> Around(InL(z, t.x, t.c, t.r), key)
    ensures Less(t.x.key, key) ==> Around(InR(t.l, t.x, t.c, z), key)
  {
    KeysOfPlug(z, t);
    KeysAround(Before(z), InOrder(t.l), t.x, InOrder(t.r), After(z));
    AroundMiddle(Keys(Before(z)), Keys(InOrder(t.l)), t.x.key, Keys(InOrder(t.r)), Keys(After(z)), key);
  }

  /** At an empty gap, the number of nodes before it is the key's slot. */
  lemma GapIsSlot(z: Ctx, key: Name)
    requires Around(z, key)
    ensures Slot(Keys(InOrder(Plug(z, Leaf))), key, |Before(z)|)
    ensures InOrder(Plug(z, Leaf))[..|Before(z)|] == Before(z)
    ensures InOrder(Plug(z, Leaf))[|Before(z)|..] == After(z)
  {
    PlugInOrder(z, Leaf);
    var s := InOrder(Plug(z, Leaf));
    assert s == Before(z) + After(z);
    assert Keys(s) == Keys(Before(z)) + Keys(After(z));
  }

  /** The last node that the way down passed on its right: what `find_less_equal` remembers. */
  function Floor(z: Ctx): Node?
  {
    match z
    case Top => null
    case InL(up, _, _, _) => Floor(up)
    case InR(_, x, _, _) => x
  }

  lemma {:induction false} FloorIsLast(z: Ctx)
    ensures Floor(z) == if Before(z) == [] then null else Before(z)[|Before(z)| - 1]
  {
    if z.InL? {
      FloorIsLast(z.up);
    }
  }

  /** The node before the gap precedes the slot of the key, and the key is not there. */
  lemma KeyMissing(z: Ctx, key: Name)
    requires Around(z, key)
    ensures var s, i := InOrder(Plug(z, Leaf)), |Before(z)|;
            key !in Keys(s) && i <= |s| && Slot(Keys(s), key, i) && (i > 0 ==> s[i - 1] == Before(z)[i - 1])
  {
    GapIsSlot(z, key);
    SlotMeansAbsent(Keys(InOrder(Plug(z, Leaf))), key, |Before(z)|);
    PlugInOrder(z, Leaf);
  }

  lemma NodeAt(z: Ctx, t: Tree)
    requires t.T?
    ensures var i := |Before(z)| + |InOrder(t.l)|;
            i < |InOrder(Plug(z, t))| && InOrder(Plug(z, t))[i] == t.x
  {
    PlugInOrder(z, t);
  }

  /** Putting a node into the slot of its key keeps the keys sorted. */
  lemma InsertKeys(s: seq<Node>, d: Node, i: nat)
    requires Sorted(Keys(s)) && Slot(Keys(s), d.key, i)
    ensures Keys(s[..i] + [d] + s[i..]) == Keys(s)[..i] + [d.key] + Keys(s)[i..]
    ensures Sorted(Keys(s[..i] + [d] + s[i..]))
  {
  }

  lemma WithoutKeys(s: seq<Node>, i: nat)
    requires Sorted(Keys(s)) && i < |s|
    ensures Keys(s[..i] + s[i + 1..]) == Keys(s)[..i] + Keys(s)[i + 1..]
    ensures Sorted(Keys(s[..i] + s[i + 1..]))
  {
  }

  lemma MatchAt(z: Ctx, t: Tree)
    requires t.T?
    ensures var i := |Before(z)| + |InOrder(t.l)|;
            i < |InOrder(Plug(z, t))| && InOrder(Plug(z, t))[i] == t.x
    ensures t.x.key in Keys(InOrder(Plug(z, t)))
  {
    NodeAt(z, t);
    assert Keys(InOrder(Plug(z, t)))[|Before(z)| + |InOrder(t.l)|] == t.x.key;
  }

  /** What comparing `key` at the root of `t` says about where it belongs. */
  lemma Compare(z: Ctx, t: Tree, key: Name)
    requires t.T? && Ordered(Plug(z, t)) && Around(z, key)
    ensures Strcmp(key, t.x.key) < 0 ==> Around(InL(z, t.x, t.c, t.r), key)
    ensures Strcmp(key, t.x.key) > 0 ==> Around(InR(t.l, t.x, t.c, z), key)
    ensures Strcmp(key, t.x.key) == 0 ==>
              var i := |Before(z)| + |InOrder(t.l)|;
              t.x.key == key && i < |InOrder(Plug(z, t))| && InOrder(Plug(z, t))[i] == t.x
              && key in Keys(InOrder(Plug(z, t)))
  {
    StepDown(z, t, key);
    Trichotomy(key, t.x.key);
    MatchAt(z, t);
  }

  /** The context and subtree of the node at place `pos` in order. */
  lemma PlaceOf(t: Tree, pos: nat) returns (z: Ctx, s: Tree)
    requires pos < |InOrder(t)|
    ensures Plug(z, s) == t && s.T? && s.x == InOrder(t)[pos] && |Before(z)| + |InOrder(s.l)| == pos
  {
    z, s := PlaceBelow(Top, t, pos);
  }

  lemma {:induction false} PlaceBelow(z: Ctx, t: Tree, pos: nat) returns (z': Ctx, s: Tree)
    requires |Before(z)| <= pos < |Before(z)| + |InOrder(t)|
    ensures Plug(z', s) == Plug(z, t) && s.T? && |Before(z')| + |InOrder(s.l)| == pos
    ensures s.x == InOrder(t)[pos - |Before(z)|]
    decreases t
  {
    var i := |Before(z)| + |InOrder(t.l)|;
    if pos < i {
      z', s := PlaceBelow(InL(z, t.x, t.c, t.r), t.l, pos);
    } else if pos == i {
      z', s := z, t;
    } else {
      z', s := PlaceBelow(InR(t.l, t.x, t.c, z), t.r, pos);
    }
  }

  lemma LiftRight(z: Ctx, s: Tree)
    requires z.InR?
    ensures |Before(z.up)| + |InOrder(Lift(z, s))| == |Before(z)| + |InOrder(s)|
  {
  }

  /** What follows a subtree in order is the node above it, if the subtree is on the left. */
  lemma AfterGap(z: Ctx, s: Tree, pos: nat)
    requires |Before(z)| + |InOrder(s)| == pos + 1
    ensures z.Top? ==> pos + 1 == |InOrder(Plug(z, s))|
    ensures z.InL? ==> pos + 1 < |InOrder(Plug(z, s))| && InOrder(Plug(z, s))[pos + 1] == z.x
  {
    PlugInOrder(z, s);
    if z.InL? {
      NodeAt(z.up, Lift(z, s));
    }
  }
}
