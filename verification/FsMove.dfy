/** Renaming: the entry with everything below it goes to its new path, and the invariant holds
    afterwards exactly if the new path is usable. */
module FsMove {
  import opened Names
  import opened FsStore
  import opened FsChanges

  /** Child `i` of `sp` is taken out, called `n`, and put at place `j` of `dp`. */
  function Moved(s: Store, sp: Entry, i: nat, dp: Entry, j: nat, n: Name): Store
    requires sp in s && i < |s[sp].kids| && s[sp].kids[i] in s
    requires dp in s && j <= |KidRemoved(s, sp, i)[dp].kids|
  {
    var e := s[sp].kids[i];
    var t := KidRemoved(s, sp, i);
    KidInserted(t[e := t[e].(name := n)], dp, j, e)
  }

  /** A move as `ramfs_rename` makes it: the new name is free in `dp`, and `j` is its slot there
      once the entry has been taken out of `sp`. */
  ghost predicate Movable(s: Store, root: Entry, sp: Entry, i: nat, dp: Entry, j: nat, n: Name)
  {
    && LinksOk(s, root) && sp in s && i < |s[sp].kids| && s[sp].kids[i] in s
    && dp in s && s[dp].isDir && Child(s, dp, n) == None
    && var t := KidRemoved(s, sp, i);
       (forall k :: k in t[dp].kids ==> k in t) && Slot(NamesOf(t, t[dp].kids), n, j)
  }

  lemma RemovedFrom(s: Store, root: Entry, sp: Entry, i: nat)
    requires LinksOk(s, root) && sp in s && i < |s[sp].kids| && s[sp].kids[i] in s
    ensures var t, e := KidRemoved(s, sp, i), s[sp].kids[i];
            && (forall k :: k in t[sp].kids ==> k in t && k in s && k != e && k in s[sp].kids)
            && Sorted(NamesOf(t, t[sp].kids))
            && (forall k :: k in s[sp].kids && k != e ==> k in t[sp].kids)
  {
    var t, e := KidRemoved(s, sp, i), s[sp].kids[i];
    assert EntryOk(s, root, sp);
    var names := NamesOf(s, s[sp].kids);
    forall j | 0 <= j < |names| && j != i
      ensures s[sp].kids[j] != e
    {
      if s[sp].kids[j] == e {
        SortedNoDuplicates(names, i, j);
      }
    }
    assert t[sp].kids == s[sp].kids[..i] + s[sp].kids[i + 1..];
    RemoveSorted(names, i);
    assert NamesOf(t, t[sp].kids) == names[..i] + names[i + 1..];
  }

  lemma RemovedNames(s: Store, root: Entry, sp: Entry, i: nat, x: Entry)
    requires LinksOk(s, root) && sp in s && i < |s[sp].kids| && s[sp].kids[i] in s && x in s
    ensures var t := KidRemoved(s, sp, i);
            var e := s[sp].kids[i];
            && (forall k :: k in t[x].kids ==> k in t && k in s && k != e && k in s[x].kids && t[k].parent == x)
            && Sorted(NamesOf(t, t[x].kids))
            && (forall k :: k in s[x].kids && k != e ==> k in t[x].kids)
            && (x != sp ==> t[x].kids == s[x].kids)
  {
    var t := KidRemoved(s, sp, i);
    assert EntryOk(s, root, x) && EntryOk(s, root, sp);
    if x == sp {
      RemovedFrom(s, root, sp, i);
    } else {
      NotElsewhere(s, root, sp, s[sp].kids[i], x);
      assert NamesOf(t, t[x].kids) == NamesOf(s, s[x].kids);
    }
  }

  lemma MovedIntoKids(s: Store, root: Entry, sp: Entry, i: nat, dp: Entry, j: nat, n: Name)
    requires Movable(s, root, sp, i, dp, j, n)
    ensures var r, t, e := KidRemoved(s, sp, i), Moved(s, sp, i, dp, j, n), s[sp].kids[i];
            && t.Keys == r.Keys && e in t && t[dp].kids == r[dp].kids[..j] + [e] + r[dp].kids[j..]
            && t[e].name == n && (forall k :: k in r && k != e ==> t[k].name == r[k].name)
            && (forall k :: k in r[dp].kids ==> k in r && k != e)
  {
    RemovedNames(s, root, sp, i, dp);
  }

  lemma MovedInto(s: Store, root: Entry, sp: Entry, i: nat, dp: Entry, j: nat, n: Name)
    requires Movable(s, root, sp, i, dp, j, n)
    ensures var r, t, e := KidRemoved(s, sp, i), Moved(s, sp, i, dp, j, n), s[sp].kids[i];
            && t[dp].kids == r[dp].kids[..j] + [e] + r[dp].kids[j..]
            && (forall k :: k in t[dp].kids <==> k in r[dp].kids || k == e)
            && (forall k :: k in t[dp].kids ==> k in t)
            && Sorted(NamesOf(t, t[dp].kids))
  {
    var r, t, e := KidRemoved(s, sp, i), Moved(s, sp, i, dp, j, n), s[sp].kids[i];
    MovedIntoKids(s, root, sp, i, dp, j, n);
    RemovedNames(s, root, sp, i, dp);
    WithNewName(r, t, r[dp].kids, e, j, n);
  }

  /** One more entry, at the slot of its name. */
  lemma WithNewName(r: Store, t: Store, kids: seq<Entry>, e: Entry, j: nat, n: Name)
    requires e in t && t[e].name == n && t.Keys == r.Keys && j <= |kids|
    requires forall k :: k in kids ==> k in r && t[k].name == r[k].name
    requires Sorted(NamesOf(r, kids)) && Slot(NamesOf(r, kids), n, j)
    ensures forall k :: k in kids[..j] + [e] + kids[j..] <==> k in kids || k == e
    ensures Sorted(NamesOf(t, kids[..j] + [e] + kids[j..]))
  {
    assert kids == kids[..j] + kids[j..];
    InsertSorted(NamesOf(r, kids), n, j);
    assert NamesOf(t, kids[..j] + [e] + kids[j..]) == NamesOf(r, kids)[..j] + [n] + NamesOf(r, kids)[j..];
  }

  /** The children after a move. */
  lemma MovedKids(s: Store, root: Entry, sp: Entry, i: nat, dp: Entry, j: nat, n: Name, x: Entry)
    requires Movable(s, root, sp, i, dp, j, n) && x in s
    ensures var t := Moved(s, sp, i, dp, j, n);
            var e := s[sp].kids[i];
            && (forall k :: k in t[x].kids <==> (k in s[x].kids && k != e) || (x == dp && k == e))
            && (forall k :: k in t[x].kids ==> k in t && t[k].parent == x)
            && Sorted(NamesOf(t, t[x].kids))
  {
    var r, t := KidRemoved(s, sp, i), Moved(s, sp, i, dp, j, n);
    assert EntryOk(s, root, x) && EntryOk(s, root, sp);
    RemovedNames(s, root, sp, i, x);
    if x == dp {
      MovedInto(s, root, sp, i, dp, j, n);
    } else {
      assert t[x].kids == r[x].kids;
      assert NamesOf(t, t[x].kids) == NamesOf(r, r[x].kids);
    }
  }

  lemma MovedLinks(s: Store, root: Entry, sp: Entry, i: nat, dp: Entry, j: nat, n: Name)
    requires Movable(s, root, sp, i, dp, j, n) && ValidName(n)
    ensures LinksOk(Moved(s, sp, i, dp, j, n), root)
  {
    var t := Moved(s, sp, i, dp, j, n);
    var e := s[sp].kids[i];
    assert EntryOk(s, root, sp) && EntryOk(s, root, e) && EntryOk(s, root, dp) && EntryOk(s, root, root);
    forall x | x in t
      ensures EntryOk(t, root, x)
    {
      assert EntryOk(s, root, x);
      MovedKids(s, root, sp, i, dp, j, n, x);
      if x == e {
        MovedKids(s, root, sp, i, dp, j, n, dp);
      } else if x != root {
        MovedKids(s, root, sp, i, dp, j, n, s[x].parent);
      }
    }
  }

  lemma MovedChild(s: Store, root: Entry, sp: Entry, i: nat, dp: Entry, j: nat, n: Name, x: Entry, m: Name)
    requires Movable(s, root, sp, i, dp, j, n) && ValidName(n) && x in s
    ensures var e := s[sp].kids[i];
            Child(Moved(s, sp, i, dp, j, n), x, m) ==
            if x == dp && m == n then Some(e)
            else if x == sp && m == s[e].name then None
            else Child(s, x, m)
  {
    var t := Moved(s, sp, i, dp, j, n);
    var e := s[sp].kids[i];
    MovedLinks(s, root, sp, i, dp, j, n);
    MovedKids(s, root, sp, i, dp, j, n, x);
    ChildByName(s, root, sp, e);
    assert EntryOk(s, root, x) && EntryOk(s, root, sp);
    if x == dp && m == n {
      ChildByName(t, root, dp, e);
    } else if Child(t, x, m).Some? {
      var k := Child(t, x, m).value;
      assert k != e;
      ChildByName(s, root, x, k);
    } else if Child(s, x, m).Some? {
      var k := Child(s, x, m).value;
      if k != e {
        ChildByName(t, root, x, k);
      }
    }
  }

  // ---- Where paths lead after a move ----

  /** A move of the entry at `src` to `dst`, which are the paths of `sp` and `dp` with one more
      name each. */
  ghost predicate Move(s: Store, root: Entry, sp: Entry, i: nat, dp: Entry, j: nat, n: Name,
                       srcDir: seq<Name>, dstDir: seq<Name>)
  {
    && Movable(s, root, sp, i, dp, j, n)
    && Walk(s, root, srcDir) == Some(sp) && Walk(s, root, dstDir) == Some(dp)
  }

  function Source(s: Store, sp: Entry, i: nat, srcDir: seq<Name>): seq<Name>
    requires sp in s && i < |s[sp].kids| && s[sp].kids[i] in s
  {
    srcDir + [s[s[sp].kids[i]].name]
  }

  lemma SourceLeads(s: Store, root: Entry, sp: Entry, i: nat, srcDir: seq<Name>)
    requires LinksOk(s, root) && sp in s && i < |s[sp].kids| && s[sp].kids[i] in s
    requires Walk(s, root, srcDir) == Some(sp)
    ensures Walk(s, root, Source(s, sp, i, srcDir)) == Some(s[sp].kids[i])
  {
    var e := s[sp].kids[i];
    assert EntryOk(s, root, sp);
    ChildByName(s, root, sp, e);
    WalkAppend(s, root, srcDir, [s[e].name]);
    WalkOne(s, sp, s[e].name);
  }

  lemma ChildOutside(s: Store, root: Entry, sp: Entry, i: nat, dp: Entry, j: nat, n: Name,
                     srcDir: seq<Name>, dstDir: seq<Name>, x: Entry, xp: seq<Name>, m: Name)
    requires Move(s, root, sp, i, dp, j, n, srcDir, dstDir) && ValidName(n)
    requires x in s && Walk(s, root, xp) == Some(x)
    requires xp + [m] != Source(s, sp, i, srcDir) && xp + [m] != dstDir + [n]
    ensures Child(Moved(s, sp, i, dp, j, n), x, m) == Child(s, x, m)
  {
    MovedChild(s, root, sp, i, dp, j, n, x, m);
    if x == dp {
      PathUnique(s, root, xp, dstDir);
    }
    if x == sp {
      PathUnique(s, root, xp, srcDir);
    }
  }

  /** From an entry outside what is moved, a walk that neither enters the moved entry nor takes the
      new name leads where it led. */
  lemma {:induction false} WalkOutside(s: Store, root: Entry, sp: Entry, i: nat, dp: Entry, j: nat, n: Name,
                                       srcDir: seq<Name>, dstDir: seq<Name>, x: Entry, xp: seq<Name>, p: seq<Name>)
    requires Move(s, root, sp, i, dp, j, n, srcDir, dstDir) && ValidName(n)
    requires x in s && Walk(s, root, xp) == Some(x)
    requires !(Source(s, sp, i, srcDir) <= xp + p) && !(dstDir + [n] <= xp + p)
    ensures Walk(Moved(s, sp, i, dp, j, n), x, p) == Walk(s, x, p)
    decreases |p|
  {
    if p != [] && s[x].isDir {
      var m := p[0];
      assert xp + p == xp + [m] + p[1..];
      ChildOutside(s, root, sp, i, dp, j, n, srcDir, dstDir, x, xp, m);
      if Child(s, x, m).Some? {
        var y := Child(s, x, m).value;
        assert IsChild(s, x, m, y);
        WalkAppend(s, root, xp, [m]);
        WalkOne(s, x, m);
        WalkOutside(s, root, sp, i, dp, j, n, srcDir, dstDir, y, xp + [m], p[1..]);
      }
    }
  }

  lemma ChildBelow(s: Store, root: Entry, sp: Entry, i: nat, dp: Entry, j: nat, n: Name,
                   srcDir: seq<Name>, dstDir: seq<Name>, x: Entry, xp: seq<Name>, m: Name)
    requires Move(s, root, sp, i, dp, j, n, srcDir, dstDir) && ValidName(n)
    requires x in s && Walk(s, root, xp) == Some(x) && Source(s, sp, i, srcDir) <= xp
    requires xp + [m] != dstDir + [n]
    ensures Child(Moved(s, sp, i, dp, j, n), x, m) == Child(s, x, m)
  {
    MovedChild(s, root, sp, i, dp, j, n, x, m);
    if x == sp {
      PathUnique(s, root, xp, srcDir);
    }
    if x == dp {
      PathUnique(s, root, xp, dstDir);
    }
  }

  /** Below the moved entry, as long as the new place is not below it, nothing changes. */
  lemma {:induction false} WalkBelow(s: Store, root: Entry, sp: Entry, i: nat, dp: Entry, j: nat, n: Name,
                                     srcDir: seq<Name>, dstDir: seq<Name>, x: Entry, xp: seq<Name>, p: seq<Name>)
    requires Move(s, root, sp, i, dp, j, n, srcDir, dstDir) && ValidName(n)
    requires x in s && Walk(s, root, xp) == Some(x) && Source(s, sp, i, srcDir) <= xp
    requires !(dstDir + [n] <= xp + p)
    ensures Walk(Moved(s, sp, i, dp, j, n), x, p) == Walk(s, x, p)
    decreases |p|
  {
    if p != [] && s[x].isDir {
      var m := p[0];
      assert xp + p == xp + [m] + p[1..];
      ChildBelow(s, root, sp, i, dp, j, n, srcDir, dstDir, x, xp, m);
      if Child(s, x, m).Some? {
        var y := Child(s, x, m).value;
        assert IsChild(s, x, m, y);
        WalkAppend(s, root, xp, [m]);
        WalkOne(s, x, m);
        WalkBelow(s, root, sp, i, dp, j, n, srcDir, dstDir, y, xp + [m], p[1..]);
      }
    }
  }

  /** The new path is not a way through existing entries, so nothing is at once at or under the
      source and at or under the destination. */
  lemma SourceAvoidsTarget(s: Store, root: Entry, sp: Entry, i: nat, dp: Entry, j: nat, n: Name,
                           srcDir: seq<Name>, dstDir: seq<Name>, p: seq<Name>)
    requires Move(s, root, sp, i, dp, j, n, srcDir, dstDir)
    requires !(Source(s, sp, i, srcDir) <= dstDir) && Source(s, sp, i, srcDir) <= p
    ensures !(dstDir + [n] <= p)
  {
    var src, dst := Source(s, sp, i, srcDir), dstDir + [n];
    SourceLeads(s, root, sp, i, srcDir);
    TargetFree(s, root, sp, i, dp, j, n, srcDir, dstDir, src);
    ComparePrefixes(src, dst, p);
    PrefixOfExtended(src, dstDir, n);
  }

  lemma PrefixOfExtended<A>(a: seq<A>, d: seq<A>, x: A)
    ensures a <= d + [x] ==> a == d + [x] || a <= d
  {
  }

  lemma ComparePrefixes<A>(a: seq<A>, b: seq<A>, p: seq<A>)
    ensures a <= p && b <= p ==> a <= b || b <= a
  {
  }

  /** Before the move nothing is at or under the destination. */
  lemma TargetFree(s: Store, root: Entry, sp: Entry, i: nat, dp: Entry, j: nat, n: Name,
                   srcDir: seq<Name>, dstDir: seq<Name>, p: seq<Name>)
    requires Move(s, root, sp, i, dp, j, n, srcDir, dstDir)
    ensures dstDir + [n] <= p ==> Walk(s, root, p) == None
  {
    if dstDir + [n] <= p {
      WalkAppend(s, root, dstDir, [n]);
      WalkOne(s, dp, n);
      WalkAppend(s, root, dstDir + [n], p[|dstDir| + 1..]);
      assert p == dstDir + [n] + p[|dstDir| + 1..];
    }
  }

  /** After the move the destination is the moved entry. */
  lemma TargetLeads(s: Store, root: Entry, sp: Entry, i: nat, dp: Entry, j: nat, n: Name,
                    srcDir: seq<Name>, dstDir: seq<Name>)
    requires Move(s, root, sp, i, dp, j, n, srcDir, dstDir) && ValidName(n)
    requires !(Source(s, sp, i, srcDir) <= dstDir)
    ensures Walk(Moved(s, sp, i, dp, j, n), root, dstDir + [n]) == Some(s[sp].kids[i])
  {
    var t := Moved(s, sp, i, dp, j, n);
    assert [] + dstDir == dstDir;
    WalkOutside(s, root, sp, i, dp, j, n, srcDir, dstDir, root, [], dstDir);
    WalkAppend(t, root, dstDir, [n]);
    WalkOne(t, dp, n);
    MovedChild(s, root, sp, i, dp, j, n, dp, n);
  }

  /** A rename to a place not at or under the source moves the whole subtree: what was at
      `src + q` is at `dst + q`, nothing is left at or under `src`, and no other path changes. */
  lemma MoveWalk(s: Store, root: Entry, sp: Entry, i: nat, dp: Entry, j: nat, n: Name,
                 srcDir: seq<Name>, dstDir: seq<Name>, q: seq<Name>)
    requires Move(s, root, sp, i, dp, j, n, srcDir, dstDir) && ValidName(n)
    requires !(Source(s, sp, i, srcDir) <= dstDir)
    ensures var t, src, dst := Moved(s, sp, i, dp, j, n), Source(s, sp, i, srcDir), dstDir + [n];
            && Walk(t, root, dst + q) == Walk(s, root, src + q)
            && (src <= q ==> Walk(t, root, q) == None)
            && (!(src <= q) && !(dst <= q) ==> Walk(t, root, q) == Walk(s, root, q))
  {
    var t, src, dst := Moved(s, sp, i, dp, j, n), Source(s, sp, i, srcDir), dstDir + [n];
    var e := s[sp].kids[i];
    SourceLeads(s, root, sp, i, srcDir);
    TargetLeads(s, root, sp, i, dp, j, n, srcDir, dstDir);
    SourceAvoidsTarget(s, root, sp, i, dp, j, n, srcDir, dstDir, src + q);
    WalkBelow(s, root, sp, i, dp, j, n, srcDir, dstDir, e, src, q);
    WalkAppend(s, root, src, q);
    WalkAppend(t, root, dst, q);
    assert [] + q == q;
    if !(src <= q) && !(dst <= q) {
      WalkOutside(s, root, sp, i, dp, j, n, srcDir, dstDir, root, [], q);
    }
    if src <= q {
      SourceEmptied(s, root, sp, i, dp, j, n, srcDir, dstDir);
      WalkAppend(t, root, src, q[|src|..]);
      assert q == src + q[|src|..];
    }
  }

  lemma SourceEmptied(s: Store, root: Entry, sp: Entry, i: nat, dp: Entry, j: nat, n: Name,
                      srcDir: seq<Name>, dstDir: seq<Name>)
    requires Move(s, root, sp, i, dp, j, n, srcDir, dstDir) && ValidName(n)
    requires !(Source(s, sp, i, srcDir) <= dstDir)
    ensures Walk(Moved(s, sp, i, dp, j, n), root, Source(s, sp, i, srcDir)) == None
  {
    var t, src := Moved(s, sp, i, dp, j, n), Source(s, sp, i, srcDir);
    var m := s[s[sp].kids[i]].name;
    assert [] + srcDir == srcDir;
    TargetFree(s, root, sp, i, dp, j, n, srcDir, dstDir, srcDir);
    WalkOutside(s, root, sp, i, dp, j, n, srcDir, dstDir, root, [], srcDir);
    MovedChild(s, root, sp, i, dp, j, n, sp, m);
    ChildByName(s, root, sp, s[sp].kids[i]);
    WalkAppend(t, root, srcDir, [m]);
    WalkOne(t, sp, m);
  }

  lemma MovedTypes(s: Store, root: Entry, sp: Entry, i: nat, dp: Entry, j: nat, n: Name)
    requires Movable(s, root, sp, i, dp, j, n)
    ensures var t := Moved(s, sp, i, dp, j, n); forall e :: e in s ==> e in t && t[e].isDir == s[e].isDir
  {
  }

  /** What a path led to before is led to by that path or by the one it was moved to. */
  lemma StillReached(s: Store, root: Entry, sp: Entry, i: nat, dp: Entry, j: nat, n: Name,
                     srcDir: seq<Name>, dstDir: seq<Name>, p: seq<Name>, e: Entry)
    requires Move(s, root, sp, i, dp, j, n, srcDir, dstDir) && ValidName(n)
    requires !(Source(s, sp, i, srcDir) <= dstDir) && Walk(s, root, p) == Some(e)
    ensures Reached(Moved(s, sp, i, dp, j, n), root, e)
  {
    var t, src := Moved(s, sp, i, dp, j, n), Source(s, sp, i, srcDir);
    if src <= p {
      var q := p[|src|..];
      assert p == src + q;
      MoveWalk(s, root, sp, i, dp, j, n, srcDir, dstDir, q);
      assert Walk(t, root, dstDir + [n] + q) == Some(e);
    } else {
      TargetFree(s, root, sp, i, dp, j, n, srcDir, dstDir, p);
      MoveWalk(s, root, sp, i, dp, j, n, srcDir, dstDir, p);
      assert Walk(t, root, p) == Some(e);
    }
  }

  lemma MoveInv(s: Store, root: Entry, sp: Entry, i: nat, dp: Entry, j: nat, n: Name,
                srcDir: seq<Name>, dstDir: seq<Name>)
    requires Inv(s, root) && Move(s, root, sp, i, dp, j, n, srcDir, dstDir) && ValidName(n)
    requires !(Source(s, sp, i, srcDir) <= dstDir)
    ensures Inv(Moved(s, sp, i, dp, j, n), root)
  {
    var t := Moved(s, sp, i, dp, j, n);
    MovedLinks(s, root, sp, i, dp, j, n);
    forall e | e in t
      ensures Reached(t, root, e)
    {
      assert Reached(s, root, e);
      var p :| Walk(s, root, p) == Some(e);
      StillReached(s, root, sp, i, dp, j, n, srcDir, dstDir, p, e);
    }
  }

  /** A rename to a place at or under the source ties the moved entry into a cycle, out of reach of
      the root. */
  lemma MoveUnderItself(s: Store, root: Entry, sp: Entry, i: nat, dp: Entry, j: nat, n: Name,
                        srcDir: seq<Name>, dstDir: seq<Name>)
    requires Move(s, root, sp, i, dp, j, n, srcDir, dstDir) && ValidName(n)
    requires Source(s, sp, i, srcDir) <= dstDir
    ensures !Reached(Moved(s, sp, i, dp, j, n), root, s[sp].kids[i])
  {
    var t, src := Moved(s, sp, i, dp, j, n), Source(s, sp, i, srcDir);
    var e := s[sp].kids[i];
    var down := dstDir[|src|..];
    assert dstDir == src + down;
    SourceLeads(s, root, sp, i, srcDir);
    WalkAppend(s, root, src, down);
    WalkBelow(s, root, sp, i, dp, j, n, srcDir, dstDir, e, src, down);
    MovedChild(s, root, sp, i, dp, j, n, dp, n);
    WalkAppend(t, e, down, [n]);
    WalkOne(t, dp, n);
    MovedLinks(s, root, sp, i, dp, j, n);
    if Reached(t, root, e) {
      var p :| Walk(t, root, p) == Some(e);
      WalkAppend(t, root, p, down + [n]);
      PathUnique(t, root, p, p + (down + [n]));
    }
  }

  /** `ramfs_rename` keeps the invariant exactly if the new name is not empty and the new place is
      not at or under the old one. */
  lemma MoveKeepsInvariant(s: Store, root: Entry, sp: Entry, i: nat, dp: Entry, j: nat, n: Name,
                           srcDir: seq<Name>, dstDir: seq<Name>)
    requires Inv(s, root) && Move(s, root, sp, i, dp, j, n, srcDir, dstDir) && SLASH !in n
    ensures Inv(Moved(s, sp, i, dp, j, n), root) <==> n != [] && !(Source(s, sp, i, srcDir) <= dstDir)
  {
    var t := Moved(s, sp, i, dp, j, n);
    var e := s[sp].kids[i];
    if n == [] {
      assert EntryOk(s, root, sp) && EntryOk(s, root, e);
      assert !EntryOk(t, root, e);
    } else if Source(s, sp, i, srcDir) <= dstDir {
      MoveUnderItself(s, root, sp, i, dp, j, n, srcDir, dstDir);
    } else {
      MoveInv(s, root, sp, i, dp, j, n, srcDir, dstDir);
    }
  }
}
