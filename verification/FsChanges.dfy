/** What inserting, removing and moving an entry does to the links and to where paths lead. */
module FsChanges {
  import opened Names
  import opened FsStore

  /** `insert`: `c` becomes child number `i` of `d`. */
  function KidInserted(s: Store, d: Entry, i: nat, c: Entry): Store
    requires d in s && c in s && i <= |s[d].kids|
  {
    var t := s[d := s[d].(kids := s[d].kids[..i] + [c] + s[d].kids[i..])];
    t[c := t[c].(parent := d)]
  }

  /** `remove_index`: child number `i` of `d` is taken out. */
  function KidRemoved(s: Store, d: Entry, i: nat): Store
    requires d in s && i < |s[d].kids| && s[d].kids[i] in s
  {
    var c := s[d].kids[i];
    var t := s[d := s[d].(kids := s[d].kids[..i] + s[d].kids[i + 1..])];
    t[c := t[c].(parent := null)]
  }

  // ---- A new entry ----

  function Added(s: Store, d: Entry, i: nat, c: Entry, n: Name, isDir: bool): Store
    requires d in s && c !in s && i <= |s[d].kids|
  {
    KidInserted(s[c := Info(d, n, isDir, [])], d, i, c)
  }

  /** The new entry `c` called `n` can be put at place `i` of directory `d`. */
  ghost predicate Addable(s: Store, root: Entry, d: Entry, i: nat, c: Entry, n: Name)
  {
    && LinksOk(s, root) && d in s && s[d].isDir && c !in s && ValidName(n)
    && KidsOk(s, d) && Slot(NamesOf(s, s[d].kids), n, i)
  }

  lemma AddedNames(s: Store, root: Entry, d: Entry, i: nat, c: Entry, n: Name, isDir: bool)
    requires Addable(s, root, d, i, c, n)
    ensures var t := Added(s, d, i, c, n, isDir);
            (forall k :: k in t[d].kids ==> k in t)
            && NamesOf(t, t[d].kids) == NamesOf(s, s[d].kids)[..i] + [n] + NamesOf(s, s[d].kids)[i..]
  {
  }

  lemma AddedLinks(s: Store, root: Entry, d: Entry, i: nat, c: Entry, n: Name, isDir: bool)
    requires Addable(s, root, d, i, c, n)
    ensures LinksOk(Added(s, d, i, c, n, isDir), root)
  {
    var t := Added(s, d, i, c, n, isDir);
    forall x | x in t
      ensures EntryOk(t, root, x)
    {
      if x == d {
        assert EntryOk(s, root, d);
        AddedNames(s, root, d, i, c, n, isDir);
        InsertSorted(NamesOf(s, s[d].kids), n, i);
      } else if x != c {
        assert EntryOk(s, root, x);
        assert NamesOf(t, t[x].kids) == NamesOf(s, s[x].kids);
      }
    }
  }

  lemma AddedChild(s: Store, root: Entry, d: Entry, i: nat, c: Entry, n: Name, isDir: bool, x: Entry, m: Name)
    requires Addable(s, root, d, i, c, n) && x in s
    ensures Child(Added(s, d, i, c, n, isDir), x, m) == if x == d && m == n then Some(c) else Child(s, x, m)
    ensures Child(s, d, n) == None
  {
    var t := Added(s, d, i, c, n, isDir);
    AddedLinks(s, root, d, i, c, n, isDir);
    assert EntryOk(s, root, x);
    SlotMeansAbsent(NamesOf(s, s[d].kids), n, i);
    forall k | k in s[d].kids
      ensures s[k].name != n
    {
      var j :| 0 <= j < |s[d].kids| && s[d].kids[j] == k;
      assert NamesOf(s, s[d].kids)[j] == s[k].name;
    }
    if x == d && m == n {
      ChildByName(t, root, d, c);
    } else if Child(s, x, m).Some? {
      ChildByName(t, root, x, Child(s, x, m).value);
    } else if Child(t, x, m).Some? {
      assert IsChild(s, x, m, Child(t, x, m).value);
    }
  }

  /** Whether `p` leads, from `x`, to the new entry. */
  ghost predicate LeadsToNew(s: Store, x: Entry, p: seq<Name>, d: Entry, n: Name)
  {
    p != [] && p[|p| - 1] == n && Walk(s, x, p[..|p| - 1]) == Some(d)
  }

  lemma {:induction false} AddedWalkFrom(s: Store, root: Entry, d: Entry, i: nat, c: Entry, n: Name, isDir: bool,
                                         x: Entry, p: seq<Name>)
    requires Addable(s, root, d, i, c, n) && x in s
    ensures Walk(Added(s, d, i, c, n, isDir), x, p) == if LeadsToNew(s, x, p, d, n) then Some(c) else Walk(s, x, p)
    decreases |p|
  {
    var t := Added(s, d, i, c, n, isDir);
    if p != [] && s[x].isDir {
      AddedChild(s, root, d, i, c, n, isDir, x, p[0]);
      AddedChild(s, root, d, i, c, n, isDir, d, n);
      if |p| == 1 {
        WalkOne(s, x, p[0]);
        WalkOne(t, x, p[0]);
        assert p == [p[0]] && p[..0] == [];
      } else if x == d && p[0] == n {
        NothingBelowNew(s, root, d, i, c, n, isDir, p[1..]);
        assert p[..|p| - 1][0] == n;
      } else if Child(s, x, p[0]).Some? {
        var y := Child(s, x, p[0]).value;
        assert IsChild(s, x, p[0], y);
        AddedWalkFrom(s, root, d, i, c, n, isDir, y, p[1..]);
        assert p[..|p| - 1][1..] == p[1..][..|p| - 2];
      }
    }
  }

  lemma NothingBelowNew(s: Store, root: Entry, d: Entry, i: nat, c: Entry, n: Name, isDir: bool, p: seq<Name>)
    requires Addable(s, root, d, i, c, n) && p != []
    ensures Walk(Added(s, d, i, c, n, isDir), c, p) == None
  {
  }

  /** Adding an entry changes where exactly one path leads. */
  lemma AddedWalk(s: Store, root: Entry, d: Entry, i: nat, c: Entry, n: Name, isDir: bool, dir: seq<Name>, p: seq<Name>)
    requires Addable(s, root, d, i, c, n) && Walk(s, root, dir) == Some(d)
    ensures Walk(Added(s, d, i, c, n, isDir), root, p) == if p == dir + [n] then Some(c) else Walk(s, root, p)
    ensures Walk(s, root, dir + [n]) == None
  {
    AddedWalkFrom(s, root, d, i, c, n, isDir, root, p);
    AddedChild(s, root, d, i, c, n, isDir, d, n);
    WalkAppend(s, root, dir, [n]);
    WalkOne(s, d, n);
    assert (dir + [n])[..|dir|] == dir;
    if LeadsToNew(s, root, p, d, n) {
      PathUnique(s, root, p[..|p| - 1], dir);
      assert p == p[..|p| - 1] + [n];
    }
  }

  /** Adding an entry keeps the invariant. */
  lemma AddedInv(s: Store, root: Entry, d: Entry, i: nat, c: Entry, n: Name, isDir: bool)
    requires Inv(s, root) && Addable(s, root, d, i, c, n)
    ensures Inv(Added(s, d, i, c, n, isDir), root)
  {
    var t := Added(s, d, i, c, n, isDir);
    AddedLinks(s, root, d, i, c, n, isDir);
    assert Reached(s, root, d);
    var dir :| Walk(s, root, dir) == Some(d);
    forall e | e in t
      ensures Reached(t, root, e)
    {
      if e == c {
        AddedWalk(s, root, d, i, c, n, isDir, dir, dir + [n]);
      } else {
        assert Reached(s, root, e);
        var p :| Walk(s, root, p) == Some(e);
        AddedWalk(s, root, d, i, c, n, isDir, dir, p);
      }
    }
  }

  // ---- Deleting an entry without children ----

  function Deleted(s: Store, d: Entry, i: nat): Store
    requires d in s && i < |s[d].kids| && s[d].kids[i] in s
  {
    KidRemoved(s, d, i) - {s[d].kids[i]}
  }

  ghost predicate Deletable(s: Store, root: Entry, d: Entry, i: nat)
  {
    && LinksOk(s, root) && d in s && i < |s[d].kids| && s[d].kids[i] in s && s[s[d].kids[i]].kids == []
  }

  lemma DeletedNames(s: Store, root: Entry, d: Entry, i: nat)
    requires Deletable(s, root, d, i)
    ensures var t := Deleted(s, d, i);
            d in t && (forall k :: k in t[d].kids ==> k in t && k != s[d].kids[i])
            && (forall k :: k in s[d].kids ==> k in s)
            && NamesOf(t, t[d].kids) == NamesOf(s, s[d].kids)[..i] + NamesOf(s, s[d].kids)[i + 1..]
  {
    var t := Deleted(s, d, i);
    var c := s[d].kids[i];
    assert EntryOk(s, root, d) && EntryOk(s, root, c);
    var names := NamesOf(s, s[d].kids);
    forall j | 0 <= j < |names| && j != i
      ensures s[d].kids[j] != c
    {
      if s[d].kids[j] == c {
        SortedNoDuplicates(names, i, j);
      }
    }
    assert t[d].kids == s[d].kids[..i] + s[d].kids[i + 1..];
  }

  lemma DeletedEntryOk(s: Store, root: Entry, d: Entry, i: nat, x: Entry)
    requires Deletable(s, root, d, i) && x in Deleted(s, d, i)
    ensures EntryOk(Deleted(s, d, i), root, x)
  {
    var t := Deleted(s, d, i);
    var c := s[d].kids[i];
    assert EntryOk(s, root, d) && EntryOk(s, root, c) && EntryOk(s, root, x);
    DeletedNames(s, root, d, i);
    if x == d {
      RemoveSorted(NamesOf(s, s[d].kids), i);
    } else {
      NotElsewhere(s, root, d, c, x);
      assert NamesOf(t, t[x].kids) == NamesOf(s, s[x].kids);
    }
  }

  lemma DeletedThenAdded(s: Store, root: Entry, d: Entry, i: nat)
    requires Deletable(s, root, d, i)
    ensures var c := s[d].kids[i];
            d in Deleted(s, d, i) && i <= |Deleted(s, d, i)[d].kids|
            && s == Added(Deleted(s, d, i), d, i, c, s[c].name, s[c].isDir)
  {
    var t := Deleted(s, d, i);
    var c := s[d].kids[i];
    assert EntryOk(s, root, d) && EntryOk(s, root, c);
    var a := Added(t, d, i, c, s[c].name, s[c].isDir);
    assert a.Keys == s.Keys;
    forall x | x in s
      ensures a[x] == s[x]
    {
      if x == d {
        assert s[d].kids == t[d].kids[..i] + [c] + t[d].kids[i..];
      }
    }
  }

  /** What is left after a deletion is sound, and adding the entry again gives back the store. */
  lemma DeletedLinks(s: Store, root: Entry, d: Entry, i: nat)
    requires Deletable(s, root, d, i)
    ensures var c := s[d].kids[i];
            && LinksOk(Deleted(s, d, i), root)
            && Addable(Deleted(s, d, i), root, d, i, c, s[c].name)
            && s == Added(Deleted(s, d, i), d, i, c, s[c].name, s[c].isDir)
  {
    assert EntryOk(s, root, d) && EntryOk(s, root, s[d].kids[i]);
    DeletedNames(s, root, d, i);
    RemoveSorted(NamesOf(s, s[d].kids), i);
    forall x | x in Deleted(s, d, i)
      ensures EntryOk(Deleted(s, d, i), root, x)
    {
      DeletedEntryOk(s, root, d, i, x);
    }
    assert EntryOk(Deleted(s, d, i), root, d);
    DeletedThenAdded(s, root, d, i);
  }

  lemma NotElsewhere(s: Store, root: Entry, d: Entry, c: Entry, x: Entry)
    requires LinksOk(s, root) && d in s && c in s[d].kids && x in s && x != d
    ensures c !in s[x].kids
  {
    assert EntryOk(s, root, x) && EntryOk(s, root, d);
  }

  lemma DeletedUndoesAdded(s: Store, root: Entry, d: Entry, i: nat, c: Entry, n: Name, isDir: bool)
    requires Addable(s, root, d, i, c, n)
    ensures var t := Added(s, d, i, c, n, isDir);
            i < |t[d].kids| && t[d].kids[i] == c && Deleted(t, d, i) == s
  {
    assert EntryOk(s, root, d);
    var t := Added(s, d, i, c, n, isDir);
    assert t[d].kids[..i] + t[d].kids[i + 1..] == s[d].kids;
  }

  /** Deleting an entry makes exactly its own path lead nowhere. */
  lemma DeletedWalk(s: Store, root: Entry, d: Entry, i: nat, p: seq<Name>)
    requires Inv(s, root) && Deletable(s, root, d, i)
    ensures var c := s[d].kids[i];
            Walk(Deleted(s, d, i), root, p) == if Walk(s, root, p) == Some(c) then None else Walk(s, root, p)
  {
    var t := Deleted(s, d, i);
    var c := s[d].kids[i];
    DeletedLinks(s, root, d, i);
    DeletedReached(s, root, d, i, d);
    var dir :| Walk(t, root, dir) == Some(d);
    AddedWalk(t, root, d, i, c, s[c].name, s[c].isDir, dir, p);
    WalkStays(t, root, root, p);
  }

  lemma DeletedReached(s: Store, root: Entry, d: Entry, i: nat, e: Entry)
    requires Inv(s, root) && Deletable(s, root, d, i) && e in Deleted(s, d, i)
    ensures Reached(Deleted(s, d, i), root, e)
  {
    var t := Deleted(s, d, i);
    var c := s[d].kids[i];
    DeletedLinks(s, root, d, i);
    assert EntryOk(s, root, d) && EntryOk(s, root, c);
    assert Reached(s, root, e);
    var p :| Walk(s, root, p) == Some(e);
    AddedWalkFrom(t, root, d, i, c, s[c].name, s[c].isDir, root, p);
  }

  lemma DeletedInv(s: Store, root: Entry, d: Entry, i: nat)
    requires Inv(s, root) && Deletable(s, root, d, i)
    ensures Inv(Deleted(s, d, i), root)
  {
    DeletedLinks(s, root, d, i);
    forall e | e in Deleted(s, d, i)
      ensures Reached(Deleted(s, d, i), root, e)
    {
      DeletedReached(s, root, d, i, e);
    }
  }
}
