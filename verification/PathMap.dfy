/** The file system as its users see it: a finite map from paths, as sequences of names, to what is
    there. Every operation on the linked entries has the effect that its simple counterpart has on
    that map, and so has every run of operations. */
module PathMaps {
  import opened Names
  import opened FsStore
  import opened FsChanges
  import opened FsMove
  import opened Paths
  import opened RamFsVector

  /** What is at a path: whether it is a directory, and which entry it is, given by the number of the
      operation that made it; the root has number 0. */
  datatype Tag = Tag(isDir: bool, maker: nat)

  type PathMap = map<seq<Name>, Tag>

  /** `e` is the entry that `tag` stands for, `made` being the entries in the order of making. */
  ghost predicate Tagged(s: Store, made: seq<Entry?>, tag: Tag, e: Entry)
  {
    e in s && tag.isDir == s[e].isDir && tag.maker < |made| && made[tag.maker] == e
  }

  ghost predicate ShownAt(s: Store, root: Entry, made: seq<Entry?>, m: PathMap, p: seq<Name>)
  {
    match Walk(s, root, p)
    case None => p !in m
    case Some(e) => p in m && Tagged(s, made, m[p], e)
  }

  /** The paths in `m` are those that lead somewhere in the store. */
  ghost predicate Shows(s: Store, root: Entry, made: seq<Entry?>, m: PathMap)
  {
    forall p {:trigger ShownAt(s, root, made, m, p)} :: ShownAt(s, root, made, m, p)
  }

  predicate IsDirIn(m: PathMap, p: seq<Name>)
  {
    p in m && m[p].isDir
  }

  // ---- The operations on path maps ----

  predicate CanMake(m: PathMap, path: Path)
  {
    Base(path) != [] && IsDirIn(m, DirComps(path)) && Comps(path) !in m
  }

  function MakeIn(m: PathMap, path: Path, tag: Tag): PathMap
  {
    if CanMake(m, path) then m[Comps(path) := tag] else m
  }

  ghost predicate Childless(m: PathMap, p: seq<Name>)
  {
    forall q :: q in m && p <= q ==> q == p
  }

  ghost predicate CanRemove(m: PathMap, path: Path, isDir: bool)
  {
    Base(path) != [] && Comps(path) in m && m[Comps(path)].isDir == isDir && Childless(m, Comps(path))
  }

  ghost function RemoveFrom(m: PathMap, path: Path, isDir: bool): PathMap
  {
    if CanRemove(m, path, isDir) then m - {Comps(path)} else m
  }

  predicate CanRename(m: PathMap, src: Path, dst: Path)
  {
    && Base(src) != [] && Comps(src) in m && IsDirIn(m, DirComps(dst))
    && (Base(dst) == [] || Comps(dst) !in m)
  }

  /** The paths after everything at or under `src` has gone to the same place at or under `dst`. */
  ghost function RelocatedPaths(m: PathMap, src: seq<Name>, dst: seq<Name>): set<seq<Name>>
  {
    (set p | p in m && !(src <= p)) + (set p | p in m && src <= p :: dst + p[|src|..])
  }

  ghost function Relocated(m: PathMap, src: seq<Name>, dst: seq<Name>): PathMap
  {
    map p | p in RelocatedPaths(m, src, dst) ::
      if dst <= p && src + p[|dst|..] in m then m[src + p[|dst|..]] else if p in m then m[p] else Tag(false, 0)
  }

  ghost function RenameIn(m: PathMap, src: Path, dst: Path): PathMap
  {
    if src != dst && CanRename(m, src, dst) then Relocated(m, Comps(src), Comps(dst)) else m
  }

  // ---- Reading a store through its path map ----

  /** Entries made later do not matter. */
  lemma StillShown(s: Store, root: Entry, made: seq<Entry?>, m: PathMap, e: Entry?)
    requires Shows(s, root, made, m)
    ensures Shows(s, root, made + [e], m)
  {
    forall p
      ensures ShownAt(s, root, made + [e], m, p)
    {
      assert ShownAt(s, root, made, m, p);
    }
  }

  lemma DirShown(s: Store, root: Entry, made: seq<Entry?>, m: PathMap, p: seq<Name>)
    requires Shows(s, root, made, m)
    ensures DirAt(s, root, p).Some? <==> IsDirIn(m, p)
  {
    assert ShownAt(s, root, made, m, p);
  }

  lemma ChildShown(s: Store, root: Entry, made: seq<Entry?>, m: PathMap, p: seq<Name>, n: Name)
    requires Shows(s, root, made, m) && DirAt(s, root, p).Some?
    ensures Child(s, DirAt(s, root, p).value, n).Some? <==> p + [n] in m
  {
    WalkAppend(s, root, p, [n]);
    WalkOne(s, DirAt(s, root, p).value, n);
    assert ShownAt(s, root, made, m, p + [n]);
  }

  lemma CreatableShown(s: Store, root: Entry, made: seq<Entry?>, m: PathMap, path: Path)
    requires Shows(s, root, made, m)
    ensures Creatable(s, root, path) <==> CanMake(m, path)
  {
    DirShown(s, root, made, m, DirComps(path));
    CompsSplit(path);
    if DirAt(s, root, DirComps(path)).Some? {
      ChildShown(s, root, made, m, DirComps(path), Base(path));
    }
  }

  /** Making an entry. */
  lemma MakeShown(s: Store, root: Entry, made: seq<Entry?>, m: PathMap, d: Entry, i: nat, c: Entry, path: Path,
                  isDir: bool, tag: Tag)
    requires Shows(s, root, made, m) && Creatable(s, root, path)
    requires DirAt(s, root, DirComps(path)) == Some(d) && Addable(s, root, d, i, c, Base(path))
    requires Tagged(Added(s, d, i, c, Base(path), isDir), made, tag, c)
    ensures Shows(Added(s, d, i, c, Base(path), isDir), root, made, MakeIn(m, path, tag))
  {
    var t := Added(s, d, i, c, Base(path), isDir);
    CreatableShown(s, root, made, m, path);
    CompsSplit(path);
    forall p
      ensures ShownAt(t, root, made, MakeIn(m, path, tag), p)
    {
      assert ShownAt(s, root, made, m, p);
      AddedWalk(s, root, d, i, c, Base(path), isDir, DirComps(path), p);
    }
  }

  lemma NothingBelow(s: Store, e: Entry, w: seq<Name>)
    requires e in s && s[e].kids == []
    ensures w == [] || Walk(s, e, w) == None
  {
  }

  /** An entry without children is what it is because no longer path passes through it. */
  lemma ChildlessShown(s: Store, root: Entry, made: seq<Entry?>, m: PathMap, e: Entry, p: seq<Name>)
    requires Inv(s, root) && Shows(s, root, made, m) && Walk(s, root, p) == Some(e)
    ensures e in s && (s[e].kids == [] <==> Childless(m, p))
  {
    WalkStays(s, root, root, p);
    assert EntryOk(s, root, e);
    if s[e].kids == [] {
      forall q | q in m && p <= q
        ensures q == p
      {
        assert ShownAt(s, root, made, m, q);
        assert q == p + q[|p|..];
        WalkAppend(s, root, p, q[|p|..]);
        NothingBelow(s, e, q[|p|..]);
      }
    } else {
      var k := s[e].kids[0];
      ChildByName(s, root, e, k);
      WalkAppend(s, root, p, [s[k].name]);
      WalkOne(s, e, s[k].name);
      assert ShownAt(s, root, made, m, p + [s[k].name]);
      assert p <= p + [s[k].name];
    }
  }

  lemma RemoveShown(s: Store, root: Entry, made: seq<Entry?>, m: PathMap, d: Entry, i: nat, path: Path, isDir: bool)
    requires Inv(s, root) && Shows(s, root, made, m) && Deletable(s, root, d, i)
    requires Base(path) != [] && Walk(s, root, Comps(path)) == Some(s[d].kids[i]) && s[s[d].kids[i]].isDir == isDir
    ensures Shows(Deleted(s, d, i), root, made, RemoveFrom(m, path, isDir))
  {
    var e := s[d].kids[i];
    assert ShownAt(s, root, made, m, Comps(path));
    ChildlessShown(s, root, made, m, e, Comps(path));
    DeletedLinks(s, root, d, i);
    forall p
      ensures ShownAt(Deleted(s, d, i), root, made, RemoveFrom(m, path, isDir), p)
    {
      assert ShownAt(s, root, made, m, p);
      DeletedWalk(s, root, d, i, p);
      if Walk(s, root, p) == Some(e) {
        PathUnique(s, root, p, Comps(path));
      }
    }
  }

  /** The paths of the map are those that lead somewhere, and it says to which entry. */
  lemma ShowsMeans(s: Store, root: Entry, made: seq<Entry?>, m: PathMap, p: seq<Name>)
    requires Shows(s, root, made, m)
    ensures p in m <==> Walk(s, root, p).Some?
    ensures p in m ==> var e := Walk(s, root, p).value;
                       m[p].maker < |made| && made[m[p].maker] == e && e in s && m[p].isDir == s[e].isDir
  {
    assert ShownAt(s, root, made, m, p);
  }

  /** No entry is at two paths. */
  lemma OnePathEach(s: Store, root: Entry, made: seq<Entry?>, m: PathMap, p: seq<Name>, q: seq<Name>)
    requires LinksOk(s, root) && Shows(s, root, made, m)
    requires p in m && q in m && m[p].maker == m[q].maker
    ensures p == q
  {
    assert ShownAt(s, root, made, m, p) && ShownAt(s, root, made, m, q);
    PathUnique(s, root, p, q);
  }

  lemma RenamableShown(s: Store, root: Entry, made: seq<Entry?>, m: PathMap, src: Path, dst: Path)
    requires Inv(s, root) && Shows(s, root, made, m)
    ensures Renamable(s, root, src, dst) <==> CanRename(m, src, dst)
  {
    DirShown(s, root, made, m, DirComps(src));
    DirShown(s, root, made, m, DirComps(dst));
    CompsSplit(src);
    CompsSplit(dst);
    if DirAt(s, root, DirComps(src)).Some? {
      ChildShown(s, root, made, m, DirComps(src), Base(src));
      if Child(s, DirAt(s, root, DirComps(src)).value, Base(src)).Some? {
        assert EntryOk(s, root, DirAt(s, root, DirComps(src)).value);
        assert EntryOk(s, root, Child(s, DirAt(s, root, DirComps(src)).value, Base(src)).value);
      }
    } else if Base(src) != [] {
      DirMissing(s, root, DirComps(src), Base(src));
      assert ShownAt(s, root, made, m, Comps(src));
    }
    if DirAt(s, root, DirComps(dst)).Some? {
      ChildShown(s, root, made, m, DirComps(dst), Base(dst));
      NoEmptyName(s, root, DirAt(s, root, DirComps(dst)).value);
    }
  }

  lemma RenameShown(s: Store, root: Entry, made: seq<Entry?>, m: PathMap, sp: Entry, i: nat, dp: Entry, j: nat,
                    src: Path, dst: Path)
    requires Inv(s, root) && Shows(s, root, made, m) && SafeRename(src, dst) && src != dst && CanRename(m, src, dst)
    requires Move(s, root, sp, i, dp, j, Base(dst), DirComps(src), DirComps(dst))
    requires Source(s, sp, i, DirComps(src)) == Comps(src)
    ensures Shows(Moved(s, sp, i, dp, j, Base(dst)), root, made, RenameIn(m, src, dst))
  {
    forall p
      ensures ShownAt(Moved(s, sp, i, dp, j, Base(dst)), root, made, RenameIn(m, src, dst), p)
    {
      RenameShownAt(s, root, made, m, sp, i, dp, j, src, dst, p);
    }
  }

  lemma RenameShownAt(s: Store, root: Entry, made: seq<Entry?>, m: PathMap, sp: Entry, i: nat, dp: Entry, j: nat,
                      src: Path, dst: Path, p: seq<Name>)
    requires Inv(s, root) && Shows(s, root, made, m) && SafeRename(src, dst) && src != dst && CanRename(m, src, dst)
    requires Move(s, root, sp, i, dp, j, Base(dst), DirComps(src), DirComps(dst))
    requires Source(s, sp, i, DirComps(src)) == Comps(src)
    ensures ShownAt(Moved(s, sp, i, dp, j, Base(dst)), root, made, RenameIn(m, src, dst), p)
  {
    var t := Moved(s, sp, i, dp, j, Base(dst));
    CompsSplit(dst);
    assert LedAt(s, t, root, Comps(src), Comps(dst), p) by {
      MoveWalkAt(s, root, sp, i, dp, j, Base(dst), DirComps(src), DirComps(dst), p);
    }
    assert Comps(dst) <= p ==> Walk(s, root, p) == None by {
      TargetFree(s, root, sp, i, dp, j, Base(dst), DirComps(src), DirComps(dst), p);
    }
    MovedTypes(s, root, sp, i, dp, j, Base(dst));
    RelocatedShownAt(s, t, root, made, m, Comps(src), Comps(dst), p);
  }

  /** `MoveWalk`, read at one path. */
  lemma MoveWalkAt(s: Store, root: Entry, sp: Entry, i: nat, dp: Entry, j: nat, n: Name,
                   srcDir: seq<Name>, dstDir: seq<Name>, p: seq<Name>)
    requires Move(s, root, sp, i, dp, j, n, srcDir, dstDir) && ValidName(n)
    requires !(Source(s, sp, i, srcDir) <= dstDir)
    ensures LedAt(s, Moved(s, sp, i, dp, j, n), root, Source(s, sp, i, srcDir), dstDir + [n], p)
  {
    var dst := dstDir + [n];
    if dst <= p {
      MoveWalk(s, root, sp, i, dp, j, n, srcDir, dstDir, p[|dst|..]);
      assert p == dst + p[|dst|..];
    } else {
      MoveWalk(s, root, sp, i, dp, j, n, srcDir, dstDir, p);
    }
  }

  /** Where `p` leads in `t`, told by where paths led in `s` before `src` went to `dst`. */
  ghost predicate LedAt(s: Store, t: Store, root: Entry, src: seq<Name>, dst: seq<Name>, p: seq<Name>)
  {
    if dst <= p then Walk(t, root, p) == Walk(s, root, src + p[|dst|..])
    else if src <= p then Walk(t, root, p) == None
    else Walk(t, root, p) == Walk(s, root, p)
  }

  lemma RelocatedShownAt(s: Store, t: Store, root: Entry, made: seq<Entry?>, m: PathMap, src: seq<Name>,
                         dst: seq<Name>, p: seq<Name>)
    requires Shows(s, root, made, m) && LedAt(s, t, root, src, dst, p)
    requires dst <= p ==> Walk(s, root, p) == None
    requires forall e :: e in s ==> e in t && t[e].isDir == s[e].isDir
    ensures ShownAt(t, root, made, Relocated(m, src, dst), p)
  {
    assert ShownAt(s, root, made, m, p);
    RelocatedAt(m, src, dst, p);
    if dst <= p {
      assert ShownAt(s, root, made, m, src + p[|dst|..]);
    }
  }

  lemma RelocatedKeys(m: PathMap, src: seq<Name>, dst: seq<Name>, p: seq<Name>)
    ensures p in RelocatedPaths(m, src, dst) <==>
            (p in m && !(src <= p)) || (dst <= p && src + p[|dst|..] in m)
  {
    if dst <= p {
      var q := src + p[|dst|..];
      assert dst + q[|src|..] == p;
    }
    forall o | o in m && src <= o && dst + o[|src|..] == p
      ensures dst <= p && src + p[|dst|..] == o
    {
      assert p[|dst|..] == o[|src|..];
    }
  }

  /** The relocated map, path by path. */
  lemma RelocatedAt(m: PathMap, src: seq<Name>, dst: seq<Name>, p: seq<Name>)
    requires dst <= p ==> p !in m
    ensures dst <= p ==> (p in Relocated(m, src, dst) <==> src + p[|dst|..] in m)
    ensures dst <= p && p in Relocated(m, src, dst) ==> Relocated(m, src, dst)[p] == m[src + p[|dst|..]]
    ensures !(dst <= p) ==> (p in Relocated(m, src, dst) <==> p in m && !(src <= p))
    ensures !(dst <= p) && p in Relocated(m, src, dst) ==> Relocated(m, src, dst)[p] == m[p]
  {
    RelocatedKeys(m, src, dst, p);
  }
}
