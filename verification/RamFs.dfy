/** The vector file system: directories are arrays of children sorted by name. */
module RamFsVector {
  import opened Names
  import opened Powers
  import opened FsStore
  import opened FsChanges
  import opened FsMove
  import opened Paths

  ghost function ToOption(e: Entry?): Option<Entry>
  {
    if e == null then None else Some(e)
  }

  /** The directory that `p` leads to from the root. */
  ghost function DirAt(s: Store, root: Entry, p: seq<Name>): (r: Option<Entry>)
    ensures r.Some? ==> r == Walk(s, root, p) && r.value in s && s[r.value].isDir
  {
    var r := Walk(s, root, p);
    if r.Some? && r.value in s && s[r.value].isDir then r else None
  }

  /** `strchr(path + i, '/')`, or the end of the text. */
  method NextSlash(path: Path, i: nat) returns (end: nat)
    requires i <= |path|
    ensures i <= end <= |path| && SLASH !in path[i..end]
    ensures end < |path| ==> path[end] == SLASH
  {
    end := i;
    while end < |path| && path[end] != SLASH
      invariant i <= end <= |path| && SLASH !in path[i..end]
    {
      end := end + 1;
    }
  }

  /** Step over slashes from `i` on. */
  method SkipSlashes(path: Path, i: nat) returns (j: nat)
    requires i <= |path|
    ensures i <= j <= |path| && (j < |path| ==> path[j] != SLASH)
    ensures SameRest(path, i, j)
  {
    j := i;
    while j < |path| && path[j] == SLASH
      invariant i <= j <= |path| && SameRest(path, i, j)
    {
      SkipOne(path, i, j);
      j := j + 1;
    }
  }

  /** From `i` on and from `j` on, the text has the same names. */
  ghost predicate SameRest(path: Path, i: nat, j: nat)
    requires i <= |path| && j <= |path|
  {
    DirComps(path[j..]) == DirComps(path[i..]) && Base(path[j..]) == Base(path[i..])
  }

  lemma SkipOne(path: Path, i: nat, j: nat)
    requires i <= |path| && j < |path| && path[j] == SLASH && SameRest(path, i, j)
    ensures SameRest(path, i, j + 1)
  {
    SkipSlash(path[j..]);
    assert path[j..][1..] == path[j + 1..];
  }

  /** The backward scan for the last name. */
  method LastNameStart(path: Path) returns (i: nat)
    ensures i == BaseStart(path)
  {
    i := |path|;
    while i > 0 && path[i - 1] != SLASH
      invariant i <= |path| && SLASH !in path[i..]
    {
      i := i - 1;
    }
    BaseStartUnique(path, i);
  }

  /** The C type `int`. */
  newtype Int32 = x: int | -0x8000_0000 <= x < 0x8000_0000

  /** `(first + last) / 2`. */
  function Middle(first: int, last: int): (m: int)
    requires 0 <= first <= last
    ensures first <= m <= last && 2 * m <= first + last <= 2 * m + 1
  {
    (first + last) / 2
  }

  /** Either half takes one probe less. */
  lemma Halved(first: int, last: int, m: int)
    requires 0 <= first <= m <= last && 2 * m <= first + last <= 2 * m + 1
    ensures 1 + Halvings(m - first) <= Halvings(last + 1 - first)
    ensures 1 + Halvings(last - m) <= Halvings(last + 1 - first)
  {
    HalvingsGrow(m - first, (last + 1 - first) / 2);
    HalvingsGrow(last - m, (last + 1 - first) / 2);
  }

  /** `ramfs_fs_t`; `store` records the links between the entries in use. */
  class RamFs {
    const root: Entry
    ghost var store: Store

    constructor ()
      ensures Valid() && fresh(root) && store == map[root := Info(null, [], true, [])]
    {
      var r := new Entry(null, [], true);
      root := r;
      store := map[r := Info(null, [], true, [])];
      new;
      assert EntryOk(store, root, root);
      assert Walk(store, root, []) == Some(root);
      assert Reached(store, root, root);
    }

    ghost predicate Mirrored()
      reads this, store.Keys
    {
      && (forall e {:trigger e.parent} :: e in store ==> e.parent == store[e].parent)
      && (forall e {:trigger e.name} :: e in store ==> e.name == store[e].name)
      && (forall e {:trigger e.children} :: e in store ==> e.children == store[e].kids)
      && (forall e {:trigger e.isDir} :: e in store ==> e.isDir == store[e].isDir)
    }

    ghost predicate Valid()
      reads this, store.Keys
    {
      Mirrored() && Inv(store, root)
    }

    /** What `find_entry` compares: the name of child `i`. */
    method CompareChild(dir: Entry, i: nat, name: Name) returns (cmp: int)
      requires Mirrored() && dir in store && KidsOk(store, dir) && i < |store[dir].kids|
      ensures cmp == Strcmp(NamesOf(store, store[dir].kids)[i], name)
    {
      var child := dir.children[i];
      assert child in store;
      cmp := Strcmp(child.name, name);
    }

    /** `find_entry`: binary search. A miss is coded as minus the slot, minus one. `steps` is the
        number of comparisons. */
    method FindEntry(dir: Entry, name: Name) returns (r: int, ghost steps: nat)
      requires Mirrored() && dir in store && KidsOk(store, dir)
      ensures r >= 0 ==> r < |store[dir].kids| && store[store[dir].kids[r]].name == name
      ensures r < 0 ==> Slot(NamesOf(store, store[dir].kids), name, -r - 1)
      ensures steps <= Halvings(|store[dir].kids|)
    {
      ghost var names := NamesOf(store, store[dir].kids);
      var first: int, last: int := 0, |dir.children| - 1;
      steps := 0;
      while first <= last
        invariant Bracketed(names, first, last, name)
        invariant steps + Halvings(last + 1 - first) <= Halvings(|names|)
        decreases last - first
      {
        var middle := Middle(first, last);
        Halved(first, last, middle);
        Narrowed(names, first, last, middle, name);
        steps := steps + 1;
        var cmp := CompareChild(dir, middle, name);
        if cmp == 0 {
          return middle, steps;
        } else if cmp < 0 {
          first := middle + 1;
        } else {
          last := middle - 1;
        }
      }
      BracketEmpty(names, first, last, name);
      r := -(last + 2);
    }

    /** `find_entry` with its variables of the C type `int`: up to 2^30 children the same answer, and
        every value formed on the way is one of that type. */
    method FindEntryInt(dir: Entry, name: Name) returns (r: Int32)
      requires Mirrored() && dir in store && KidsOk(store, dir) && |store[dir].kids| <= 0x4000_0000
      ensures r >= 0 ==> r as int < |store[dir].kids| && store[store[dir].kids[r]].name == name
      ensures r < 0 ==> Slot(NamesOf(store, store[dir].kids), name, -(r as int) - 1)
    {
      ghost var names := NamesOf(store, store[dir].kids);
      var first: Int32 := 0;
      var last: Int32 := |dir.children| as Int32 - 1;
      while first <= last
        invariant Bracketed(names, first as int, last as int, name)
        decreases last as int - first as int
      {
        var middle := (first + last) / 2;
        Narrowed(names, first as int, last as int, middle as int, name);
        var cmp := CompareChild(dir, middle as nat, name);
        if cmp == 0 {
          return middle;
        } else if cmp < 0 {
          first := middle + 1;
        } else {
          last := middle - 1;
        }
      }
      BracketEmpty(names, first as int, last as int, name);
      r := -(last + 2);
    }

    /** `find_entry` in a sound directory: the child of that name, or the slot for one. */
    method Lookup(dir: Entry, name: Name) returns (r: int)
      requires Mirrored() && LinksOk(store, root) && dir in store
      ensures KidsOk(store, dir)
      ensures r >= 0 ==> r < |store[dir].kids| && store[dir].kids[r] in store && store[store[dir].kids[r]].name == name
      ensures r < 0 ==> Slot(NamesOf(store, store[dir].kids), name, -r - 1)
      ensures Child(store, dir, name) == if r < 0 then None else Some(store[dir].kids[r])
    {
      assert EntryOk(store, root, dir);
      ghost var steps;
      r, steps := FindEntry(dir, name);
      ChildFound(store, root, dir, name, r);
    }

    /** One turn of `ramfs_get_parent`: the subdirectory called `key`. */
    method StepInto(dir: Entry, key: Name) returns (r: Entry?)
      requires Valid() && dir in store && store[dir].isDir
      ensures ToOption(r) == DirAt(store, dir, [key])
    {
      var k := Lookup(dir, key);
      WalkOne(store, dir, key);
      if k < 0 {
        return null;
      }
      if !dir.children[k].isDir {
        return null;
      }
      r := dir.children[k];
    }

    /** One turn of `ramfs_get_parent`: the component from `i` to `end` is walked, and the next one,
        from `j` to `end'`, is found. */
    method WalkComponent(dir: Entry, path: Path, i: nat, end: nat, ghost done: seq<Name>)
      returns (next: Entry?, j: nat, end': nat, ghost done': seq<Name>)
      requires Valid() && DirAt(store, root, done) == Some(dir)
      requires i < end < |path| && Scanned(path, i, end, done)
      ensures next == null ==> DirAt(store, root, DirComps(path)) == None
      ensures next != null ==> end < j <= end' <= |path| && Scanned(path, j, end', done')
                               && DirAt(store, root, done') == Some(next)
    {
      j, end', done' := i, end, done;
      next := StepInto(dir, path[i..end]);
      ScanTurn(store, root, path, i, end, done);
      if next != null {
        j := SkipSlashes(path, end + 1);
        end' := NextSlash(path, j);
        ScanNext(path, i, end, done, j, end');
        done' := done + [path[i..end]];
      }
    }

    /** `ramfs_get_parent`: the directory that the components before the last slash lead to. */
    method GetParent(path: Path) returns (r: Entry?)
      requires Valid()
      ensures r != null ==> Walk(store, root, DirComps(path)) == Some(r) && r.isDir
      ensures r == null ==> Walk(store, root, DirComps(path)) == None || !Walk(store, root, DirComps(path)).value.isDir
      ensures ToOption(r) == DirAt(store, root, DirComps(path))
    {
      WalkStays(store, root, root, DirComps(path));
      var dir := root;
      var i := SkipSlashes(path, 0);
      ghost var done: seq<Name> := [];
      var end := NextSlash(path, i);
      ScanStart(path, i, end);
      while end < |path|
        invariant i <= end <= |path| && Scanned(path, i, end, done)
        invariant DirAt(store, root, done) == Some(dir)
        decreases |path| - i
      {
        var next;
        next, i, end, done := WalkComponent(dir, path, i, end, done);
        if next == null {
          return null;
        }
        dir := next;
      }
      ScanEnd(path, i, done);
      r := dir;
    }

    /** How every operation on a path begins: the directory, the last name, and the length of the
        trimmed path together with the place where the name starts. */
    method ParentAndName(path: Path) returns (parent: Entry?, name: Name, len: nat, nameStart: nat)
      requires Valid()
      ensures ToOption(parent) == DirAt(store, root, DirComps(path)) && name == Base(path)
      ensures |name| == len - nameStart
    {
      var start := SkipSlashes(path, 0);
      assert path[0..] == path;
      parent := GetParent(path[start..]);
      len := |path[start..]|;
      nameStart := LastNameStart(path[start..]);
      name := path[start..][nameStart..];
    }

    /** `ramfs_get_entry`. */
    method GetEntry(path: Path) returns (r: Entry?)
      requires Valid()
      ensures r != null ==> Base(path) != [] && Walk(store, root, Comps(path)) == Some(r)
      ensures r == null ==> Base(path) == [] || Walk(store, root, Comps(path)) == None
      ensures ToOption(r) == if Base(path) == [] then None else Walk(store, root, Comps(path))
    {
      var parent, key, len, keyStart := ParentAndName(path);
      CompsSplit(path);
      WalkAppend(store, root, DirComps(path), [Base(path)]);
      if parent == null {
        DirMissing(store, root, DirComps(path), Base(path));
        return null;
      }
      if len - keyStart == 0 {
        return null;
      }
      var k := Lookup(parent, key);
      WalkOne(store, parent, key);
      if k < 0 {
        return null;
      }
      r := parent.children[k];
    }

    /** `insert`. */
    method Insert(parent: Entry, child: Entry, i: nat) returns (r: int)
      requires Mirrored() && parent in store && child in store && i <= |store[parent].kids|
      modifies this`store, parent`children, child`parent
      ensures Mirrored()
      ensures r == if parent.isDir then 0 else -1
      ensures store == if parent.isDir then KidInserted(old(store), parent, i, child) else old(store)
      ensures parent.isDir ==> child.parent == parent
                               && parent.children == old(parent.children)[..i] + [child] + old(parent.children)[i..]
    {
      if !parent.isDir {
        return -1;
      }
      store := KidInserted(store, parent, i, child);
      parent.children := parent.children[..i] + [child] + parent.children[i..];
      child.parent := parent;
      r := 0;
    }

    /** `remove_index`. */
    method RemoveIndex(parent: Entry, i: nat) returns (r: Entry?)
      requires Mirrored() && parent in store
      requires forall k :: k in store[parent].kids ==> k in store
      modifies this`store, store.Keys`parent, store.Keys`name, store.Keys`children
      ensures Mirrored()
      ensures r == if parent.isDir && i < |old(store)[parent].kids| then old(store)[parent].kids[i] else null
      ensures store == if r == null then old(store) else KidRemoved(old(store), parent, i)
      ensures r != null ==> r.parent == null
                            && parent.children == old(parent.children)[..i] + old(parent.children)[i + 1..]
    {
      if !parent.isDir {
        return null;
      }
      if i >= |parent.children| {
        return null;
      }
      var child := parent.children[i];
      assert child in store[parent].kids;
      store := KidRemoved(store, parent, i);
      parent.children := parent.children[..i] + parent.children[i + 1..];
      child.parent := null;
      r := child;
    }

    /** `remove`: finds the entry by its name, and it is always that very entry that goes. */
    method Remove(entry: Entry) returns (r: Entry?, ghost d: Entry, ghost i: nat)
      requires Mirrored() && LinksOk(store, root) && entry in store && entry != root
      modifies this`store, store.Keys`parent, store.Keys`name, store.Keys`children
      ensures Mirrored() && r == entry
      ensures ToOption(old(store)[entry].parent) == Some(d) && d in old(store)
      ensures i < |old(store)[d].kids| && old(store)[d].kids[i] == entry
      ensures store == KidRemoved(old(store), d, i)
    {
      assert EntryOk(store, root, entry);
      var dir: Entry := entry.parent;
      d := dir;
      assert EntryOk(store, root, dir);
      var k;
      ghost var steps;
      k, steps := FindEntry(dir, entry.name);
      ChildFound(store, root, dir, entry.name, k);
      ChildByName(store, root, dir, entry);
      if k < 0 {
        assert false;
      }
      i := k;
      r := RemoveIndex(dir, k);
    }

    /** The checks of `ramfs_create` and `ramfs_mkdir`: the directory, the name and the slot of a new entry,
        if there can be one. */
    method NewPlace(path: Path) returns (parent: Entry?, name: Name, slot: nat)
      requires Valid()
      ensures parent != null <==> Creatable(store, root, path)
      ensures parent != null ==> DirAt(store, root, DirComps(path)) == Some(parent) && name == Base(path)
                                 && ValidName(name) && parent in store && store[parent].isDir && KidsOk(store, parent)
                                 && Slot(NamesOf(store, store[parent].kids), name, slot)
    {
      var len, nameStart;
      parent, name, len, nameStart := ParentAndName(path);
      slot := 0;
      if parent == null {
        return;
      }
      if len + nameStart == 0 {
        return null, name, slot;
      }
      var k := Lookup(parent, name);
      if k >= 0 {
        return null, name, slot;
      }
      slot := -k - 1;
      if |name| == 0 {
        return null, name, slot;
      }
      CompsSplit(path);
    }

    /** `ramfs_create` and `ramfs_mkdir`, which differ only in the type of the entry. */
    method Make(path: Path, isDir: bool) returns (r: Entry?, ghost d: Entry, ghost i: nat)
      requires Valid()
      modifies this`store, store.Keys`parent, store.Keys`name, store.Keys`children
      ensures Valid()
      ensures r != null <==> Creatable(old(store), root, path)
      ensures r == null ==> store == old(store)
      ensures r != null ==> fresh(r) && r.isDir == isDir && r.data == [] && r.size == 0
                            && DirAt(old(store), root, DirComps(path)) == Some(d)
                            && Addable(old(store), root, d, i, r, Base(path))
                            && store == Added(old(store), d, i, r, Base(path), isDir)
    {
      var parent, name, slot := NewPlace(path);
      d, i := root, slot;
      if parent == null {
        return null, d, i;
      }
      d := parent;
      r := Place(parent, name, isDir, slot);
    }

    /** The end of `ramfs_create` and `ramfs_mkdir`: allocate the entry and put it in. */
    method Place(parent: Entry, name: Name, isDir: bool, slot: nat) returns (r: Entry)
      requires Valid() && parent in store && store[parent].isDir && ValidName(name)
      requires KidsOk(store, parent) && Slot(NamesOf(store, store[parent].kids), name, slot)
      modifies this`store, parent`children
      ensures Valid() && fresh(r) && r.isDir == isDir && r.data == [] && r.size == 0
      ensures Addable(old(store), root, parent, slot, r, name)
      ensures store == Added(old(store), parent, slot, r, name, isDir)
    {
      r := new Entry(parent, name, isDir);
      AddedInv(store, root, parent, slot, r, name, isDir);
      store := store[r := Info(parent, name, isDir, [])];
      var ok := Insert(parent, r, slot);
    }

    method Create(path: Path) returns (r: Entry?, ghost d: Entry, ghost i: nat)
      requires Valid()
      modifies this`store, store.Keys`parent, store.Keys`name, store.Keys`children
      ensures Valid()
      ensures r != null <==> Creatable(old(store), root, path)
      ensures r == null ==> store == old(store)
      ensures r != null ==> fresh(r) && !r.isDir && r.data == [] && r.size == 0
                            && DirAt(old(store), root, DirComps(path)) == Some(d)
                            && Addable(old(store), root, d, i, r, Base(path))
                            && store == Added(old(store), d, i, r, Base(path), false)
    {
      r, d, i := Make(path, false);
    }

    method Mkdir(path: Path) returns (r: Entry?, ghost d: Entry, ghost i: nat)
      requires Valid()
      modifies this`store, store.Keys`parent, store.Keys`name, store.Keys`children
      ensures Valid()
      ensures r != null <==> Creatable(old(store), root, path)
      ensures r == null ==> store == old(store)
      ensures r != null ==> fresh(r) && r.isDir
                            && DirAt(old(store), root, DirComps(path)) == Some(d)
                            && Addable(old(store), root, d, i, r, Base(path))
                            && store == Added(old(store), d, i, r, Base(path), true)
    {
      r, d, i := Make(path, true);
    }

    /** Take out an entry without children and free it. */
    method Discard(entry: Entry) returns (ghost d: Entry, ghost i: nat)
      requires Valid() && entry in store && entry != root && entry.children == []
      modifies this`store, store.Keys`parent, store.Keys`name, store.Keys`children
      ensures Valid()
      ensures Deletable(old(store), root, d, i) && old(store)[d].kids[i] == entry
      ensures store == Deleted(old(store), d, i)
    {
      var r;
      r, d, i := Remove(entry);
      DeletedInv(old(store), root, d, i);
      store := store - {entry};
    }

    /** `ramfs_unlink`. */
    method Unlink(entry: Entry) returns (r: int, ghost d: Entry, ghost i: nat)
      requires Valid() && entry in store
      modifies this`store, store.Keys`parent, store.Keys`name, store.Keys`children
      ensures Valid()
      ensures r == if entry.isDir then -1 else 0
      ensures r != 0 ==> store == old(store)
      ensures r == 0 ==> Deletable(old(store), root, d, i) && old(store)[d].kids[i] == entry
                         && store == Deleted(old(store), d, i)
    {
      d, i := root, 0;
      if entry.isDir {
        return -1, d, i;
      }
      assert EntryOk(store, root, entry);
      d, i := Discard(entry);
      r := 0;
    }

    /** `ramfs_rmdir`. An empty root has no parent for the code to look it up in. */
    method Rmdir(entry: Entry) returns (r: int, ghost d: Entry, ghost i: nat)
      requires Valid() && entry in store && (entry == root ==> entry.children != [])
      modifies this`store, store.Keys`parent, store.Keys`name, store.Keys`children
      ensures Valid()
      ensures r == if entry.isDir && old(store)[entry].kids == [] then 0 else -1
      ensures r != 0 ==> store == old(store)
      ensures r == 0 ==> Deletable(old(store), root, d, i) && old(store)[d].kids[i] == entry
                         && store == Deleted(old(store), d, i)
    {
      d, i := root, 0;
      if !entry.isDir {
        return -1, d, i;
      }
      if |entry.children| > 0 {
        return -1, d, i;
      }
      d, i := Discard(entry);
      r := 0;
    }

    /** `ramfs_rename`. The links are updated as `Moved` says, whether or not that is wise. */
    method Rename(src: Path, dst: Path)
      returns (r: int, ghost sp: Entry, ghost i: nat, ghost dp: Entry, ghost j: nat)
      requires Valid()
      modifies this`store, store.Keys`parent, store.Keys`name, store.Keys`children
      ensures Mirrored()
      ensures r == if src == dst || Renamable(old(store), root, src, dst) then 0 else -1
      ensures r != 0 || src == dst ==> store == old(store)
      ensures r == 0 && src != dst ==>
                Move(old(store), root, sp, i, dp, j, Base(dst), DirComps(src), DirComps(dst))
                && Source(old(store), sp, i, DirComps(src)) == Comps(src)
                && store == Moved(old(store), sp, i, dp, j, Base(dst))
      ensures Valid() <==> r != 0 || src == dst || SafeRename(src, dst)
    {
      sp, i, dp, j := root, 0, root, 0;
      if src == dst {
        return 0, sp, i, dp, j;
      }
      var srcParent, srcName, _, _ := ParentAndName(src);
      if srcParent == null {
        return -1, sp, i, dp, j;
      }
      var dstParent, dstName, _, _ := ParentAndName(dst);
      if dstParent == null {
        return -1, sp, i, dp, j;
      }
      var srcIndex := Lookup(srcParent, srcName);
      if srcIndex < 0 {
        return -1, sp, i, dp, j;
      }
      var dstIndex := Lookup(dstParent, dstName);
      if dstIndex >= 0 {
        return -1, sp, i, dp, j;
      }
      sp, i, dp, j := Relocate(srcParent, srcIndex, dstParent, dstName, DirComps(src), DirComps(dst));
      RenameOutcome(old(store), root, sp, i, dp, j, src, dst);
      r := 0;
    }

    /** The end of `ramfs_rename`: take the entry out, look the slot up again, put it in. */
    method Relocate(srcParent: Entry, srcIndex: nat, dstParent: Entry, name: Name,
                    ghost srcDir: seq<Name>, ghost dstDir: seq<Name>)
      returns (ghost sp: Entry, ghost i: nat, ghost dp: Entry, ghost j: nat)
      requires Valid() && DirAt(store, root, srcDir) == Some(srcParent) && DirAt(store, root, dstDir) == Some(dstParent)
      requires srcIndex < |store[srcParent].kids| && Child(store, dstParent, name) == None
      modifies this`store, store.Keys`parent, store.Keys`name, store.Keys`children
      ensures Mirrored()
      ensures sp == srcParent && dp == dstParent && i == srcIndex
      ensures Move(old(store), root, sp, i, dp, j, name, srcDir, dstDir)
      ensures store == Moved(old(store), sp, i, dp, j, name)
    {
      sp, dp := srcParent, dstParent;
      assert EntryOk(store, root, srcParent);
      var entry := srcParent.children[srcIndex];
      assert EntryOk(store, root, entry);
      var removed;
      removed, sp, i := Remove(entry);
      SamePlace(old(store), root, sp, i, srcIndex);
      j := Resettle(entry, dstParent, name, old(store), sp, i);
    }

    /** The slot of the new name, once the entry is out of its old directory. */
    method FreeSlot(dstParent: Entry, name: Name, ghost s: Store, ghost sp: Entry, ghost i: nat) returns (slot: nat)
      requires Mirrored() && LinksOk(s, root) && sp in s && i < |s[sp].kids| && s[sp].kids[i] in s
      requires store == KidRemoved(s, sp, i)
      requires dstParent in s && s[dstParent].isDir && Child(s, dstParent, name) == None
      ensures Movable(s, root, sp, i, dstParent, slot, name)
    {
      RemovedNames(s, root, sp, i, dstParent);
      var dstIndex;
      ghost var steps;
      dstIndex, steps := FindEntry(dstParent, name);
      StillAbsent(s, root, sp, i, dstParent, name, dstIndex);
      slot := -dstIndex - 1;
    }

    /** Look the slot up in the directory as it is now, and put the renamed entry there. */
    method Resettle(entry: Entry, dstParent: Entry, name: Name, ghost s: Store, ghost sp: Entry, ghost i: nat)
      returns (ghost j: nat)
      requires Mirrored() && LinksOk(s, root) && sp in s && i < |s[sp].kids| && s[sp].kids[i] == entry && entry in s
      requires store == KidRemoved(s, sp, i)
      requires dstParent in s && s[dstParent].isDir && Child(s, dstParent, name) == None
      modifies this`store, entry`name, entry`parent, dstParent`children
      ensures Mirrored()
      ensures Movable(s, root, sp, i, dstParent, j, name) && store == Moved(s, sp, i, dstParent, j, name)
    {
      var slot := FreeSlot(dstParent, name, s, sp, i);
      j := slot;
      store := store[entry := store[entry].(name := name)];
      entry.name := name;
      var ok := Insert(dstParent, entry, slot);
    }

    /** The first loop of `ramfs_get_path` counts. */
    method PathLength(entry: Entry, ghost p: seq<Name>) returns (len: nat)
      requires Valid() && entry in store && Walk(store, root, p) == Some(entry)
      ensures len == |[SLASH] + Render(p)|
    {
      len := 0;
      var node: Entry? := entry;
      ghost var k := |p|;
      RenderDone(p);
      while node != null
        invariant -1 <= k <= |p| && OnTheWay(store, root, p, k, node)
        invariant len == |TextFrom(p, k)|
        decreases k
      {
        ClimbOnce(store, root, p, k, node);
        len := len + |node.name| + 1;
        node, k := node.parent, k - 1;
      }
    }

    /** The second loop fills the text from its end. */
    method FillPath(entry: Entry, text: array<PathByte>, ghost p: seq<Name>)
      requires Valid() && entry in store && Walk(store, root, p) == Some(entry)
      requires text.Length == |[SLASH] + Render(p)|
      modifies text
      ensures text[..] == [SLASH] + Render(p)
    {
      var len := text.Length;
      var node: Entry? := entry;
      ghost var k := |p|;
      RenderDone(p);
      while node != null
        invariant -1 <= k <= |p| && OnTheWay(store, root, p, k, node)
        invariant 0 <= len <= text.Length && text[len..] == TextFrom(p, k)
        decreases k
      {
        ClimbOnce(store, root, p, k, node);
        TextShorter(p, k - 1);
        len := Prepend(text, len, node.name);
        node, k := node.parent, k - 1;
      }
    }

    /** `ramfs_get_path`. */
    method GetPath(entry: Entry) returns (path: Path, ghost p: seq<Name>)
      requires Valid() && entry in store
      ensures Walk(store, root, p) == Some(entry) && path == [SLASH] + Render(p)
      ensures forall q {:trigger Walk(store, root, q)} :: Walk(store, root, q) == Some(entry) ==>
                path == [SLASH] + Render(q)
    {
      assert Reached(store, root, entry);
      p :| Walk(store, root, p) == Some(entry);
      var len := PathLength(entry, p);
      var text := new PathByte[len];
      FillPath(entry, text, p);
      path := text[..];
      forall q {:trigger Walk(store, root, q)} | Walk(store, root, q) == Some(entry)
        ensures q == p
      {
        PathUnique(store, root, p, q);
      }
    }

    /** Looking up the printed path of an entry finds that entry. */
    method GetEntryOfPath(entry: Entry) returns (r: Entry?)
      requires Valid() && entry in store && entry != root
      ensures r == entry
    {
      var path;
      ghost var p;
      path, p := GetPath(entry);
      WalkNames(store, root, p);
      PrintedParses(p);
      r := GetEntry(path);
    }
  }

  /** The part of the printed text from name number `k` on; the root comes as number -1. */
  function TextFrom(p: seq<Name>, k: int): Path
    requires -1 <= k <= |p|
  {
    if k < 0 then [SLASH] + Render(p) else Render(p[k..])
  }

  /** `node` is the entry that the first `k` names lead to, or null above the root. */
  ghost predicate OnTheWay(s: Store, root: Entry, p: seq<Name>, k: int, node: Entry?)
    requires -1 <= k <= |p|
  {
    && (node == null <==> k == -1)
    && (node != null ==> node in s && Walk(s, root, p[..k]) == Some(node))
  }

  /** Put a slash and `name` in front of the text from `len` on. */
  method Prepend(text: array<PathByte>, len: nat, name: Name) returns (len': nat)
    requires |name| + 1 <= len <= text.Length
    modifies text
    ensures len' == len - |name| - 1
    ensures text[len'..] == [SLASH] + name + old(text[len..])
  {
    len' := len - |name|;
    forall m | 0 <= m < |name| {
      text[len' + m] := name[m];
    }
    len' := len' - 1;
    text[len'] := SLASH;
  }

  lemma RenderDone(p: seq<Name>)
    ensures TextFrom(p, |p|) == [] && p[..|p|] == p
    ensures TextFrom(p, 0) == Render(p)
  {
  }

  /** Each step up adds a slash and the entry's name in front. */
  lemma ClimbOnce(s: Store, root: Entry, p: seq<Name>, k: nat, node: Entry)
    requires LinksOk(s, root) && k <= |p| && OnTheWay(s, root, p, k, node)
    ensures TextFrom(p, k - 1) == [SLASH] + s[node].name + TextFrom(p, k)
    ensures OnTheWay(s, root, p, k - 1, s[node].parent)
  {
    if k == 0 {
      assert p[..0] == [] && p[0..] == p;
      assert EntryOk(s, root, root);
    } else {
      WalkLast(s, root, root, p[..k]);
      assert p[..k][..k - 1] == p[..k - 1] && p[..k][k - 1] == p[k - 1];
      assert p[k - 1..][1..] == p[k..];
      assert EntryOk(s, root, node);
    }
  }

  lemma {:induction false} TextShorter(p: seq<Name>, k: int)
    requires -1 <= k <= |p|
    ensures |TextFrom(p, k)| <= |TextFrom(p, -1)|
    decreases k
  {
    if k == 0 {
      assert p[0..] == p;
    } else if k > 0 {
      TextShorter(p, k - 1);
      assert p[k - 1..][1..] == p[k..];
    }
  }

  /** The names that lead to an entry are usable ones. */
  lemma {:induction false} WalkNames(s: Store, root: Entry, p: seq<Name>)
    requires LinksOk(s, root) && Walk(s, root, p).Some?
    ensures ValidNames(p) && (p == [] <==> Walk(s, root, p) == Some(root))
    decreases |p|
  {
    if p != [] {
      WalkLast(s, root, root, p);
      assert EntryOk(s, root, Walk(s, root, p).value);
      WalkNames(s, root, p[..|p| - 1]);
    }
  }

  /** A printed path has the names it was printed from. */
  lemma PrintedParses(p: seq<Name>)
    requires ValidNames(p) && p != []
    ensures Comps([SLASH] + Render(p)) == p && Base([SLASH] + Render(p)) != []
  {
    RenderComps(p);
    SlashesIgnored([], Render(p));
  }

  /** A path names a place for a new entry: its directory exists and the last name is not empty
      and not taken. */
  ghost predicate Creatable(s: Store, root: Entry, path: Path)
  {
    && Base(path) != []
    && DirAt(s, root, DirComps(path)).Some?
    && Child(s, DirAt(s, root, DirComps(path)).value, Base(path)) == None
  }

  /** The checks that `ramfs_rename` makes. */
  ghost predicate Renamable(s: Store, root: Entry, src: Path, dst: Path)
  {
    && DirAt(s, root, DirComps(src)).Some? && DirAt(s, root, DirComps(dst)).Some?
    && Child(s, DirAt(s, root, DirComps(src)).value, Base(src)).Some?
    && Child(s, DirAt(s, root, DirComps(dst)).value, Base(dst)).None?
  }

  /** What it would have to check too: the new name is not empty and the new place is not at or
      under the old one. */
  ghost predicate SafeRename(src: Path, dst: Path)
  {
    Base(dst) != [] && !(Comps(src) <= DirComps(dst))
  }

  /** A place for a new entry, told by where paths lead: the directory is there and the path leads nowhere. */
  lemma CreatableMeans(s: Store, root: Entry, path: Path)
    requires LinksOk(s, root)
    ensures Creatable(s, root, path) <==>
            var d := Walk(s, root, DirComps(path));
            Base(path) != [] && d.Some? && d.value in s && s[d.value].isDir && Walk(s, root, Comps(path)) == None
  {
    LookupMeans(s, root, path);
  }

  /** What a rename needs, told by where paths lead. */
  lemma RenamableMeans(s: Store, root: Entry, src: Path, dst: Path)
    requires LinksOk(s, root)
    ensures Renamable(s, root, src, dst) <==>
            var d := Walk(s, root, DirComps(dst));
            && Base(src) != [] && Walk(s, root, Comps(src)).Some?
            && d.Some? && d.value in s && s[d.value].isDir
            && (Base(dst) == [] || Walk(s, root, Comps(dst)) == None)
  {
    LookupMeans(s, root, src);
    LookupMeans(s, root, dst);
  }

  /** Looking up the last name in the directory is walking the whole path. */
  lemma LookupMeans(s: Store, root: Entry, path: Path)
    requires LinksOk(s, root)
    ensures var d := DirAt(s, root, DirComps(path));
            d.Some? ==> Child(s, d.value, Base(path)) == if Base(path) == [] then None else Walk(s, root, Comps(path))
    ensures Base(path) != [] && DirAt(s, root, DirComps(path)) == None ==> Walk(s, root, Comps(path)) == None
  {
    CompsSplit(path);
    WalkAppend(s, root, DirComps(path), [Base(path)]);
    if DirAt(s, root, DirComps(path)).Some? {
      WalkOne(s, DirAt(s, root, DirComps(path)).value, Base(path));
      NoEmptyName(s, root, DirAt(s, root, DirComps(path)).value);
    } else {
      DirMissing(s, root, DirComps(path), Base(path));
    }
  }

  lemma SamePlace(s: Store, root: Entry, d: Entry, i: nat, j: nat)
    requires LinksOk(s, root) && d in s && i < |s[d].kids| && j < |s[d].kids| && s[d].kids[i] == s[d].kids[j]
    ensures i == j
  {
    assert EntryOk(s, root, d);
    SortedNoDuplicates(NamesOf(s, s[d].kids), i, j);
  }

  /** A name that was free before an entry was taken out is free afterwards. */
  lemma StillAbsent(s: Store, root: Entry, sp: Entry, i: nat, dp: Entry, n: Name, r: int)
    requires LinksOk(s, root) && sp in s && i < |s[sp].kids| && s[sp].kids[i] in s && dp in s
    requires Child(s, dp, n) == None
    requires var t := KidRemoved(s, sp, i);
             (forall k :: k in t[dp].kids ==> k in t) &&
             (r >= 0 ==> r < |t[dp].kids| && t[t[dp].kids[r]].name == n)
    ensures r < 0
  {
    RemovedNames(s, root, sp, i, dp);
    var t := KidRemoved(s, sp, i);
    if r >= 0 {
      assert IsChild(s, dp, n, t[dp].kids[r]);
    }
  }

  lemma RenameOutcome(s: Store, root: Entry, sp: Entry, i: nat, dp: Entry, j: nat, src: Path, dst: Path)
    requires Inv(s, root) && Move(s, root, sp, i, dp, j, Base(dst), DirComps(src), DirComps(dst))
    requires s[s[sp].kids[i]].name == Base(src)
    ensures Source(s, sp, i, DirComps(src)) == Comps(src)
    ensures Inv(Moved(s, sp, i, dp, j, Base(dst)), root) <==> SafeRename(src, dst)
  {
    assert EntryOk(s, root, sp) && EntryOk(s, root, s[sp].kids[i]);
    CompsSplit(src);
    CompsSplit(dst);
    MoveKeepsInvariant(s, root, sp, i, dp, j, Base(dst), DirComps(src), DirComps(dst));
  }

  /** What the outcome of the binary search says about the child of that name. */
  lemma ChildFound(s: Store, root: Entry, d: Entry, n: Name, r: int)
    requires LinksOk(s, root) && d in s && KidsOk(s, d)
    requires r >= 0 ==> r < |s[d].kids| && s[s[d].kids[r]].name == n
    requires r < 0 ==> Slot(NamesOf(s, s[d].kids), n, -r - 1)
    ensures Child(s, d, n) == if r < 0 then None else Some(s[d].kids[r])
  {
    if r >= 0 {
      ChildByName(s, root, d, s[d].kids[r]);
    } else {
      SlotMeansAbsent(NamesOf(s, s[d].kids), n, -r - 1);
      forall k | k in s[d].kids
        ensures s[k].name != n
      {
        var j :| 0 <= j < |s[d].kids| && s[d].kids[j] == k;
        assert NamesOf(s, s[d].kids)[j] == s[k].name;
      }
    }
  }

  /** The components in `done` have been read; the next one is the text from `i` to `end`. */
  ghost predicate Scanned(path: Path, i: nat, end: nat, done: seq<Name>)
    requires i <= end <= |path|
  {
    && SLASH !in path[i..end] && (end < |path| ==> path[end] == SLASH && i < end)
    && DirComps(path) == done + DirComps(path[i..])
  }

  lemma PathPieces(path: Path, i: nat, end: nat)
    requires i <= end < |path|
    ensures var q, k := path[i..], end - i;
            q[..k] == path[i..end] && q[k] == path[end] && q[k + 1..] == path[end + 1..]
  {
  }

  lemma OneComponent(path: Path, i: nat, end: nat, done: seq<Name>)
    requires i < end < |path| && Scanned(path, i, end, done)
    ensures DirComps(path) == done + [path[i..end]] + DirComps(path[end + 1..])
  {
    PathPieces(path, i, end);
    ReadComponent(path[i..], end - i);
  }

  lemma ScanEnd(path: Path, i: nat, done: seq<Name>)
    requires i <= |path| && Scanned(path, i, |path|, done)
    ensures DirComps(path) == done
  {
  }

  lemma ScanStart(path: Path, i: nat, end: nat)
    requires i <= end <= |path| && SameRest(path, 0, i) && SLASH !in path[i..end]
    requires end < |path| ==> path[end] == SLASH && i < end
    ensures Scanned(path, i, end, [])
  {
  }

  lemma ScanNext(path: Path, i: nat, end: nat, done: seq<Name>, j: nat, end': nat)
    requires i < end < |path| && Scanned(path, i, end, done)
    requires end + 1 <= j <= end' <= |path| && SameRest(path, end + 1, j) && SLASH !in path[j..end']
    requires end' < |path| ==> path[end'] == SLASH && j < end'
    ensures Scanned(path, j, end', done + [path[i..end]])
  {
    OneComponent(path, i, end, done);
  }

  /** A walk over directories goes on if and only if the next name is that of a directory. */
  lemma DirStep(s: Store, root: Entry, done: seq<Name>, key: Name, rest: seq<Name>)
    requires LinksOk(s, root) && DirAt(s, root, done).Some?
    ensures DirAt(s, root, done + [key]) == DirAt(s, DirAt(s, root, done).value, [key])
    ensures DirAt(s, root, done + [key]) == None ==> DirAt(s, root, done + [key] + rest) == None
  {
    WalkAppend(s, root, done, [key]);
    WalkAppend(s, root, done + [key], rest);
    WalkStays(s, root, root, done + [key]);
    assert rest == [] ==> done + [key] + rest == done + [key];
  }

  lemma ScanTurn(s: Store, root: Entry, path: Path, i: nat, end: nat, done: seq<Name>)
    requires LinksOk(s, root) && DirAt(s, root, done).Some?
    requires i < end < |path| && Scanned(path, i, end, done)
    ensures DirAt(s, root, done + [path[i..end]]) == DirAt(s, DirAt(s, root, done).value, [path[i..end]])
    ensures DirAt(s, root, done + [path[i..end]]) == None ==> DirAt(s, root, DirComps(path)) == None
  {
    OneComponent(path, i, end, done);
    DirStep(s, root, done, path[i..end], DirComps(path[end + 1..]));
  }

  lemma DirMissing(s: Store, root: Entry, p: seq<Name>, n: Name)
    requires LinksOk(s, root) && DirAt(s, root, p) == None
    ensures Walk(s, root, p + [n]) == None
  {
    WalkAppend(s, root, p, [n]);
    WalkStays(s, root, root, p);
    if Walk(s, root, p).Some? {
      WalkOne(s, Walk(s, root, p).value, n);
    }
  }

  /** Binary search: if `n` is among the names, it is between `first` and `last`. */
  ghost predicate Bracketed(names: seq<Name>, first: int, last: int, n: Name)
  {
    && 0 <= first <= last + 1 <= |names|
    && (forall i :: 0 <= i < first ==> Less(names[i], n))
    && (forall i :: last < i < |names| ==> Less(n, names[i]))
  }

  lemma Narrowed(names: seq<Name>, first: int, last: int, m: int, n: Name)
    requires Sorted(names) && Bracketed(names, first, last, n) && first <= m <= last
    ensures Strcmp(names[m], n) < 0 ==> Bracketed(names, m + 1, last, n)
    ensures Strcmp(names[m], n) > 0 ==> Bracketed(names, first, m - 1, n)
    ensures Strcmp(names[m], n) == 0 ==> names[m] == n
  {
    Trichotomy(names[m], n);
    forall i | 0 <= i < |names|
      ensures i <= m && Less(names[m], n) ==> Less(names[i], n)
      ensures i >= m && Less(n, names[m]) ==> Less(n, names[i])
    {
      if i < m && Less(names[m], n) {
        LessTransitive(names[i], names[m], n);
      }
      if i > m && Less(n, names[m]) {
        LessTransitive(n, names[m], names[i]);
      }
    }
  }

  lemma BracketEmpty(names: seq<Name>, first: int, last: int, n: Name)
    requires Bracketed(names, first, last, n) && first > last
    ensures Slot(names, n, last + 1)
  {
  }
}
