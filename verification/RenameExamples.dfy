/** Two renames that the code accepts and that break the file system, wherever they are possible. */
module RenameExamples {
  import opened Names
  import opened FsStore
  import opened FsChanges
  import opened FsMove
  import opened Paths
  import opened RamFsVector

  const A: Path := [97]
  const A_B: Path := [97, SLASH, 98]
  const B_SLASH: Path := [98, SLASH]
  const B: Path := [98]

  lemma Texts()
    ensures DirComps(A) == [] && Base(A) == A && Comps(A) == [A]
    ensures DirComps(B) == [] && Base(B) == B
    ensures DirComps(A_B) == [A] && Base(A_B) == B
    ensures DirComps(B_SLASH) == [B] && Base(B_SLASH) == []
  {
    NoSlashLeft(A);
    NoSlashLeft(B);
    NoSlashLeft([]);
    CompsSplit(A);
    assert A_B[..1] == A && A_B[2..] == B;
    ReadComponent(A_B, 1);
    assert B_SLASH[..1] == B && B_SLASH[2..] == [];
    ReadComponent(B_SLASH, 1);
  }

  /** A file system with a directory at `path`, a single name. */
  method WithDirectory(fs: RamFs, path: Path) returns (e: Entry)
    requires fs.Valid() && DirComps(path) == [] && Base(path) != []
    requires Child(fs.store, fs.root, Base(path)) == None
    modifies fs`store, fs.store.Keys`parent, fs.store.Keys`name, fs.store.Keys`children
    ensures fs.Valid() && fresh(e) && e in fs.store && fs.store[e].isDir && fs.store[e].kids == []
    ensures Child(fs.store, fs.root, Base(path)) == Some(e)
    ensures forall n :: n != Base(path) ==> Child(fs.store, fs.root, n) == Child(old(fs.store), fs.root, n)
    ensures forall x :: x in old(fs.store) && x != fs.root ==> x in fs.store && fs.store[x] == old(fs.store)[x]
    ensures fresh(fs.store.Keys - old(fs.store.Keys))
  {
    var r;
    ghost var d, i;
    assert DirAt(fs.store, fs.root, []) == Some(fs.root);
    r, d, i := fs.Mkdir(path);
    e := r;
    forall n
      ensures Child(fs.store, fs.root, n) == if n == Base(path) then Some(e) else Child(old(fs.store), fs.root, n)
    {
      AddedChild(old(fs.store), fs.root, d, i, e, Base(path), true, fs.root, n);
    }
  }

  lemma NewRoot(s: Store, root: Entry, n: Name)
    requires s == map[root := Info(null, [], true, [])]
    ensures Child(s, root, n) == None
  {
  }

  /** Every directory `a` of the root that holds no `b` can be renamed to `a/b`. */
  lemma AcceptedUnderItself(s: Store, root: Entry, a: Entry)
    requires Inv(s, root) && Child(s, root, A) == Some(a) && s[a].isDir && Child(s, a, B) == None
    ensures Renamable(s, root, A, A_B) && !SafeRename(A, A_B)
  {
    Texts();
    WalkOne(s, root, A);
    assert Walk(s, root, []) == Some(root);
  }

  /** Every entry `a` of the root can be renamed to `b/` when the root has a directory `b`. */
  lemma AcceptedToNothing(s: Store, root: Entry, a: Entry, b: Entry)
    requires Inv(s, root) && Child(s, root, A) == Some(a) && Child(s, root, B) == Some(b) && s[b].isDir
    ensures Renamable(s, root, A, B_SLASH) && !SafeRename(A, B_SLASH)
  {
    Texts();
    WalkOne(s, root, B);
    assert Walk(s, root, []) == Some(root);
    NoEmptyName(s, root, b);
  }

  /** `rename a a/b` succeeds and cuts the directory off from the root. */
  method RenameUnderItself(fs: RamFs, ghost a: Entry) returns (r: int, ghost i: nat, ghost j: nat)
    requires fs.Valid() && Child(fs.store, fs.root, A) == Some(a)
    requires fs.store[a].isDir && Child(fs.store, a, B) == None
    modifies fs`store, fs.store.Keys`parent, fs.store.Keys`name, fs.store.Keys`children
    ensures r == 0 && fs.Mirrored() && Movable(old(fs.store), fs.root, fs.root, i, a, j, B)
    ensures fs.store == Moved(old(fs.store), fs.root, i, a, j, B) && old(fs.store)[fs.root].kids[i] == a
    ensures !Inv(fs.store, fs.root) && !Reached(fs.store, fs.root, a)
  {
    Texts();
    AcceptedUnderItself(fs.store, fs.root, a);
    WalkOne(fs.store, fs.root, A);
    ghost var s := fs.store;
    ghost var sp, dp;
    r, sp, i, dp, j := fs.Rename(A, A_B);
    assert Walk(s, fs.root, Comps(A)) == Some(a);
    SourceLeads(s, fs.root, sp, i, []);
    MoveUnderItself(s, fs.root, sp, i, dp, j, B, [], [A]);
  }

  /** `rename a b/` succeeds and leaves an entry without a name. */
  method RenameToNothing(fs: RamFs, ghost a: Entry, ghost b: Entry) returns (r: int, ghost i: nat, ghost j: nat)
    requires fs.Valid() && Child(fs.store, fs.root, A) == Some(a)
    requires Child(fs.store, fs.root, B) == Some(b) && fs.store[b].isDir
    modifies fs`store, fs.store.Keys`parent, fs.store.Keys`name, fs.store.Keys`children
    ensures r == 0 && fs.Mirrored() && Movable(old(fs.store), fs.root, fs.root, i, b, j, [])
    ensures fs.store == Moved(old(fs.store), fs.root, i, b, j, []) && old(fs.store)[fs.root].kids[i] == a
    ensures !Inv(fs.store, fs.root) && fs.store[a].name == []
  {
    Texts();
    AcceptedToNothing(fs.store, fs.root, a, b);
    WalkOne(fs.store, fs.root, A);
    WalkOne(fs.store, fs.root, B);
    ghost var s := fs.store;
    ghost var sp, dp;
    r, sp, i, dp, j := fs.Rename(A, B_SLASH);
    assert Walk(s, fs.root, Comps(A)) == Some(a);
    SourceLeads(s, fs.root, sp, i, []);
  }

  /** `mkdir a` on a new file system. */
  method NewWithA() returns (fs: RamFs, a: Entry)
    ensures fresh(fs) && fresh(fs.store.Keys) && fs.Valid()
    ensures Child(fs.store, fs.root, A) == Some(a) && fs.store[a].isDir && Child(fs.store, a, B) == None
  {
    Texts();
    fs := new RamFs();
    NewRoot(fs.store, fs.root, A);
    a := WithDirectory(fs, A);
  }

  /** `mkdir b` and `mkdir a`. */
  method NewWithBoth() returns (fs: RamFs, a: Entry, b: Entry)
    ensures fresh(fs) && fresh(fs.store.Keys) && fs.Valid()
    ensures Child(fs.store, fs.root, A) == Some(a) && Child(fs.store, fs.root, B) == Some(b) && fs.store[b].isDir
  {
    Texts();
    fs := new RamFs();
    NewRoot(fs.store, fs.root, A);
    NewRoot(fs.store, fs.root, B);
    b := WithDirectory(fs, B);
    a := WithDirectory(fs, A);
  }

  /** So there are file systems that a rename breaks. */
  method ExampleUnderItself() returns (fs: RamFs, r: int, ghost before: Store)
    ensures Inv(before, fs.root) && Renamable(before, fs.root, A, A_B)
    ensures r == 0 && fs.Mirrored() && !Inv(fs.store, fs.root)
  {
    var a;
    fs, a := NewWithA();
    before := fs.store;
    AcceptedUnderItself(before, fs.root, a);
    ghost var i, j;
    r, i, j := RenameUnderItself(fs, a);
  }

  method ExampleToNothing() returns (fs: RamFs, r: int, ghost before: Store)
    ensures Inv(before, fs.root) && Renamable(before, fs.root, A, B_SLASH)
    ensures r == 0 && fs.Mirrored() && !Inv(fs.store, fs.root)
  {
    var a, b;
    fs, a, b := NewWithBoth();
    before := fs.store;
    AcceptedToNothing(before, fs.root, a, b);
    ghost var i, j;
    r, i, j := RenameToNothing(fs, a, b);
  }
}
