/** Runs: any sequence of operations on paths, from a new file system, answers as the path map
    does and ends in the state that the path map describes. */
module FsRuns {
  import opened Names
  import opened FsStore
  import opened FsChanges
  import opened Paths
  import opened RamFsVector
  import opened PathMaps

  datatype Op =
    | Create(path: Path)
    | Mkdir(path: Path)
    | Unlink(path: Path)
    | Rmdir(path: Path)
    | Rename(src: Path, dst: Path)
    | Stat(path: Path)

  /** What the caller sees: whether it worked, the entry made, or the entry at the path. */
  datatype Answer = Done(ok: bool) | Made(made: Entry?) | Found(found: Entry?)

  /** The effect of the operation with number `k`. */
  ghost function Effect(m: PathMap, op: Op, k: nat): PathMap
  {
    match op
    case Create(path) => MakeIn(m, path, Tag(false, k))
    case Mkdir(path) => MakeIn(m, path, Tag(true, k))
    case Unlink(path) => RemoveFrom(m, path, false)
    case Rmdir(path) => RemoveFrom(m, path, true)
    case Rename(src, dst) => RenameIn(m, src, dst)
    case Stat(_) => m
  }

  /** The answer that the map calls for; `made` are the entries made so far, this operation's last. */
  ghost predicate Answered(m: PathMap, op: Op, made: seq<Entry?>, answer: Answer)
    requires made != []
  {
    match op
    case Create(path) => answer == Made(made[|made| - 1]) && (answer.made != null <==> CanMake(m, path))
    case Mkdir(path) => answer == Made(made[|made| - 1]) && (answer.made != null <==> CanMake(m, path))
    case Unlink(path) => answer == Done(CanRemove(m, path, false))
    case Rmdir(path) => answer == Done(CanRemove(m, path, true))
    case Rename(src, dst) => answer == Done(src == dst || CanRename(m, src, dst))
    case Stat(path) =>
      && answer.Found? && (answer.found != null <==> Base(path) != [] && Comps(path) in m)
      && (answer.found != null ==>
            m[Comps(path)].maker < |made| && made[m[Comps(path)].maker] == answer.found)
  }

  /** The root alone. */
  const NEW: PathMap := map[[] := Tag(true, 0)]

  /** The map after a run; its operations are numbered from 1. */
  ghost function Effects(ops: seq<Op>): PathMap
  {
    if ops == [] then NEW else Effect(Effects(ops[..|ops| - 1]), ops[|ops| - 1], |ops|)
  }

  ghost predicate AllAnswered(ops: seq<Op>, made: seq<Entry?>, answers: seq<Answer>)
  {
    && |made| == |ops| + 1 && |answers| == |ops|
    && (ops == [] ||
        var n := |ops| - 1;
        AllAnswered(ops[..n], made[..n + 1], answers[..n]) && Answered(Effects(ops[..n]), ops[n], made, answers[n]))
  }

  /** A rename that the code accepts meets what the code does not check. */
  ghost predicate Careful(m: PathMap, op: Op)
  {
    op.Rename? && op.src != op.dst && CanRename(m, op.src, op.dst) ==> SafeRename(op.src, op.dst)
  }

  /** What each operation does to the map, path by path. */
  lemma EffectAt(m: PathMap, op: Op, k: nat, p: seq<Name>)
    ensures op.Create? || op.Mkdir? ==>
              var made := Base(op.path) != [] && DirComps(op.path) in m && m[DirComps(op.path)].isDir
                          && Comps(op.path) !in m && p == Comps(op.path);
              && (p in Effect(m, op, k) <==> p in m || made)
              && (made ==> Effect(m, op, k)[p] == Tag(op.Mkdir?, k))
              && (p in m ==> Effect(m, op, k)[p] == m[p])
    ensures op.Unlink? || op.Rmdir? ==>
              var gone := Base(op.path) != [] && p == Comps(op.path) && p in m && m[p].isDir == op.Rmdir?
                          && forall q :: q in m && p <= q ==> q == p;
              (p in Effect(m, op, k) <==> p in m && !gone) && (p in m && !gone ==> Effect(m, op, k)[p] == m[p])
    ensures op.Stat? ==> Effect(m, op, k) == m
  {
  }

  /** The same for a rename that is carried out. */
  lemma RenameEffectAt(m: PathMap, src: Path, dst: Path, k: nat, q: seq<Name>)
    requires src != dst && Base(src) != [] && Base(dst) != [] && Comps(src) in m
    requires DirComps(dst) in m && m[DirComps(dst)].isDir && forall p :: p in m ==> !(Comps(dst) <= p)
    ensures var t := Effect(m, Rename(src, dst), k);
            && (Comps(dst) + q in t <==> Comps(src) + q in m)
            && (Comps(dst) + q in t ==> t[Comps(dst) + q] == m[Comps(src) + q])
            && (!(Comps(dst) <= q) ==> (q in t <==> q in m && !(Comps(src) <= q)))
            && (!(Comps(dst) <= q) && q in t ==> t[q] == m[q])
  {
    assert Comps(dst) <= Comps(dst) && Comps(dst) !in m;
    assert (Comps(dst) + q)[|Comps(dst)|..] == q;
    RelocatedAt(m, Comps(src), Comps(dst), Comps(dst) + q);
    RelocatedAt(m, Comps(src), Comps(dst), q);
  }

  lemma {:induction false} AnsweredAt(ops: seq<Op>, made: seq<Entry?>, answers: seq<Answer>, k: nat)
    requires AllAnswered(ops, made, answers) && k < |ops|
    ensures AllAnswered(ops[..k], made[..k + 1], answers[..k])
    ensures Answered(Effects(ops[..k]), ops[k], made[..k + 2], answers[k])
    decreases |ops|
  {
    var n := |ops| - 1;
    if k < n {
      AnsweredAt(ops[..n], made[..n + 1], answers[..n], k);
      assert ops[..n][..k] == ops[..k] && answers[..n][..k] == answers[..k];
      assert made[..n + 1][..k + 1] == made[..k + 1] && made[..n + 1][..k + 2] == made[..k + 2];
    } else {
      assert made[..k + 2] == made;
    }
  }

  /** What an operation answers, told from the map before it. */
  lemma AnswersMean(m: PathMap, op: Op, made: seq<Entry?>, a: Answer)
    requires made != [] && Answered(m, op, made, a)
    ensures op.Create? || op.Mkdir? ==>
              a == Made(made[|made| - 1]) &&
              (a.made != null <==> Base(op.path) != [] && DirComps(op.path) in m && m[DirComps(op.path)].isDir
                                   && Comps(op.path) !in m)
    ensures op.Unlink? || op.Rmdir? ==>
              a == Done(Base(op.path) != [] && Comps(op.path) in m && m[Comps(op.path)].isDir == op.Rmdir?
                        && forall q :: q in m && Comps(op.path) <= q ==> q == Comps(op.path))
    ensures op.Rename? ==>
              a == Done(op.src == op.dst ||
                        (Base(op.src) != [] && Comps(op.src) in m && DirComps(op.dst) in m
                         && m[DirComps(op.dst)].isDir && (Base(op.dst) == [] || Comps(op.dst) !in m)))
    ensures op.Stat? ==> a.Found? && (a.found != null <==> Base(op.path) != [] && Comps(op.path) in m)
    ensures op.Stat? && a.found != null ==>
              m[Comps(op.path)].maker < |made| && a.found == made[m[Comps(op.path)].maker]
  {
  }

  /** The map before any operation, and after one more. */
  lemma EffectsMean(ops: seq<Op>, k: nat)
    requires k < |ops|
    ensures Effects([]) == map[[] := Tag(true, 0)]
    ensures Effects(ops[..k + 1]) == Effect(Effects(ops[..k]), ops[k], k + 1)
  {
    assert ops[..k + 1][..k] == ops[..k];
  }

  lemma NewShown(s: Store, root: Entry)
    requires s == map[root := Info(null, [], true, [])]
    ensures Shows(s, root, [root], NEW)
  {
  }

  method CreateAt(fs: RamFs, path: Path, isDir: bool, ghost made: seq<Entry?>, ghost m: PathMap) returns (e: Entry?)
    requires fs.Valid() && Shows(fs.store, fs.root, made, m)
    modifies fs`store, fs.store.Keys`parent, fs.store.Keys`name, fs.store.Keys`children
    ensures fs.Valid() && Shows(fs.store, fs.root, made + [e], MakeIn(m, path, Tag(isDir, |made|)))
    ensures e != null <==> CanMake(m, path)
    ensures fresh(fs.store.Keys - old(fs.store.Keys))
  {
    CreatableShown(fs.store, fs.root, made, m, path);
    ghost var d, i;
    if isDir {
      e, d, i := fs.Mkdir(path);
    } else {
      e, d, i := fs.Create(path);
    }
    StillShown(old(fs.store), fs.root, made, m, e);
    if e != null {
      MakeShown(old(fs.store), fs.root, made + [e], m, d, i, e, path, isDir, Tag(isDir, |made|));
    }
  }

  method RemoveAt(fs: RamFs, path: Path, isDir: bool, ghost made: seq<Entry?>, ghost m: PathMap) returns (ok: bool)
    requires fs.Valid() && Shows(fs.store, fs.root, made, m)
    modifies fs`store, fs.store.Keys`parent, fs.store.Keys`name, fs.store.Keys`children
    ensures fs.Valid() && Shows(fs.store, fs.root, made, RemoveFrom(m, path, isDir)) && ok == CanRemove(m, path, isDir)
    ensures fs.store.Keys <= old(fs.store.Keys)
  {
    var e := fs.GetEntry(path);
    assert ShownAt(fs.store, fs.root, made, m, Comps(path));
    if e == null {
      return false;
    }
    CompsSplit(path);
    WalkNames(fs.store, fs.root, Comps(path));
    ChildlessShown(fs.store, fs.root, made, m, e, Comps(path));
    assert EntryOk(fs.store, fs.root, e);
    var r;
    ghost var d, i;
    if isDir {
      r, d, i := fs.Rmdir(e);
    } else {
      r, d, i := fs.Unlink(e);
    }
    if r == 0 {
      RemoveShown(old(fs.store), fs.root, made, m, d, i, path, isDir);
    }
    ok := r == 0;
  }

  method RenameAt(fs: RamFs, src: Path, dst: Path, ghost made: seq<Entry?>, ghost m: PathMap) returns (ok: bool)
    requires fs.Valid() && Shows(fs.store, fs.root, made, m) && Careful(m, Rename(src, dst))
    modifies fs`store, fs.store.Keys`parent, fs.store.Keys`name, fs.store.Keys`children
    ensures fs.Valid() && Shows(fs.store, fs.root, made, RenameIn(m, src, dst))
    ensures ok == (src == dst || CanRename(m, src, dst))
    ensures fs.store.Keys == old(fs.store.Keys)
  {
    RenamableShown(fs.store, fs.root, made, m, src, dst);
    var r;
    ghost var sp, i, dp, j;
    r, sp, i, dp, j := fs.Rename(src, dst);
    if r == 0 && src != dst {
      RenameShown(old(fs.store), fs.root, made, m, sp, i, dp, j, src, dst);
    }
    ok := r == 0;
  }

  method StatAt(fs: RamFs, path: Path, ghost made: seq<Entry?>, ghost m: PathMap) returns (e: Entry?)
    requires fs.Valid() && Shows(fs.store, fs.root, made, m)
    ensures e != null <==> Base(path) != [] && Comps(path) in m
    ensures e != null ==> m[Comps(path)].maker < |made| && made[m[Comps(path)].maker] == e
  {
    e := fs.GetEntry(path);
    assert ShownAt(fs.store, fs.root, made, m, Comps(path));
  }

  /** One operation, and the entry that it made. */
  method Perform(fs: RamFs, op: Op, ghost made: seq<Entry?>, ghost m: PathMap) returns (e: Entry?, answer: Answer)
    requires fs.Valid() && Shows(fs.store, fs.root, made, m) && Careful(m, op)
    modifies fs`store, fs.store.Keys`parent, fs.store.Keys`name, fs.store.Keys`children
    ensures fs.Valid() && Shows(fs.store, fs.root, made + [e], Effect(m, op, |made|))
    ensures Answered(m, op, made + [e], answer)
    ensures fresh(fs.store.Keys - old(fs.store.Keys))
  {
    e := null;
    if op.Create? || op.Mkdir? {
      e := CreateAt(fs, op.path, op.Mkdir?, made, m);
      return e, Made(e);
    }
    StillShown(fs.store, fs.root, made, m, null);
    ghost var made' := made + [null];
    match op {
      case Unlink(path) =>
        var ok := RemoveAt(fs, path, false, made', m);
        answer := Done(ok);
      case Rmdir(path) =>
        var ok := RemoveAt(fs, path, true, made', m);
        answer := Done(ok);
      case Rename(src, dst) =>
        var ok := RenameAt(fs, src, dst, made', m);
        answer := Done(ok);
      case Stat(path) =>
        var found := StatAt(fs, path, made', m);
        answer := Found(found);
    }
  }

  /** Every run keeps the invariant and does exactly what the path map does. `made[0]` is the root and
      `made[k]` what operation `k` made, so the map says which entry is where. */
  method Run(ops: seq<Op>) returns (fs: RamFs, made: seq<Entry?>, answers: seq<Answer>)
    requires forall k :: 0 <= k < |ops| ==> Careful(Effects(ops[..k]), ops[k])
    ensures fresh(fs) && fresh(fs.store.Keys)
    ensures |made| == |ops| + 1 && made[0] == fs.root
    ensures fs.Valid() && Shows(fs.store, fs.root, made, Effects(ops))
    ensures AllAnswered(ops, made, answers)
    decreases |ops|
  {
    if ops == [] {
      fs := new RamFs();
      made, answers := [fs.root], [];
      NewShown(fs.store, fs.root);
    } else {
      var before := ops[..|ops| - 1];
      assert forall k :: 0 <= k <= |before| ==> before[..k] == ops[..k];
      fs, made, answers := Run(before);
      var e, a := Perform(fs, ops[|before|], made, Effects(before));
      assert (made + [e])[..|ops|] == made && (answers + [a])[..|before|] == answers;
      made, answers := made + [e], answers + [a];
    }
  }

  /** Making an entry and removing it again gives back the file system as it was. */
  method MakeThenRemove(fs: RamFs, path: Path, isDir: bool) returns (made: bool)
    requires fs.Valid()
    modifies fs`store, fs.store.Keys`parent, fs.store.Keys`name, fs.store.Keys`children
    ensures fs.Valid() && fs.store == old(fs.store)
    ensures made <==> Creatable(old(fs.store), fs.root, path)
  {
    var e;
    ghost var d, i;
    e, d, i := fs.Make(path, isDir);
    made := e != null;
    if made {
      RemoveNew(fs, e, path, isDir, old(fs.store), d, i);
    }
  }

  /** The second half: removing the entry that was added to the links `s`. */
  method RemoveNew(fs: RamFs, e: Entry, path: Path, isDir: bool, ghost s: Store, ghost d: Entry, ghost i: nat)
    requires Addable(s, fs.root, d, i, e, Base(path)) && e.isDir == isDir
    requires fs.Valid() && fs.store == Added(s, d, i, e, Base(path), isDir)
    modifies fs`store, fs.store.Keys`parent, fs.store.Keys`name, fs.store.Keys`children
    ensures fs.Valid() && fs.store == s
  {
    ghost var t := fs.store;
    assert EntryOk(t, fs.root, e) && EntryOk(t, fs.root, d);
    DeletedUndoesAdded(s, fs.root, d, i, e, Base(path), isDir);
    var r;
    ghost var d', i';
    if isDir {
      r, d', i' := fs.Rmdir(e);
    } else {
      r, d', i' := fs.Unlink(e);
    }
    assert EntryOk(t, fs.root, d');
    SamePlace(t, fs.root, d, i, i');
  }
}
