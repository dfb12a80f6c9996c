/** The two directory indexes, the red-black tree and the sorted array, are the same ordered
    collection of names: every sequence of operations gets the same answers from both. */
module NameIndexes {
  import opened Names
  import opened RbShape
  import opened RbOrder
  import opened RbTrees
  import opened FsStore
  import opened FsChanges
  import opened RamFsVector
  import opened DirCursors

  datatype Op = Insert(name: Name) | Search(name: Name) | Delete(name: Name)

  /** The collection after an operation, and the answer: found, or done. */
  function NextNames(names: set<Name>, op: Op): set<Name>
  {
    match op
    case Insert(n) => names + {n}
    case Search(_) => names
    case Delete(n) => names - {n}
  }

  function Answer(names: set<Name>, op: Op): bool
  {
    match op
    case Insert(n) => n !in names
    case Search(n) => n in names
    case Delete(n) => n in names
  }

  function NamesAfter(ops: seq<Op>): set<Name>
  {
    if ops == [] then {} else NextNames(NamesAfter(ops[..|ops| - 1]), ops[|ops| - 1])
  }

  /** The answers to all operations of a run. */
  function Answers(ops: seq<Op>): (r: seq<bool>)
    ensures |r| == |ops|
  {
    if ops == [] then []
    else Answers(ops[..|ops| - 1]) + [Answer(NamesAfter(ops[..|ops| - 1]), ops[|ops| - 1])]
  }

  /** A name is there after a run if and only if the last operation that could change that was an insert. */
  lemma {:induction false} ThereByHistory(ops: seq<Op>, n: Name)
    ensures n in NamesAfter(ops) <==>
            exists j :: 0 <= j < |ops| && ops[j] == Insert(n) && forall l :: j < l < |ops| ==> ops[l] != Delete(n)
    decreases |ops|
  {
    if ops != [] {
      var k := |ops| - 1;
      var before := ops[..k];
      ThereByHistory(before, n);
      assert forall l :: 0 <= l < k ==> before[l] == ops[l];
      if ops[k] != Insert(n) && ops[k] != Delete(n) && n in NamesAfter(before) {
        var j :| 0 <= j < k && before[j] == Insert(n) && forall l :: j < l < k ==> before[l] != Delete(n);
        assert ops[j] == Insert(n) && forall l :: j < l < |ops| ==> ops[l] != Delete(n);
      }
    }
  }

  lemma {:induction false} AnswerAt(ops: seq<Op>, i: nat)
    requires i < |ops|
    ensures Answers(ops)[i] == Answer(NamesAfter(ops[..i]), ops[i])
    decreases |ops|
  {
    var before := ops[..|ops| - 1];
    if i < |before| {
      AnswerAt(before, i);
      assert before[..i] == ops[..i];
    }
  }

  /** What an operation of a run answers, told from the operations before it: a search or a deletion finds
      its name if it was inserted and not deleted since, and an insertion succeeds if not. */
  lemma AnswersByHistory(ops: seq<Op>, i: nat)
    requires i < |ops|
    ensures var n := ops[i].name;
            var there := exists j ::
              0 <= j < i && ops[j] == Insert(n) && forall l :: j < l < i ==> ops[l] != Delete(n);
            Answers(ops)[i] == if ops[i].Insert? then !there else there
  {
    var n, before := ops[i].name, ops[..i];
    AnswerAt(ops, i);
    ThereByHistory(before, n);
    assert forall j :: 0 <= j < i ==> before[j] == ops[j];
    if n in NamesAfter(before) {
      var j :| 0 <= j < |before| && before[j] == Insert(n) && forall l :: j < l < |before| ==> before[l] != Delete(n);
      assert ops[j] == Insert(n) && forall l :: j < l < i ==> ops[l] != Delete(n);
    }
  }

  ghost function Elements(s: seq<Name>): set<Name>
  {
    set n | n in s
  }

  lemma SomeElement(s: seq<Name>)
    requires s != []
    ensures Elements(s) != {}
  {
    assert s[0] in Elements(s);
  }

  /** A sorted list is determined by its elements. */
  lemma {:induction false} SortedUnique(a: seq<Name>, b: seq<Name>)
    requires Sorted(a) && Sorted(b) && Elements(a) == Elements(b)
    ensures a == b
    decreases |a|
  {
    if a == [] {
      if b != [] {
        SomeElement(b);
      }
    } else {
      var x := a[|a| - 1];
      assert x in Elements(b) && b != [];
      var y := b[|b| - 1];
      assert y in Elements(a);
      LastIsLargest(a, y);
      LastIsLargest(b, x);
      Trichotomy(x, y);
      WithoutLast(a);
      WithoutLast(b);
      SortedUnique(a[..|a| - 1], b[..|b| - 1]);
      assert a == a[..|a| - 1] + [x] && b == b[..|b| - 1] + [y];
    }
  }

  lemma LastIsLargest(s: seq<Name>, n: Name)
    requires Sorted(s) && n in s
    ensures n == s[|s| - 1] || Less(n, s[|s| - 1])
  {
  }

  lemma WithoutLast(s: seq<Name>)
    requires Sorted(s) && s != []
    ensures Elements(s[..|s| - 1]) == Elements(s) - {s[|s| - 1]}
  {
    var m := |s| - 1;
    RemoveSorted(s, m);
    assert s[..m] + s[m + 1..] == s[..m];
    assert s == s[..m] + [s[m]];
  }

  lemma InsertElements(s: seq<Name>, n: Name, i: nat)
    requires i <= |s|
    ensures Elements(s[..i] + [n] + s[i..]) == Elements(s) + {n}
  {
  }

  lemma RemoveElements(s: seq<Name>, i: nat)
    requires Sorted(s) && i < |s|
    ensures Elements(s[..i] + s[i + 1..]) == Elements(s) - {s[i]}
  {
    RemoveSorted(s, i);
    assert s == s[..i] + [s[i]] + s[i + 1..];
  }

  // ---- One operation on each index ----

  /** The tree holds exactly these names. */
  ghost predicate TreeHas(t: RbTree, names: set<Name>)
    reads t, t.nil, t.cells.Keys
  {
    t.Valid() && Elements(Keys(InOrder(t.tree))) == names
  }

  method OnTree(t: RbTree, op: Op, ghost names: set<Name>) returns (answer: bool)
    requires TreeHas(t, names)
    modifies t, t.cells.Keys
    ensures TreeHas(t, NextNames(names, op)) && answer == Answer(names, op)
    ensures fresh(t.cells.Keys - old(t.cells.Keys))
  {
    ghost var before := InOrder(t.tree);
    ghost var pos;
    match op {
      case Insert(n) =>
        var d := new Node(t.nil, n);
        var r;
        r, pos := t.Insert(d);
        if r != null {
          InsertKeys(before, d, pos);
          InsertElements(Keys(before), n, pos);
        }
        answer := r != null;
      case Search(n) =>
        var r;
        ghost var steps;
        r, pos, steps := t.Search(n);
        answer := r != null;
      case Delete(n) =>
        var r;
        r, pos := t.Delete(n);
        if r != null {
          WithoutKeys(before, pos);
          RemoveElements(Keys(before), pos);
        }
        answer := r != null;
    }
  }

  /** The names of the children of the root directory. */
  ghost function RootNames(fs: RamFs): seq<Name>
    requires fs.Valid()
    reads fs, fs.store.Keys
  {
    assert EntryOk(fs.store, fs.root, fs.root);
    NamesOf(fs.store, fs.store[fs.root].kids)
  }

  /** All entries are children of the root, and files. */
  ghost predicate Flat(fs: RamFs)
    reads fs
  {
    forall e :: e in fs.store && e != fs.root ==> !fs.store[e].isDir
  }

  /** The array of the root's children holds exactly these names, all of them files. */
  ghost predicate ArrayHas(fs: RamFs, names: set<Name>)
    reads fs, fs.store.Keys
  {
    fs.Valid() && Flat(fs) && Elements(RootNames(fs)) == names
  }

  /** Looking a name up in the root's array. */
  method Found(fs: RamFs, name: Name) returns (k: int)
    requires fs.Valid()
    ensures k >= 0 ==> k < |RootNames(fs)| && RootNames(fs)[k] == name
    ensures k < 0 ==> Slot(RootNames(fs), name, -k - 1)
    ensures k >= 0 <==> name in RootNames(fs)
  {
    k := fs.Lookup(fs.root, name);
    if k < 0 {
      SlotMeansAbsent(RootNames(fs), name, -k - 1);
    } else {
      assert RootNames(fs)[k] == name;
    }
  }

  /** A new file at its place in the root's array. */
  method AddName(fs: RamFs, name: Name, slot: nat)
    requires fs.Valid() && Flat(fs) && ValidName(name) && Slot(RootNames(fs), name, slot)
    modifies fs`store, fs.store.Keys`parent, fs.store.Keys`name, fs.store.Keys`children
    ensures fs.Valid() && Flat(fs) && Elements(RootNames(fs)) == Elements(old(RootNames(fs))) + {name}
    ensures fresh(fs.store.Keys - old(fs.store.Keys))
  {
    ghost var s, before := fs.store, RootNames(fs);
    assert EntryOk(s, fs.root, fs.root);
    var e := fs.Place(fs.root, name, false, slot);
    AddedNames(s, fs.root, fs.root, slot, e, name, false);
    InsertElements(before, name, slot);
  }

  /** The file at place `k` goes. */
  method DropName(fs: RamFs, k: nat)
    requires fs.Valid() && Flat(fs) && k < |RootNames(fs)|
    modifies fs`store, fs.store.Keys`parent, fs.store.Keys`name, fs.store.Keys`children
    ensures fs.Valid() && Flat(fs) && Elements(RootNames(fs)) == Elements(old(RootNames(fs))) - {old(RootNames(fs))[k]}
    ensures fs.store.Keys <= old(fs.store.Keys)
  {
    ghost var s, before := fs.store, RootNames(fs);
    assert EntryOk(s, fs.root, fs.root);
    var e := fs.root.children[k];
    assert EntryOk(s, fs.root, e);
    ghost var d, i;
    d, i := fs.Discard(e);
    assert EntryOk(s, fs.root, d);
    SamePlace(s, fs.root, fs.root, i, k);
    DeletedNames(s, fs.root, fs.root, i);
    RemoveElements(before, k);
  }

  method OnArray(fs: RamFs, op: Op, ghost names: set<Name>) returns (answer: bool)
    requires ArrayHas(fs, names) && ValidName(op.name)
    modifies fs`store, fs.store.Keys`parent, fs.store.Keys`name, fs.store.Keys`children
    ensures ArrayHas(fs, NextNames(names, op)) && answer == Answer(names, op)
    ensures fresh(fs.store.Keys - old(fs.store.Keys))
  {
    var k := Found(fs, op.name);
    match op {
      case Insert(n) =>
        if k < 0 {
          AddName(fs, n, -k - 1);
        }
        answer := k < 0;
      case Search(n) =>
        answer := k >= 0;
      case Delete(n) =>
        if k >= 0 {
          DropName(fs, k);
        }
        answer := k >= 0;
    }
  }

  // ---- Runs ----

  /** Holding the same names, they are the same: the tree read in order is the array. */
  lemma SameContents(t: RbTree, fs: RamFs, names: set<Name>)
    requires TreeHas(t, names) && ArrayHas(fs, names)
    ensures Keys(InOrder(t.tree)) == RootNames(fs) && t.count == |fs.root.children|
  {
    assert EntryOk(fs.store, fs.root, fs.root);
    SortedUnique(Keys(InOrder(t.tree)), RootNames(fs));
  }

  /** From an empty tree. */
  method RunTree(ops: seq<Op>) returns (t: RbTree, answers: seq<bool>)
    ensures TreeHas(t, NamesAfter(ops)) && answers == Answers(ops)
    ensures fresh(t) && fresh(t.cells.Keys)
    decreases |ops|
  {
    if ops == [] {
      var nil := new Node.Sentinel();
      t := new RbTree(nil);
      answers := [];
    } else {
      var before := ops[..|ops| - 1];
      t, answers := RunTree(before);
      var a := OnTree(t, ops[|before|], NamesAfter(before));
      answers := answers + [a];
    }
  }

  /** From an empty directory. */
  method RunArray(ops: seq<Op>) returns (fs: RamFs, answers: seq<bool>)
    requires forall op :: op in ops ==> ValidName(op.name)
    ensures ArrayHas(fs, NamesAfter(ops)) && answers == Answers(ops)
    ensures fresh(fs) && fresh(fs.store.Keys)
    decreases |ops|
  {
    if ops == [] {
      fs := new RamFs();
      answers := [];
    } else {
      var before := ops[..|ops| - 1];
      fs, answers := RunArray(before);
      var a := OnArray(fs, ops[|before|], NamesAfter(before));
      answers := answers + [a];
    }
  }

  /** Every run gives the same answers from both indexes and leaves the same number of elements in
      both; the tree read in order is the array. */
  method SameIndex(ops: seq<Op>)
    returns (fromTree: seq<bool>, fromArray: seq<bool>, inTree: seq<Node>, inArray: seq<Entry>)
    requires forall op :: op in ops ==> ValidName(op.name)
    ensures fromTree == fromArray == Answers(ops)
    ensures |inTree| == |inArray| && forall i :: 0 <= i < |inTree| ==> inTree[i].key == inArray[i].name
    ensures forall n :: n in Keys(inTree) <==> n in NamesAfter(ops)
  {
    var t, fs;
    t, fromTree := RunTree(ops);
    fs, fromArray := RunArray(ops);
    SameContents(t, fs, NamesAfter(ops));
    inTree := t.Traverse();
    inArray := List(fs, fs.root);
    assert EntryOk(fs.store, fs.root, fs.root);
    forall i | 0 <= i < |inTree|
      ensures inTree[i].key == inArray[i].name
    {
      assert Keys(inTree)[i] == RootNames(fs)[i];
      assert inArray[i] in fs.store;
    }
  }
}
