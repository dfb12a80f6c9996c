/** The entries of the file system and, as a value, the links between them; what it means for
    a sequence of names to lead from a directory to an entry. */
module FsStore {
  import opened Names

  datatype Option<+A> = None | Some(value: A)

  newtype Byte = x: int | 0 <= x < 256

  /** `ramfs_entry_t` with the fields of `ramfs_dir_t` and `ramfs_file_t`. */
  class Entry {
    var parent: Entry?
    var name: Name
    const isDir: bool
    var children: seq<Entry>
    var data: seq<Byte>
    var size: nat

    /** A zeroed allocation that is then given its name, type and parent. */
    constructor (parent: Entry?, name: Name, isDir: bool)
      ensures this.parent == parent && this.name == name && this.isDir == isDir
      ensures children == [] && data == [] && size == 0
    {
      this.parent, this.name, this.isDir := parent, name, isDir;
      children, data, size := [], [], 0;
    }
  }

  datatype Info = Info(parent: Entry?, name: Name, isDir: bool, kids: seq<Entry>)

  type Store = map<Entry, Info>

  function NamesOf(s: Store, kids: seq<Entry>): (names: seq<Name>)
    requires forall k :: k in kids ==> k in s
    ensures |names| == |kids|
    ensures forall i :: 0 <= i < |kids| ==> names[i] == s[kids[i]].name
  {
    seq(|kids|, i requires 0 <= i < |kids| => s[kids[i]].name)
  }

  /** A name that a component of a path can have. */
  predicate ValidName(n: Name)
  {
    n != [] && SLASH !in n
  }

  /** The children of `d` exist, point back to `d`, and are strictly sorted by name. */
  ghost predicate KidsOk(s: Store, d: Entry)
    requires d in s
  {
    && (forall k :: k in s[d].kids ==> k in s && s[k].parent == d)
    && Sorted(NamesOf(s, s[d].kids))
  }

  /** What holds of every entry: children as above, files have none, and every entry but the root
      has a usable name and is listed by the directory that its parent pointer names. */
  ghost predicate EntryOk(s: Store, root: Entry, d: Entry)
  {
    && d in s && KidsOk(s, d)
    && (!s[d].isDir ==> s[d].kids == [])
    && (d == root <==> s[d].parent == null)
    && (d != root ==> ValidName(s[d].name) && s[d].parent in s && s[s[d].parent].isDir && d in s[s[d].parent].kids)
  }

  ghost predicate LinksOk(s: Store, root: Entry)
  {
    && root in s && s[root].isDir && s[root].name == []
    && forall d {:trigger EntryOk(s, root, d)} :: d in s ==> EntryOk(s, root, d)
  }

  ghost predicate IsChild(s: Store, d: Entry, n: Name, k: Entry)
  {
    d in s && k in s[d].kids && k in s && s[k].name == n
  }

  ghost function Child(s: Store, d: Entry, n: Name): (r: Option<Entry>)
    ensures r.Some? ==> IsChild(s, d, n, r.value)
    ensures r.None? ==> d !in s || forall k :: k in s[d].kids ==> !IsChild(s, d, n, k)
  {
    if d in s && exists k :: k in s[d].kids && IsChild(s, d, n, k) then
      var k :| k in s[d].kids && IsChild(s, d, n, k);
      Some(k)
    else
      None
  }

  /** Where the names `p` lead from `d`; only directories can be walked through. */
  ghost function Walk(s: Store, d: Entry, p: seq<Name>): Option<Entry>
  {
    if p == [] then Some(d)
    else if d !in s || !s[d].isDir then None
    else match Child(s, d, p[0])
      case None => None
      case Some(k) => Walk(s, k, p[1..])
  }

  ghost predicate Reached(s: Store, root: Entry, e: Entry)
  {
    exists p :: Walk(s, root, p) == Some(e)
  }

  /** The invariant of the file system: sound links, and everything hangs below the root. */
  ghost predicate Inv(s: Store, root: Entry)
  {
    LinksOk(s, root) && forall e {:trigger Reached(s, root, e)} :: e in s ==> Reached(s, root, e)
  }

  // ---- Walking ----

  lemma {:induction false} WalkAppend(s: Store, d: Entry, p: seq<Name>, q: seq<Name>)
    ensures Walk(s, d, p).None? ==> Walk(s, d, p + q).None?
    ensures Walk(s, d, p).Some? ==> Walk(s, d, p + q) == Walk(s, Walk(s, d, p).value, q)
  {
    if p == [] {
      assert p + q == q;
    } else {
      assert (p + q)[1..] == p[1..] + q;
      if d in s && s[d].isDir && Child(s, d, p[0]).Some? {
        WalkAppend(s, Child(s, d, p[0]).value, p[1..], q);
      }
    }
  }

  lemma WalkOne(s: Store, d: Entry, n: Name)
    ensures Walk(s, d, [n]) == if d in s && s[d].isDir then Child(s, d, n) else None
  {
  }

  lemma {:induction false} WalkStays(s: Store, root: Entry, d: Entry, p: seq<Name>)
    requires LinksOk(s, root) && d in s
    ensures Walk(s, d, p).Some? ==> Walk(s, d, p).value in s
  {
    if p != [] && s[d].isDir && Child(s, d, p[0]).Some? {
      WalkStays(s, root, Child(s, d, p[0]).value, p[1..]);
    }
  }

  /** The last step of a walk: the entry's own name, from the entry's own parent. */
  lemma WalkLast(s: Store, root: Entry, d: Entry, p: seq<Name>)
    requires LinksOk(s, root) && d in s && p != [] && Walk(s, d, p).Some?
    ensures var e := Walk(s, d, p).value;
            e in s && e != root && s[e].name == p[|p| - 1] && s[e].parent in s
            && Walk(s, d, p[..|p| - 1]) == Some(s[e].parent)
  {
    var m := |p| - 1;
    assert p[..m] + [p[m]] == p;
    WalkAppend(s, d, p[..m], [p[m]]);
    WalkStays(s, root, d, p[..m]);
    var x := Walk(s, d, p[..m]).value;
    WalkOne(s, x, p[m]);
    assert EntryOk(s, root, x) && EntryOk(s, root, Child(s, x, p[m]).value);
  }

  /** No entry is reached from the root by two different sequences of names. */
  lemma {:induction false} PathUnique(s: Store, root: Entry, p: seq<Name>, q: seq<Name>)
    requires LinksOk(s, root)
    requires Walk(s, root, p).Some? && Walk(s, root, p) == Walk(s, root, q)
    ensures p == q
    decreases |p|
  {
    if p != [] {
      WalkLast(s, root, root, p);
    }
    if q != [] {
      WalkLast(s, root, root, q);
    }
    if p != [] && q != [] {
      PathUnique(s, root, p[..|p| - 1], q[..|q| - 1]);
      assert p == p[..|p| - 1] + [p[|p| - 1]] && q == q[..|q| - 1] + [q[|q| - 1]];
    }
  }

  /** A child is found under its name: siblings have different names. */
  lemma ChildByName(s: Store, root: Entry, d: Entry, k: Entry)
    requires LinksOk(s, root) && d in s && k in s[d].kids && k in s
    ensures Child(s, d, s[k].name) == Some(k)
  {
    assert EntryOk(s, root, d);
    assert IsChild(s, d, s[k].name, k);
    var r := Child(s, d, s[k].name).value;
    var names := NamesOf(s, s[d].kids);
    var i :| 0 <= i < |names| && s[d].kids[i] == k;
    var j :| 0 <= j < |names| && s[d].kids[j] == r;
    assert names[i] == names[j];
    SortedNoDuplicates(names, i, j);
  }

  /** No directory lists an entry without a name. */
  lemma NoEmptyName(s: Store, root: Entry, d: Entry)
    requires LinksOk(s, root) && d in s
    ensures forall k :: k in s[d].kids && k in s ==> s[k].name != []
  {
    assert EntryOk(s, root, d);
    forall k | k in s[d].kids && k in s
      ensures s[k].name != []
    {
      assert EntryOk(s, root, k);
    }
  }

  // ---- What walking and the invariant mean, link by link ----

  /** `d` is a directory that lists `k` under the name `n`. */
  ghost predicate Lists(s: Store, d: Entry, n: Name, k: Entry)
  {
    d in s && s[d].isDir && k in s[d].kids && k in s && s[k].name == n
  }

  /** Walking passes through a chain of directories, each listing the next entry under the next name. */
  lemma {:induction false} WalkChain(s: Store, d: Entry, p: seq<Name>) returns (es: seq<Entry>)
    requires Walk(s, d, p).Some?
    ensures |es| == |p| + 1 && es[0] == d && Walk(s, d, p) == Some(es[|p|])
    ensures forall i :: 0 <= i < |p| ==> Lists(s, es[i], p[i], es[i + 1])
    decreases |p|
  {
    if p == [] {
      es := [d];
    } else {
      var k := Child(s, d, p[0]).value;
      assert IsChild(s, d, p[0], k);
      var rest := WalkChain(s, k, p[1..]);
      es := [d] + rest;
    }
  }

  /** And there is no other way: where such a chain ends, walking ends. */
  lemma {:induction false} ChainWalks(s: Store, root: Entry, es: seq<Entry>, p: seq<Name>)
    requires LinksOk(s, root) && |es| == |p| + 1
    requires forall i :: 0 <= i < |p| ==> Lists(s, es[i], p[i], es[i + 1])
    ensures Walk(s, es[0], p) == Some(es[|p|])
    decreases |p|
  {
    if p != [] {
      assert Lists(s, es[0], p[0], es[1]);
      ChildByName(s, root, es[0], es[1]);
      ChainWalks(s, root, es[1..], p[1..]);
    }
  }

  /** The entry `n` parents above `e`. */
  function Ancestor(s: Store, e: Entry, n: nat): Option<Entry>
  {
    if n == 0 then Some(e)
    else if e !in s || s[e].parent == null then None
    else Ancestor(s, s[e].parent, n - 1)
  }

  lemma {:induction false} AncestorOnPath(s: Store, root: Entry, e: Entry, p: seq<Name>, n: nat)
    requires LinksOk(s, root) && Walk(s, root, p) == Some(e)
    ensures if n <= |p| then Ancestor(s, e, n) == Walk(s, root, p[..|p| - n]) else Ancestor(s, e, n) == None
  {
    if n == 0 {
      assert p[..|p|] == p;
    } else if p == [] {
      assert EntryOk(s, root, root);
    } else {
      WalkLast(s, root, root, p);
      var q := p[..|p| - 1];
      AncestorOnPath(s, root, s[e].parent, q, n - 1);
      assert n <= |p| ==> q[..|q| - (n - 1)] == p[..|p| - n];
    }
  }

  /** Going from parent to parent leads to the root and never around in a circle. */
  lemma ParentsLeadToRoot(s: Store, root: Entry, e: Entry)
    requires Inv(s, root) && e in s
    ensures exists n: nat :: Ancestor(s, e, n) == Some(root)
    ensures forall n: nat :: n > 0 ==> Ancestor(s, e, n) != Some(e)
  {
    assert Reached(s, root, e);
    var p :| Walk(s, root, p) == Some(e);
    AncestorOnPath(s, root, e, p, |p|);
    assert Ancestor(s, e, |p|) == Some(root);
    forall n: nat | n > 0
      ensures Ancestor(s, e, n) != Some(e)
    {
      AncestorOnPath(s, root, e, p, n);
      if n <= |p| && Ancestor(s, e, n) == Some(e) {
        PathUnique(s, root, p, p[..|p| - n]);
      }
    }
  }
}
