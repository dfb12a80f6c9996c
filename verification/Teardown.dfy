/** `ramfs_rmtree` and `ramfs_deinit`: every entry below is freed once, and none is looked at after it
    was freed. */
module Teardown {
  import opened Names
  import opened FsStore
  import opened FsChanges
  import opened RamFsVector

  /** `e` is `d` or something below it. */
  ghost predicate Under(s: Store, d: Entry, e: Entry)
  {
    exists p :: Walk(s, d, p) == Some(e)
  }

  ghost function Subtree(s: Store, d: Entry): set<Entry>
  {
    set e | e in s && Under(s, d, e)
  }

  /** The subtrees of the first `n` children. */
  ghost function Below(s: Store, d: Entry, n: nat): set<Entry>
    requires d in s && n <= |s[d].kids|
  {
    set e | e in s && exists i :: 0 <= i < n && Under(s, s[d].kids[i], e)
  }

  lemma UnderSelf(s: Store, d: Entry)
    ensures Under(s, d, d)
  {
    assert Walk(s, d, []) == Some(d);
  }

  /** Everything under a directory is the directory itself or under one of its children. */
  lemma SubtreeParts(s: Store, root: Entry, d: Entry)
    requires Inv(s, root) && d in s && s[d].isDir
    ensures Subtree(s, d) == {d} + Below(s, d, |s[d].kids|)
  {
    UnderSelf(s, d);
    assert EntryOk(s, root, d);
    forall e | e in Subtree(s, d) && e != d
      ensures e in Below(s, d, |s[d].kids|)
    {
      var p :| Walk(s, d, p) == Some(e);
      var k := Child(s, d, p[0]).value;
      var i :| 0 <= i < |s[d].kids| && s[d].kids[i] == k;
      assert Walk(s, k, p[1..]) == Some(e);
      assert Under(s, s[d].kids[i], e);
    }
    forall e | e in Below(s, d, |s[d].kids|)
      ensures e in Subtree(s, d)
    {
      var i :| 0 <= i < |s[d].kids| && Under(s, s[d].kids[i], e);
      var p :| Walk(s, s[d].kids[i], p) == Some(e);
      ChildByName(s, root, d, s[d].kids[i]);
      var q := [s[s[d].kids[i]].name] + p;
      assert q[1..] == p;
      assert Walk(s, d, q) == Some(e);
    }
  }

  /** What is under an entry has a path that extends the entry's own. */
  lemma UnderPath(s: Store, root: Entry, d: Entry, e: Entry, dp: seq<Name>) returns (q: seq<Name>)
    requires Walk(s, root, dp) == Some(d) && Under(s, d, e)
    ensures Walk(s, root, dp + q) == Some(e) && Walk(s, d, q) == Some(e)
  {
    q :| Walk(s, d, q) == Some(e);
    WalkAppend(s, root, dp, q);
  }

  /** The children's subtrees share nothing, and the directory is in none of them. */
  lemma SubtreesApart(s: Store, root: Entry, d: Entry, i: nat, j: nat, e: Entry)
    requires Inv(s, root) && d in s && s[d].isDir && i < |s[d].kids| && j < |s[d].kids|
    requires Under(s, s[d].kids[i], e)
    ensures e != d
    ensures Under(s, s[d].kids[j], e) ==> i == j
  {
    assert EntryOk(s, root, d) && Reached(s, root, d);
    var dp :| Walk(s, root, dp) == Some(d);
    var a := s[d].kids[i];
    var ap := dp + [s[a].name];
    KidPath(s, root, d, i, dp);
    var q := UnderPath(s, root, a, e, ap);
    if e == d {
      PathUnique(s, root, ap + q, dp);
    }
    if Under(s, s[d].kids[j], e) {
      var b := s[d].kids[j];
      var bp := dp + [s[b].name];
      KidPath(s, root, d, j, dp);
      var r := UnderPath(s, root, b, e, bp);
      PathUnique(s, root, ap + q, bp + r);
      assert (ap + q)[|dp|] == s[a].name && (bp + r)[|dp|] == s[b].name;
      SortedNoDuplicates(NamesOf(s, s[d].kids), i, j);
    }
  }

  lemma KidPath(s: Store, root: Entry, d: Entry, i: nat, dp: seq<Name>)
    requires LinksOk(s, root) && d in s && s[d].isDir && i < |s[d].kids| && Walk(s, root, dp) == Some(d)
    ensures s[d].kids[i] in s && Walk(s, root, dp + [s[s[d].kids[i]].name]) == Some(s[d].kids[i])
  {
    assert EntryOk(s, root, d);
    var k := s[d].kids[i];
    ChildByName(s, root, d, k);
    WalkAppend(s, root, dp, [s[k].name]);
    WalkOne(s, d, s[k].name);
  }

  lemma FileSubtree(s: Store, root: Entry, f: Entry)
    requires LinksOk(s, root) && f in s && !s[f].isDir
    ensures Subtree(s, f) == {f}
  {
    UnderSelf(s, f);
    forall e | e in Subtree(s, f)
      ensures e == f
    {
      var p :| Walk(s, f, p) == Some(e);
    }
  }

  lemma BelowNext(s: Store, root: Entry, d: Entry, i: nat)
    requires Inv(s, root) && d in s && s[d].isDir && i < |s[d].kids|
    ensures Below(s, d, i + 1) == Below(s, d, i) + Subtree(s, s[d].kids[i])
    ensures Below(s, d, i) !! Subtree(s, s[d].kids[i])
    ensures d !in Below(s, d, i + 1)
    ensures Subtree(s, s[d].kids[i]) < Subtree(s, d)
  {
    forall e | e in Below(s, d, i)
      ensures e !in Subtree(s, s[d].kids[i]) && e in Below(s, d, i + 1)
    {
      var j :| 0 <= j < i && Under(s, s[d].kids[j], e);
      SubtreesApart(s, root, d, j, i, e);
    }
    forall e | e in Subtree(s, s[d].kids[i])
      ensures e in Below(s, d, i + 1) && e != d && e in Below(s, d, |s[d].kids|)
    {
      SubtreesApart(s, root, d, i, i, e);
    }
    forall e | e in Below(s, d, i + 1)
      ensures e != d && (e in Below(s, d, i) || e in Subtree(s, s[d].kids[i]))
    {
      var j :| 0 <= j < i + 1 && Under(s, s[d].kids[j], e);
      SubtreesApart(s, root, d, j, j, e);
      if j < i {
        assert e in Below(s, d, i);
      }
    }
    SubtreeParts(s, root, d);
  }

  /** The root is under nothing but itself. */
  lemma RootOnTop(s: Store, root: Entry, d: Entry)
    requires Inv(s, root) && d in s && d != root
    ensures root !in Subtree(s, d)
  {
    assert Reached(s, root, d);
    var dp :| Walk(s, root, dp) == Some(d);
    if Under(s, d, root) {
      var q := UnderPath(s, root, d, root, dp);
      PathUnique(s, root, dp + q, []);
    }
  }

  lemma KidApart(s: Store, root: Entry, d: Entry, i: nat)
    requires Inv(s, root) && d in s && s[d].isDir && i < |s[d].kids|
    ensures var kid := Subtree(s, s[d].kids[i]);
            && Below(s, d, i) !! {d} + kid && {d} + kid <= Subtree(s, d)
            && Below(s, d, i) + kid == Below(s, d, i + 1)
  {
    BelowNext(s, root, d, i);
    UnderSelf(s, d);
  }

  lemma KidSmaller(s: Store, root: Entry, d: Entry, i: nat)
    requires Inv(s, root) && d in s && s[d].isDir && i < |s[d].kids|
    ensures s[d].kids[i] in s && s[d].kids[i] != root && Subtree(s, s[d].kids[i]) < Subtree(s, d)
    ensures d !in Subtree(s, s[d].kids[i])
  {
    assert EntryOk(s, root, d);
    assert EntryOk(s, root, s[d].kids[i]);
    BelowNext(s, root, d, i);
  }

  lemma EntryNotBelow(s: Store, root: Entry, d: Entry)
    requires Inv(s, root) && d in s && s[d].isDir
    ensures d !in Below(s, d, |s[d].kids|)
  {
    if s[d].kids != [] {
      BelowNext(s, root, d, |s[d].kids| - 1);
    }
  }

  // ---- What happens to the memory ----

  /** A field of `e` is read, or `e` is freed. */
  datatype Event = Read(e: Entry) | Freed(e: Entry)

  type Trace = seq<Event>

  /** What was freed is neither read nor freed afterwards. */
  ghost predicate Safe(t: Trace)
  {
    forall i, j :: 0 <= i < j < |t| && t[i].Freed? ==> t[j].e != t[i].e
  }

  function Frees(t: Trace): seq<Entry>
  {
    if t == [] then [] else
    var before, last := Frees(t[..|t| - 1]), t[|t| - 1];
    if last.Freed? then before + [last.e] else before
  }

  /** `t` is safe, frees exactly the entries of `gone`, each once, and touches only those of `seen`. */
  ghost predicate Span(t: Trace, gone: set<Entry>, seen: set<Entry>)
  {
    && Safe(t) && multiset(Frees(t)) == multiset(gone)
    && forall i :: 0 <= i < |t| ==> t[i].e in seen
  }

  /** Between two moments the trace grew by such a piece. */
  ghost predicate Grew(before: Trace, after: Trace, gone: set<Entry>, seen: set<Entry>)
  {
    before <= after && Span(after[|before|..], gone, seen)
  }

  lemma {:induction false} FreesConcat(t: Trace, u: Trace)
    ensures Frees(t + u) == Frees(t) + Frees(u)
    decreases |u|
  {
    if u == [] {
      assert t + u == t;
    } else {
      var n := |u| - 1;
      FreesConcat(t, u[..n]);
      assert (t + u)[..|t + u| - 1] == t + u[..n];
    }
  }

  lemma {:induction false} FreedCounted(t: Trace, i: nat)
    requires i < |t| && t[i].Freed?
    ensures t[i].e in Frees(t)
    decreases |t|
  {
    if i < |t| - 1 {
      FreedCounted(t[..|t| - 1], i);
    }
  }

  lemma SpansJoin(t: Trace, u: Trace, gone: set<Entry>, seen: set<Entry>, more: set<Entry>, further: set<Entry>)
    requires Span(t, gone, seen) && Span(u, more, further) && gone !! further && gone !! more
    ensures Span(t + u, gone + more, seen + further)
  {
    FreesConcat(t, u);
    var tu := t + u;
    forall i, j | 0 <= i < j < |tu| && tu[i].Freed?
      ensures tu[j].e != tu[i].e
    {
      if i < |t| <= j {
        FreedCounted(t, i);
        assert t[i].e in multiset(Frees(t));
        assert tu[j] == u[j - |t|];
      }
    }
  }

  /** A piece of trace after another that freed nothing of what it touches. */
  lemma GrewOn(a: Trace, b: Trace, c: Trace, gone: set<Entry>, more: set<Entry>, further: set<Entry>, seen: set<Entry>)
    requires Grew(a, b, gone, seen) && Grew(b, c, more, further) && gone !! further && more <= further <= seen
    ensures Grew(a, c, gone + more, seen)
  {
    SpansJoin(b[|a|..], c[|b|..], gone, seen, more, further);
    assert c[|a|..] == b[|a|..] + c[|b|..] && seen + further == seen;
  }

  lemma GrewReading(a: Trace, b: Trace, c: Trace, gone: set<Entry>, e: Entry, seen: set<Entry>)
    requires Grew(a, b, gone, seen) && Grew(b, c, {}, {e}) && e !in gone && e in seen
    ensures Grew(a, c, gone, seen)
  {
    GrewOn(a, b, c, gone, {}, {e}, seen);
    assert gone + {} == gone;
  }

  lemma GrewByOne(a: Trace, x: Event)
    ensures Grew(a, a + [x], if x.Freed? then {x.e} else {}, {x.e})
  {
    assert (a + [x])[|a|..] == [x] && [x][..0] == [];
    assert Frees([x]) == if x.Freed? then [x.e] else [];
  }

  lemma {:induction false} FreesAreFreed(t: Trace, e: Entry)
    ensures e in Frees(t) <==> Freed(e) in t
  {
    if t != [] {
      FreesAreFreed(t[..|t| - 1], e);
      assert t == t[..|t| - 1] + [t[|t| - 1]];
    }
  }

  /** What such a piece of trace is, event by event: each entry of `gone`, and no other, is freed, nothing is
      touched after it was freed, and so nothing is freed twice. */
  lemma SpanMeans(t: Trace, gone: set<Entry>, seen: set<Entry>)
    requires Span(t, gone, seen)
    ensures forall e :: Freed(e) in t <==> e in gone
    ensures forall i, j :: 0 <= i < j < |t| && t[i].Freed? ==> t[j].e != t[i].e
    ensures forall i :: 0 <= i < |t| ==> t[i].e in seen
  {
    forall e
      ensures Freed(e) in t <==> e in gone
    {
      FreesAreFreed(t, e);
      assert e in Frees(t) <==> e in multiset(Frees(t));
    }
  }

  /** The entries hold what the store says. */
  ghost predicate Holds(s: Store)
    reads s.Keys
  {
    && (forall e {:trigger e.parent} :: e in s ==> e.parent == s[e].parent)
    && (forall e {:trigger e.children} :: e in s ==> e.children == s[e].kids)
    && (forall e {:trigger e.isDir} :: e in s ==> e.isDir == s[e].isDir)
  }

  /** What the teardown does to the entries, recorded event by event. */
  class Memory {
    ghost var trace: Trace

    constructor ()
      ensures trace == []
    {
      trace := [];
    }

    method IsDir(e: Entry) returns (isDir: bool)
      modifies this
      ensures isDir == e.isDir && trace == old(trace) + [Read(e)] && Grew(old(trace), trace, {}, {e})
    {
      GrewByOne(trace, Read(e));
      isDir, trace := e.isDir, trace + [Read(e)];
    }

    method ChildrenLen(e: Entry) returns (n: nat)
      modifies this
      ensures n == |e.children| && Grew(old(trace), trace, {}, {e})
    {
      GrewByOne(trace, Read(e));
      n, trace := |e.children|, trace + [Read(e)];
    }

    method ChildAt(e: Entry, i: nat) returns (child: Entry)
      requires i < |e.children|
      modifies this
      ensures child == e.children[i] && Grew(old(trace), trace, {}, {e})
    {
      GrewByOne(trace, Read(e));
      child, trace := e.children[i], trace + [Read(e)];
    }

    method Parent(e: Entry) returns (parent: Entry?)
      modifies this
      ensures parent == e.parent && Grew(old(trace), trace, {}, {e})
    {
      GrewByOne(trace, Read(e));
      parent, trace := e.parent, trace + [Read(e)];
    }

    method Free(e: Entry)
      modifies this
      ensures trace == old(trace) + [Freed(e)] && Grew(old(trace), trace, {e}, {e})
    {
      GrewByOne(trace, Freed(e));
      trace := trace + [Freed(e)];
    }

    /** `ramfs_rmtree` on a directory, recorded by `t`. Everything at or below it is freed, but not the root
        itself, which has no parent; and nothing is touched after it was freed. */
    method Rmtree(entry: Entry, ghost s: Store, ghost root: Entry) returns (ghost t: Trace)
      requires Inv(s, root) && Holds(s) && entry in s && s[entry].isDir
      modifies this
      ensures trace == old(trace) + t
      ensures forall e :: Freed(e) in t <==> e in s && Under(s, entry, e) && e != root
      ensures forall i, j :: 0 <= i < j < |t| && t[i].Freed? ==> t[j].e != t[i].e
    {
      FreeTree(entry, s, root);
      t := trace[|old(trace)|..];
      SpanMeans(t, Subtree(s, entry) - {root}, Subtree(s, entry));
    }

    method FreeTree(entry: Entry, ghost s: Store, ghost root: Entry)
      requires Inv(s, root) && Holds(s) && entry in s && s[entry].isDir
      modifies this
      ensures Grew(old(trace), trace, Subtree(s, entry) - {root}, Subtree(s, entry))
      decreases Subtree(s, entry), 2
    {
      ghost var below, seen := Below(s, entry, |s[entry].kids|), Subtree(s, entry);
      SubtreeParts(s, root, entry);
      EntryNotBelow(s, root, entry);
      if entry != root {
        RootOnTop(s, root, entry);
      }
      assert EntryOk(s, root, entry);
      FreeChildren(entry, s, root);
      ghost var b := trace;
      var parent := Parent(entry);
      GrewReading(old(trace), b, trace, below, entry, seen);
      if parent != null {
        ghost var c := trace;
        Free(entry);
        GrewOn(old(trace), c, trace, below, {entry}, {entry}, seen);
        assert below + {entry} == seen - {root};
      } else {
        assert below == seen - {root};
      }
    }

    /** The loop of `ramfs_rmtree`. */
    method FreeChildren(entry: Entry, ghost s: Store, ghost root: Entry)
      requires Inv(s, root) && Holds(s) && entry in s && s[entry].isDir
      modifies this
      ensures Grew(old(trace), trace, Below(s, entry, |s[entry].kids|), Subtree(s, entry))
      decreases Subtree(s, entry), 1
    {
      SubtreeParts(s, root, entry);
      ghost var seen := Subtree(s, entry);
      var i := 0;
      var n := ChildrenLen(entry);
      GrewReading(old(trace), old(trace), trace, Below(s, entry, 0), entry, seen);
      while i < n
        invariant i <= n == |s[entry].kids|
        invariant Grew(old(trace), trace, Below(s, entry, i), seen)
        decreases n - i
      {
        ghost var b := trace;
        n := FreeNext(entry, i, s, root);
        KidApart(s, root, entry, i);
        ghost var kid := Subtree(s, s[entry].kids[i]);
        GrewOn(old(trace), b, trace, Below(s, entry, i), kid, {entry} + kid, seen);
        i := i + 1;
      }
    }

    /** One turn of that loop. */
    method FreeNext(entry: Entry, i: nat, ghost s: Store, ghost root: Entry) returns (n: nat)
      requires Inv(s, root) && Holds(s) && entry in s && s[entry].isDir && i < |s[entry].kids|
      modifies this
      ensures var kid := Subtree(s, s[entry].kids[i]); Grew(old(trace), trace, kid, {entry} + kid)
      ensures n == |s[entry].kids|
      decreases Subtree(s, entry), 0
    {
      KidSmaller(s, root, entry, i);
      var child := ChildAt(entry, i);
      ghost var b, kid := trace, Subtree(s, child);
      assert Grew(old(trace), b, {}, {entry} + kid);
      FreeChild(child, s, root);
      GrewOn(old(trace), b, trace, {}, kid, kid, {entry} + kid);
      assert {} + kid == kid;
      ghost var c := trace;
      n := ChildrenLen(entry);
      GrewReading(old(trace), c, trace, kid, entry, {entry} + kid);
    }

    /** What it does with the child. */
    method FreeChild(child: Entry, ghost s: Store, ghost root: Entry)
      requires Inv(s, root) && Holds(s) && child in s && child != root
      modifies this
      ensures Grew(old(trace), trace, Subtree(s, child), Subtree(s, child))
      decreases Subtree(s, child), 4
    {
      UnderSelf(s, child);
      RootOnTop(s, root, child);
      ghost var seen := Subtree(s, child);
      var isDir := IsDir(child);
      ghost var b := trace;
      assert Grew(old(trace), b, {}, seen);
      if isDir {
        FreeTree(child, s, root);
        assert seen - {root} == seen;
      } else {
        FileSubtree(s, root, child);
        Free(child);
      }
      GrewOn(old(trace), b, trace, {}, seen, seen, seen);
      assert {} + seen == seen;
    }
  }

  lemma WholeTree(s: Store, root: Entry)
    requires Inv(s, root)
    ensures forall e :: e in s ==> Under(s, root, e)
  {
    forall e | e in s
      ensures Under(s, root, e)
    {
      assert Reached(s, root, e);
    }
  }

  /** `ramfs_rmtree`. A file is unlinked, which leaves the file system sound, and freed. Of a directory every
      entry at or below it is freed, but never the root; and nothing is touched after it was freed. */
  method RemoveTree(fs: RamFs, entry: Entry) returns (memory: Memory)
    requires fs.Valid() && entry in fs.store
    modifies fs`store, fs.store.Keys`parent, fs.store.Keys`name, fs.store.Keys`children
    ensures !entry.isDir ==> memory.trace == [Read(entry), Freed(entry)]
    ensures !entry.isDir ==> fs.Valid() && exists d: Entry, i: nat ::
                Deletable(old(fs.store), fs.root, d, i) && old(fs.store)[d].kids[i] == entry
                && fs.store == Deleted(old(fs.store), d, i)
    ensures entry.isDir ==> forall e :: Freed(e) in memory.trace <==>
              e in old(fs.store) && Under(old(fs.store), entry, e) && e != fs.root
    ensures var t := memory.trace; forall i, j :: 0 <= i < j < |t| && t[i].Freed? ==> t[j].e != t[i].e
  {
    memory := new Memory();
    assert EntryOk(fs.store, fs.root, entry);
    var isDir := memory.IsDir(entry);
    if isDir {
      ghost var t := memory.Rmtree(entry, fs.store, fs.root);
      assert memory.trace == [Read(entry)] + t;
    } else {
      var r;
      ghost var d, i;
      r, d, i := fs.Unlink(entry);
      memory.Free(entry);
    }
  }

  /** `ramfs_deinit`: all entries but the root are freed, each exactly once, and nothing is touched after it
      was freed. */
  method Deinit(fs: RamFs) returns (memory: Memory)
    requires fs.Valid()
    ensures forall e :: Freed(e) in memory.trace <==> e in fs.store && e != fs.root
    ensures var t := memory.trace; forall i, j :: 0 <= i < j < |t| && t[i].Freed? ==> t[j].e != t[i].e
  {
    memory := new Memory();
    WholeTree(fs.store, fs.root);
    ghost var t := memory.Rmtree(fs.root, fs.store, fs.root);
    assert memory.trace == t;
  }
}
