/** Reading a directory entry by entry. */
module DirCursors {
  import opened Names
  import opened FsStore
  import opened RamFsVector

  /** `ramfs_dh_t`. */
  class Cursor {
    const dir: Entry
    var loc: nat

    constructor (dir: Entry)
      ensures this.dir == dir && loc == 0
    {
      this.dir, loc := dir, 0;
    }

    /** The cursor is within the directory or just behind its last child. */
    predicate Inside()
      reads this, dir
    {
      loc <= |dir.children|
    }

    /** `ramfs_readdir`. */
    method Read() returns (e: Entry?)
      modifies this
      ensures e == if old(loc) < |dir.children| then dir.children[old(loc)] else null
      ensures loc == if old(loc) < |dir.children| then old(loc) + 1 else old(loc)
      ensures old(Inside()) ==> Inside()
    {
      if loc < |dir.children| {
        loc := loc + 1;
        return dir.children[loc - 1];
      }
      e := null;
    }

    /** `ramfs_seekdir`. */
    method Seek(to: nat)
      modifies this
      ensures Inside() && (to <= |dir.children| ==> loc == to)
      ensures to > |dir.children| ==> loc == |dir.children|
    {
      if to < |dir.children| {
        loc := to;
      } else {
        loc := |dir.children|;
      }
    }

    /** `ramfs_telldir`. */
    method Tell() returns (at: nat)
      ensures at == loc
    {
      at := loc;
    }

    /** Read until there is nothing more: what follows the cursor, each entry once, in order. */
    method ReadRest() returns (rest: seq<Entry>)
      requires Inside()
      modifies this
      ensures rest == dir.children[old(loc)..] && loc == |dir.children|
    {
      rest := [];
      var e := Read();
      while e != null
        invariant Inside() && old(loc) <= loc
        invariant e != null ==> old(loc) < loc && e == dir.children[loc - 1]
        invariant e == null ==> loc == |dir.children|
        invariant rest == dir.children[old(loc)..if e == null then loc else loc - 1]
        decreases |dir.children| - loc, e != null
      {
        rest := rest + [e];
        e := Read();
      }
    }
  }

  /** `ramfs_opendir`. */
  method Opendir(entry: Entry) returns (c: Cursor?)
    ensures c == null <==> !entry.isDir
    ensures c != null ==> fresh(c) && c.dir == entry && c.loc == 0
  {
    if !entry.isDir {
      return null;
    }
    c := new Cursor(entry);
  }

  /** Listing a directory gives every child once, by strictly increasing name. */
  method List(fs: RamFs, dir: Entry) returns (listed: seq<Entry>)
    requires fs.Valid() && dir in fs.store && dir.isDir
    ensures listed == dir.children
    ensures forall i, j :: 0 <= i < j < |listed| ==> Precedes(listed[i].name, listed[j].name)
  {
    assert EntryOk(fs.store, fs.root, dir);
    ghost var names := NamesOf(fs.store, fs.store[dir].kids);
    var c := Opendir(dir);
    listed := c.ReadRest();
    forall i, j | 0 <= i < j < |listed|
      ensures Precedes(listed[i].name, listed[j].name)
    {
      assert listed[i] in fs.store && listed[j] in fs.store;
      assert Less(names[i], names[j]);
      PrecedesIsLess(names[i], names[j]);
    }
  }

  /** Going back to where the cursor once was resumes exactly what followed then. */
  method Resume(c: Cursor) returns (first: seq<Entry>, again: seq<Entry>)
    requires c.Inside()
    modifies c
    ensures first == c.dir.children[old(c.loc)..] && again == first
  {
    var at := c.Tell();
    first := c.ReadRest();
    var extra := c.Read();
    assert extra == null;
    c.Seek(at);
    again := c.ReadRest();
  }
}
