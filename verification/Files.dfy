/** File contents through handles: writing with holes, reading, seeking and truncating. */
module Files {
  import opened FsStore

  /** The open flags that the code looks at. */
  datatype Flags = Flags(wronly: bool, rdwr: bool, trunc: bool, append: bool)

  datatype Whence = Set | Cur | End | Other

  type Bytes = seq<Byte>

  function Zeros(n: nat): (z: Bytes)
    ensures |z| == n && forall k :: 0 <= k < n ==> z[k] == 0
  {
    seq(n, _ => 0)
  }

  /** Cut off, or filled up with zeros. */
  function Resized(b: Bytes, n: nat): (r: Bytes)
    ensures |r| == n
    ensures forall k :: 0 <= k < n ==> r[k] == if k < |b| then b[k] else 0
  {
    if n <= |b| then b[..n] else b + Zeros(n - |b|)
  }

  /** `buf` laid over the bytes at `pos`; a gap before it reads as zeros. */
  function Overwritten(b: Bytes, pos: nat, buf: Bytes): (r: Bytes)
    ensures |r| == if pos + |buf| > |b| then pos + |buf| else |b|
    ensures forall k :: 0 <= k < |r| ==>
              r[k] == if pos <= k < pos + |buf| then buf[k - pos] else if k < |b| then b[k] else 0
  {
    var end := pos + |buf|;
    var padded := if end > |b| then Resized(b, end) else b;
    padded[..pos] + buf + padded[end..]
  }

  /** What a read of `len` bytes at `pos` gives: as many as there are, from `pos` on. */
  function Slice(b: Bytes, pos: nat, len: nat): (r: Bytes)
    ensures |r| == if pos + len <= |b| then len else if pos < |b| then |b| - pos else 0
    ensures forall i :: 0 <= i < |r| ==> r[i] == b[pos + i]
  {
    if pos >= |b| then [] else if len > |b| - pos then b[pos..] else b[pos..pos + len]
  }

  /** Where a seek goes: the place that lies `offset` after the origin, or the start of the file if that
      place would be before it. */
  function SeekTo(b: Bytes, pos: nat, offset: int, whence: Whence): (r: nat)
    ensures whence.Set? ==> r == offset || (offset < 0 && r == 0)
    ensures whence.Cur? ==> r - pos == offset || (pos + offset < 0 && r == 0)
    ensures whence.End? ==> r - |b| == offset || (|b| + offset < 0 && r == 0)
    ensures whence.Other? ==> r == pos
  {
    var p := match whence
      case Set => offset
      case Cur => pos + offset
      case End => |b| + offset
      case Other => pos;
    if p < 0 then 0 else p
  }

  /** `realloc`: what the buffer held is kept as far as it fits; anything new is arbitrary. */
  method Realloc(data: Bytes, n: nat) returns (p: Bytes)
    ensures |p| == n
    ensures forall k :: 0 <= k < n && k < |data| ==> p[k] == data[k]
  {
    if n <= |data| {
      p := data[..n];
    } else {
      var more := new Byte[n - |data|];
      p := data + more[..];
    }
  }

  /** The buffer of a file is as long as its size. */
  predicate FileOk(f: Entry)
    reads f
  {
    !f.isDir && |f.data| == f.size
  }

  /** `ramfs_truncate`. At size 0 `realloc` frees the buffer and may return NULL (`nullAtZero`), which the
      code takes for a failure: then the size stays, and only an empty file still has its buffer. */
  method Truncate(entry: Entry, size: nat, nullAtZero: bool) returns (r: int)
    requires entry.isDir || FileOk(entry)
    modifies entry`data, entry`size
    ensures r == if entry.isDir || (size == 0 && nullAtZero) then -1 else 0
    ensures entry.isDir ==> unchanged(entry)
    ensures r == 0 ==> FileOk(entry) && entry.data == Resized(old(entry.data), size)
    ensures !entry.isDir && r != 0 ==> entry.data == [] && entry.size == old(entry.size)
    ensures !entry.isDir ==> (FileOk(entry) <==> r == 0 || old(entry.size) == 0)
  {
    if entry.isDir {
      return -1;
    }
    var data := Realloc(entry.data, size);
    if size == 0 && nullAtZero {
      entry.data := data;
      return -1;
    }
    if size > entry.size {
      data := data[..entry.size] + Zeros(size - entry.size);
    }
    entry.data := data;
    entry.size := size;
    r := 0;
  }

  /** `ramfs_fh_t`. */
  class Handle {
    const file: Entry
    const flags: Flags
    var pos: nat

    /** `ramfs_open` on a file; see `Open` for the check of the type. */
    constructor (file: Entry, flags: Flags)
      requires FileOk(file)
      modifies file`data, file`size
      ensures this.file == file && this.flags == flags && FileOk(file)
      ensures file.data == if flags.trunc then [] else old(file.data)
      ensures pos == if flags.append then |file.data| else 0
    {
      this.file, this.flags := file, flags;
      pos := 0;
      new;
      if flags.trunc {
        file.data := [];
        file.size := 0;
      }
      if flags.append {
        pos := file.size;
      }
    }

    /** `ramfs_read`. */
    method Read(len: nat) returns (out: Bytes)
      requires FileOk(file)
      modifies this
      ensures |out| == if old(pos) + len <= |file.data| then len
                       else if old(pos) < |file.data| then |file.data| - old(pos) else 0
      ensures forall i :: 0 <= i < |out| ==> out[i] == file.data[old(pos) + i]
      ensures out == Slice(file.data, old(pos), len) && pos == old(pos) + |out|
    {
      if pos >= file.size {
        return [];
      }
      var n := len;
      if n > file.size - pos {
        n := file.size - pos;
      }
      out := file.data[pos..pos + n];
      pos := pos + n;
    }

    /** `ramfs_write`. */
    method Write(buf: Bytes) returns (r: int)
      requires FileOk(file)
      modifies this, file`data, file`size
      ensures FileOk(file)
      ensures r == if flags.wronly || flags.rdwr then |buf| else -1
      ensures r < 0 ==> file.data == old(file.data) && pos == old(pos)
      ensures r >= 0 ==> file.data == Overwritten(old(file.data), old(pos), buf) && pos == old(pos) + |buf|
    {
      if !(flags.wronly || flags.rdwr) {
        return -1;
      }
      var len := |buf|;
      if pos + len > file.size {
        var p := Realloc(file.data, pos + len);
        if pos > file.size {
          p := p[..file.size] + Zeros(pos - file.size) + p[pos..];
        }
        file.data := p;
        file.size := pos + len;
      }
      file.data := file.data[..pos] + buf + file.data[pos + len..];
      pos := pos + len;
      r := len;
    }

    /** `ramfs_seek`. */
    method Seek(offset: int, whence: Whence) returns (r: int)
      requires FileOk(file)
      modifies this
      ensures whence.Set? ==> pos == offset || (offset < 0 && pos == 0)
      ensures whence.Cur? ==> pos - old(pos) == offset || (old(pos) + offset < 0 && pos == 0)
      ensures whence.End? ==> pos - |file.data| == offset || (|file.data| + offset < 0 && pos == 0)
      ensures whence.Other? ==> pos == old(pos)
      ensures pos == SeekTo(file.data, old(pos), offset, whence) && r == pos
    {
      var p: int := pos;
      match whence {
        case Cur => p := p + offset;
        case Set => p := offset;
        case End => p := file.size + offset;
        case Other =>
      }
      if p < 0 {
        p := 0;
      }
      pos := p;
      r := p;
    }
  }

  method Open(entry: Entry, flags: Flags) returns (h: Handle?)
    requires entry.isDir || FileOk(entry)
    modifies entry`data, entry`size
    ensures h == null <==> entry.isDir
    ensures entry.isDir ==> unchanged(entry)
    ensures h != null ==> fresh(h) && h.file == entry && h.flags == flags && FileOk(entry)
                          && entry.data == (if flags.trunc then [] else old(entry.data))
                          && h.pos == if flags.append then |entry.data| else 0
  {
    if entry.isDir {
      return null;
    }
    h := new Handle(entry, flags);
  }

  /** Going back `k` bytes from the end and reading them gives the last `k` bytes of the file. */
  method ReadTail(h: Handle, k: nat) returns (out: Bytes)
    requires FileOk(h.file) && k <= |h.file.data|
    modifies h
    ensures |out| == k && h.file.data == h.file.data[..|h.file.data| - k] + out
    ensures h.pos == |h.file.data|
  {
    var r := h.Seek(0 - k, End);
    out := h.Read(k);
    assert out == h.file.data[|h.file.data| - k..];
  }

  /** What was written is read back from where it was written, and the rest of the file is as before. */
  method WriteThenRead(h: Handle, buf: Bytes) returns (out: Bytes)
    requires FileOk(h.file) && (h.flags.wronly || h.flags.rdwr)
    modifies h, h.file`data, h.file`size
    ensures FileOk(h.file) && out == buf && h.pos == old(h.pos) + |buf|
    ensures forall k :: 0 <= k < |old(h.file.data)| && !(old(h.pos) <= k < h.pos) ==>
              k < |h.file.data| && h.file.data[k] == old(h.file.data)[k]
  {
    var n := h.Write(buf);
    var back := h.Seek(-|buf|, Cur);
    out := h.Read(|buf|);
  }

  // ---- Runs over several handles of one file ----

  datatype Op =
    | Open(flags: Flags)
    | Write(h: nat, buf: Bytes)
    | Read(h: nat, len: nat)
    | Seek(h: nat, offset: int, whence: Whence)
    | Truncate(size: nat, nullAtZero: bool)

  /** The bytes of the file and, for every handle, its flags and position. */
  datatype View = View(bytes: Bytes, handles: seq<(Flags, nat)>)

  /** The handle exists, and a failing truncation leaves the file its buffer. */
  predicate Allowed(v: View, op: Op)
  {
    match op
    case Open(_) => true
    case Truncate(size, nullAtZero) => size > 0 || !nullAtZero || v.bytes == []
    case _ => op.h < |v.handles|
  }

  predicate Writes(v: View, op: Op)
  {
    op.Write? && op.h < |v.handles| && (v.handles[op.h].0.wronly || v.handles[op.h].0.rdwr)
  }

  function NextView(v: View, op: Op): View
    requires Allowed(v, op)
  {
    match op
    case Open(flags) =>
      var b := if flags.trunc then [] else v.bytes;
      View(b, v.handles + [(flags, if flags.append then |b| else 0)])
    case Write(h, buf) =>
      if !Writes(v, op) then v else
      var (flags, pos) := v.handles[h];
      View(Overwritten(v.bytes, pos, buf), v.handles[h := (flags, pos + |buf|)])
    case Read(h, len) =>
      var (flags, pos) := v.handles[h];
      v.(handles := v.handles[h := (flags, pos + |Slice(v.bytes, pos, len)|)])
    case Seek(h, offset, whence) =>
      var (flags, pos) := v.handles[h];
      v.(handles := v.handles[h := (flags, SeekTo(v.bytes, pos, offset, whence))])
    case Truncate(size, _) => v.(bytes := Resized(v.bytes, size))
  }

  /** What an operation returns: a handle, the bytes read, or a number. */
  datatype Result = Opened | Got(bytes: Bytes) | Number(r: int)

  function Returned(v: View, op: Op): Result
    requires Allowed(v, op)
  {
    match op
    case Open(_) => Opened
    case Write(_, buf) => Number(if Writes(v, op) then |buf| else -1)
    case Read(h, len) => Got(Slice(v.bytes, v.handles[h].1, len))
    case Seek(h, offset, whence) => Number(SeekTo(v.bytes, v.handles[h].1, offset, whence))
    case Truncate(size, nullAtZero) => Number(if size == 0 && nullAtZero then -1 else 0)
  }

  /** Every operation of a run is allowed when it comes. */
  ghost predicate Runs(ops: seq<Op>)
    decreases |ops|, 0
  {
    ops == [] || (Runs(ops[..|ops| - 1]) && Allowed(ViewAfter(ops[..|ops| - 1]), ops[|ops| - 1]))
  }

  /** The view after a run on a new file. */
  ghost function ViewAfter(ops: seq<Op>): View
    requires Runs(ops)
    decreases |ops|, 1
  {
    if ops == [] then View([], []) else NextView(ViewAfter(ops[..|ops| - 1]), ops[|ops| - 1])
  }

  /** What the operations of a run return, one after the other. */
  ghost function AllReturned(ops: seq<Op>): (r: seq<Result>)
    requires Runs(ops)
    ensures |r| == |ops|
    decreases |ops|
  {
    if ops == [] then [] else
    var before := ops[..|ops| - 1];
    AllReturned(before) + [Returned(ViewAfter(before), ops[|before|])]
  }

  /** The operation puts a byte at place `k`. */
  predicate Touches(v: View, op: Op, k: nat)
  {
    Writes(v, op) && v.handles[op.h].1 <= k < v.handles[op.h].1 + |op.buf|
  }

  /** What the history of the file says about place `k`: the byte put there last, unless the file
      has not reached that far since. */
  ghost function LastWritten(ops: seq<Op>, k: nat): Byte
    requires Runs(ops)
    decreases |ops|
  {
    if ops == [] then 0 else
    var before, op := ops[..|ops| - 1], ops[|ops| - 1];
    if Touches(ViewAfter(before), op, k) then op.buf[k - ViewAfter(before).handles[op.h].1]
    else if |ViewAfter(ops).bytes| <= k then 0
    else LastWritten(before, k)
  }

  /** A file holds, place by place, what was written there last. */
  lemma {:induction false} LastWriteWins(ops: seq<Op>, k: nat)
    requires Runs(ops)
    ensures LastWritten(ops, k) == if k < |ViewAfter(ops).bytes| then ViewAfter(ops).bytes[k] else 0
    decreases |ops|
  {
    if ops != [] {
      LastWriteWins(ops[..|ops| - 1], k);
    }
  }

  /** What operation `n` of a run returns. */
  lemma {:induction false} ReturnedAt(ops: seq<Op>, n: nat)
    requires Runs(ops) && n < |ops|
    ensures Runs(ops[..n]) && Allowed(ViewAfter(ops[..n]), ops[n])
    ensures AllReturned(ops)[n] == Returned(ViewAfter(ops[..n]), ops[n])
    decreases |ops|
  {
    var before := ops[..|ops| - 1];
    if n < |before| {
      ReturnedAt(before, n);
      assert before[..n] == ops[..n];
    }
  }

  /** A read in a run returns, byte by byte, what was last written there before it. */
  lemma ReadsLastWritten(ops: seq<Op>, n: nat, i: nat)
    requires Runs(ops) && n < |ops| && ops[n].Read?
    ensures Runs(ops[..n]) && ops[n].h < |ViewAfter(ops[..n]).handles| && AllReturned(ops)[n].Got?
    ensures i < |AllReturned(ops)[n].bytes| ==>
              AllReturned(ops)[n].bytes[i] == LastWritten(ops[..n], ViewAfter(ops[..n]).handles[ops[n].h].1 + i)
  {
    ReturnedAt(ops, n);
    LastWriteWins(ops[..n], ViewAfter(ops[..n]).handles[ops[n].h].1 + i);
  }

  lemma {:induction false} RunsPrefix(ops: seq<Op>, n: nat)
    requires Runs(ops) && n <= |ops|
    ensures Runs(ops[..n])
    decreases |ops|
  {
    if n == |ops| {
      assert ops[..n] == ops;
    } else {
      RunsPrefix(ops[..|ops| - 1], n);
      assert ops[..|ops| - 1][..n] == ops[..n];
    }
  }

  /** A place that was cut off reads as zero when the file grows over it again, until something is
      written there. */
  lemma {:induction false} CutOffStaysGone(ops: seq<Op>, n: nat, k: nat)
    requires Runs(ops) && n <= |ops| && Runs(ops[..n]) && |ViewAfter(ops[..n]).bytes| <= k
    requires forall i :: n <= i < |ops| ==> Runs(ops[..i]) && !Touches(ViewAfter(ops[..i]), ops[i], k)
    ensures k < |ViewAfter(ops).bytes| ==> ViewAfter(ops).bytes[k] == 0
    decreases |ops|
  {
    if n == |ops| {
      assert ops[..n] == ops;
    } else {
      var before := ops[..|ops| - 1];
      forall i | 0 <= i <= |before|
        ensures before[..i] == ops[..i]
      {
      }
      CutOffStaysGone(before, n, k);
    }
  }

  /** The handles of a run on the file `f` are as the view says, and the buffer is the view's. */
  ghost predicate Mirrors(f: Entry, handles: seq<Handle>, v: View)
    reads f, handles
  {
    && FileOk(f) && f.data == v.bytes && |handles| == |v.handles|
    && (forall i, j :: 0 <= i < j < |handles| ==> handles[i] != handles[j])
    && forall i :: 0 <= i < |handles| ==>
         handles[i].file == f && handles[i].flags == v.handles[i].0 && handles[i].pos == v.handles[i].1
  }

  method Step(f: Entry, handles: seq<Handle>, op: Op, ghost v: View) returns (handles': seq<Handle>, out: Result)
    requires Mirrors(f, handles, v) && Allowed(v, op)
    modifies f`data, f`size, handles
    ensures Mirrors(f, handles', NextView(v, op)) && handles <= handles'
    ensures forall i :: |handles| <= i < |handles'| ==> fresh(handles'[i])
    ensures out == Returned(v, op)
  {
    handles' := handles;
    match op {
      case Open(flags) =>
        var h := new Handle(f, flags);
        handles', out := handles + [h], Opened;
      case Write(h, buf) =>
        var r := handles[h].Write(buf);
        out := Number(r);
      case Read(h, len) =>
        var bytes := handles[h].Read(len);
        out := Got(bytes);
      case Seek(h, offset, whence) =>
        var r := handles[h].Seek(offset, whence);
        out := Number(r);
      case Truncate(size, nullAtZero) =>
        var r := Truncate(f, size, nullAtZero);
        out := Number(r);
    }
  }

  /** Any interleaving of operations through any number of handles does to the buffer what `NextView`
      does to the bytes. */
  method Interleave(f: Entry, ops: seq<Op>) returns (outs: seq<Result>)
    requires FileOk(f) && f.data == [] && Runs(ops)
    modifies f`data, f`size
    ensures FileOk(f) && f.data == ViewAfter(ops).bytes
    ensures forall k :: 0 <= k < |f.data| ==> f.data[k] == LastWritten(ops, k)
    ensures outs == AllReturned(ops)
  {
    outs := [];
    var handles: seq<Handle> := [];
    var n := 0;
    RunsPrefix(ops, 0);
    while n < |ops|
      invariant n <= |ops| && Runs(ops[..n]) && Mirrors(f, handles, ViewAfter(ops[..n]))
      invariant forall i :: 0 <= i < |handles| ==> fresh(handles[i])
      invariant outs == AllReturned(ops[..n])
    {
      RunsPrefix(ops, n + 1);
      assert ops[..n + 1][..n] == ops[..n];
      var out;
      handles, out := Step(f, handles, ops[n], ViewAfter(ops[..n]));
      outs := outs + [out];
      n := n + 1;
    }
    assert ops[..n] == ops;
    forall k | 0 <= k < |f.data|
      ensures f.data[k] == LastWritten(ops, k)
    {
      LastWriteWins(ops, k);
    }
  }
}
