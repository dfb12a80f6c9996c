/** Path texts and the names they are made of. */
module Paths {
  import opened Names
  import opened FsStore

  type Path = seq<PathByte>

  /** The number of bytes before the first slash. */
  function Segment(p: Path): (k: nat)
    ensures k <= |p| && SLASH !in p[..k]
    ensures k < |p| ==> p[k] == SLASH
  {
    if p == [] || p[0] == SLASH then 0 else 1 + Segment(p[1..])
  }

  /** The non-empty slash-separated components of a path. */
  function Comps(p: Path): seq<Name>
    decreases |p|
  {
    if p == [] then []
    else if p[0] == SLASH then Comps(p[1..])
    else [p[..Segment(p)]] + Comps(p[Segment(p)..])
  }

  /** Where the text after the last slash starts. */
  function BaseStart(p: Path): (i: nat)
    ensures i <= |p| && SLASH !in p[i..]
    ensures i > 0 ==> p[i - 1] == SLASH
  {
    if p == [] then 0
    else if p[|p| - 1] == SLASH then |p|
    else BaseStart(p[..|p| - 1])
  }

  /** The last component, empty if the path ends in a slash, and the components before it. */
  function Base(p: Path): Name
  {
    p[BaseStart(p)..]
  }

  function DirComps(p: Path): seq<Name>
  {
    Comps(p[..BaseStart(p)])
  }

  ghost predicate ValidNames(p: seq<Name>)
  {
    forall i :: 0 <= i < |p| ==> ValidName(p[i])
  }

  lemma NoSlash(p: Path, i: nat, j: nat)
    requires i <= j <= |p| && SLASH !in p[i..j]
    ensures forall m :: i <= m < j ==> p[m] != SLASH
  {
  }

  lemma BaseStartUnique(p: Path, i: nat)
    requires i <= |p| && SLASH !in p[i..] && (i > 0 ==> p[i - 1] == SLASH)
    ensures i == BaseStart(p)
  {
  }

  lemma SegmentUnique(p: Path, k: nat)
    requires k <= |p| && SLASH !in p[..k] && (k < |p| ==> p[k] == SLASH)
    ensures k == Segment(p)
  {
  }

  /** Components are not joined across a slash. */
  lemma {:induction false} CompsConcat(a: Path, b: Path)
    requires a == [] || a[|a| - 1] == SLASH
    ensures Comps(a + b) == Comps(a) + Comps(b)
    decreases |a|
  {
    if a == [] {
      assert a + b == b;
    } else if a[0] == SLASH {
      assert (a + b)[1..] == a[1..] + b;
      CompsConcat(a[1..], b);
    } else {
      var k := Segment(a);
      assert a[..k] == (a + b)[..k];
      NoSlash(a, 0, k);
      SegmentUnique(a + b, k);
      assert (a + b)[k..] == a[k..] + b;
      CompsConcat(a[k..], b);
    }
  }

  lemma CompsOfName(n: Name)
    requires SLASH !in n
    ensures Comps(n) == if n == [] then [] else [n]
  {
    if n != [] {
      SegmentUnique(n, |n|);
      assert n[..|n|] == n && n[|n|..] == [];
    }
  }

  /** The components are those of the directory part and then the last name, if there is one. */
  lemma CompsSplit(p: Path)
    ensures Comps(p) == DirComps(p) + if Base(p) == [] then [] else [Base(p)]
    ensures SLASH !in Base(p)
  {
    assert p == p[..BaseStart(p)] + p[BaseStart(p)..];
    CompsConcat(p[..BaseStart(p)], p[BaseStart(p)..]);
    CompsOfName(Base(p));
  }

  lemma {:induction false} CompsValid(p: Path)
    ensures ValidNames(Comps(p))
    decreases |p|
  {
    if p != [] && p[0] == SLASH {
      CompsValid(p[1..]);
    } else if p != [] {
      CompsValid(p[Segment(p)..]);
    }
  }

  /** Extra slashes, at the front or next to another slash, change nothing. */
  lemma SlashesIgnored(a: Path, b: Path)
    ensures Comps([SLASH] + b) == Comps(b)
    ensures Comps(a + [SLASH] + [SLASH] + b) == Comps(a + [SLASH] + b)
    ensures Base([SLASH] + b) == Base(b) && Base(a + [SLASH] + [SLASH] + b) == Base(a + [SLASH] + b)
  {
    assert ([SLASH] + b)[1..] == b;
    CompsConcat(a + [SLASH], b);
    CompsConcat(a + [SLASH], [SLASH] + b);
    assert a + [SLASH] + [SLASH] + b == a + [SLASH] + ([SLASH] + b);
    BaseAfter([], b);
    assert [] + [SLASH] + b == [SLASH] + b;
    BaseAfter(a, b);
    BaseAfter(a + [SLASH], b);
  }

  lemma BaseAfter(a: Path, b: Path)
    ensures BaseStart(a + [SLASH] + b) == |a| + 1 + BaseStart(b)
    ensures Base(a + [SLASH] + b) == Base(b)
  {
    var p := a + [SLASH] + b;
    var i := |a| + 1 + BaseStart(b);
    assert p[i..] == b[BaseStart(b)..];
    assert p[i - 1] == SLASH;
    BaseStartUnique(p, i);
  }

  // ---- The scanning loop of `ramfs_get_parent` ----

  /** One directory component, up to the slash at `k`, has been read. */
  lemma ReadComponent(q: Path, k: nat)
    requires k < |q| && SLASH !in q[..k] && q[k] == SLASH && k > 0
    ensures DirComps(q) == [q[..k]] + DirComps(q[k + 1..])
    ensures Base(q) == Base(q[k + 1..])
  {
    var r := q[k + 1..];
    assert q == q[..k] + [SLASH] + r;
    BaseAfter(q[..k], r);
    var b := BaseStart(r);
    assert q[..k + 1 + b] == q[..k] + [SLASH] + r[..b];
    CompsOfFirst(q[..k], r[..b]);
  }

  lemma CompsOfFirst(n: Name, rest: Path)
    requires ValidName(n)
    ensures Comps(n + [SLASH] + rest) == [n] + Comps(rest)
  {
    CompsConcat(n + [SLASH], rest);
    TrailingSlash(n);
    CompsOfName(n);
  }

  /** A slash at the front has been skipped. */
  lemma SkipSlash(q: Path)
    requires q != [] && q[0] == SLASH
    ensures DirComps(q) == DirComps(q[1..])
    ensures Base(q) == Base(q[1..])
  {
    assert q == [] + [SLASH] + q[1..];
    BaseAfter([], q[1..]);
    var b := BaseStart(q[1..]);
    assert q[..1 + b][1..] == q[1..][..b];
  }

  lemma NoSlashLeft(q: Path)
    requires SLASH !in q
    ensures DirComps(q) == [] && Base(q) == q
  {
  }

  // ---- Printing ----

  /** Every name after a slash. */
  function Render(p: seq<Name>): Path
  {
    if p == [] then [] else [SLASH] + p[0] + Render(p[1..])
  }

  lemma {:induction false} RenderLast(p: seq<Name>, n: Name)
    ensures Render(p + [n]) == Render(p) + [SLASH] + n
  {
    if p == [] {
      assert [n][1..] == [];
      assert [] + [n] == [n];
    } else {
      assert (p + [n])[1..] == p[1..] + [n];
      RenderLast(p[1..], n);
    }
  }

  /** Reading what was printed gives back the names. */
  lemma {:induction false} RenderComps(p: seq<Name>)
    requires ValidNames(p)
    ensures Comps(Render(p)) == p
    ensures p != [] ==> Base(Render(p)) == p[|p| - 1]
  {
    if p != [] {
      var m := |p| - 1;
      assert p == p[..m] + [p[m]];
      RenderLast(p[..m], p[m]);
      RenderComps(p[..m]);
      CompsConcat(Render(p[..m]) + [SLASH], p[m]);
      CompsOfName(p[m]);
      TrailingSlash(Render(p[..m]));
      BaseAfter(Render(p[..m]), p[m]);
      NoSlashLeft(p[m]);
    }
  }

  lemma {:induction false} TrailingSlash(a: Path)
    ensures Comps(a + [SLASH]) == Comps(a)
    decreases |a|
  {
    if a == [] {
      assert [] + [SLASH] == [SLASH] && [SLASH][1..] == [];
    } else if a[0] == SLASH {
      assert (a + [SLASH])[1..] == a[1..] + [SLASH];
      TrailingSlash(a[1..]);
    } else {
      var k := Segment(a);
      assert (a + [SLASH])[..k] == a[..k];
      SegmentUnique(a + [SLASH], k);
      assert (a + [SLASH])[k..] == a[k..] + [SLASH];
      TrailingSlash(a[k..]);
    }
  }

  // ---- The same on bytes: the slash is byte 47 ----

  /** Byte 47 separates: what is before it and what is after it are split each on its own. */
  lemma CompsOnBytes(a: Path, b: Path)
    ensures Comps(a + [47] + b) == Comps(a) + Comps(b)
    ensures Comps([]) == []
  {
    CompsConcat(a + [47], b);
    TrailingSlash(a);
  }

  /** Nothing else does: a text without byte 47 is one component. */
  lemma PlainText(n: Path)
    requires 47 !in n
    ensures n != [] ==> Comps(n) == [n] && ValidName(n)
    ensures Base(n) == n && DirComps(n) == []
  {
    CompsOfName(n);
    NoSlashLeft(n);
  }

  /** No component is empty or holds byte 47. */
  lemma NamesOnBytes(p: Path, i: nat)
    requires i < |Comps(p)|
    ensures Comps(p)[i] != [] && 47 !in Comps(p)[i]
  {
    CompsValid(p);
  }

  /** The last name is what follows the last byte 47. */
  lemma LastNameOnBytes(a: Path, n: Path)
    requires 47 !in n
    ensures Base(a + [47] + n) == n && DirComps(a + [47] + n) == Comps(a)
  {
    NoSlashLeft(n);
    BaseAfter(a, n);
    var p := a + [47] + n;
    BaseStartUnique(p, |a| + 1);
    assert p[..|a| + 1] == a + [47];
    TrailingSlash(a);
  }

  /** Printing puts byte 47 before each name. */
  lemma RenderOnBytes(p: seq<Name>, n: Name)
    ensures Render([]) == [] && Render(p + [n]) == Render(p) + [47] + n
  {
    RenderLast(p, n);
  }
}
