/** Byte strings as the file system uses them: names compared by `strcmp`, and lists of
    names kept in strictly increasing order. */
module Names {

  /** A byte of a C string: any byte but the terminating NUL. */
  newtype PathByte = x: int | 0 < x < 256 witness 1

  type Name = seq<PathByte>

  const SLASH: PathByte := 47

  /** The sign of `strcmp(a, b)`: bytes are compared as unsigned, a proper prefix is smaller. */
  function Strcmp(a: Name, b: Name): int
  {
    if a == [] then (if b == [] then 0 else -1)
    else if b == [] then 1
    else if a[0] == b[0] then Strcmp(a[1..], b[1..])
    else a[0] as int - b[0] as int
  }

  predicate Less(a: Name, b: Name)
  {
    Strcmp(a, b) < 0
  }

  lemma {:induction false} StrcmpZero(a: Name, b: Name)
    ensures Strcmp(a, b) == 0 <==> a == b
  {
    if a != [] && b != [] && a[0] == b[0] {
      StrcmpZero(a[1..], b[1..]);
      assert a == [a[0]] + a[1..] && b == [b[0]] + b[1..];
    }
  }

  lemma {:induction false} StrcmpFlip(a: Name, b: Name)
    ensures Strcmp(a, b) < 0 <==> Strcmp(b, a) > 0
  {
    if a != [] && b != [] && a[0] == b[0] {
      StrcmpFlip(a[1..], b[1..]);
    }
  }

  lemma {:induction false} LessTransitive(a: Name, b: Name, c: Name)
    requires Less(a, b) && Less(b, c)
    ensures Less(a, c)
  {
    if a != [] && a[0] == b[0] == c[0] {
      LessTransitive(a[1..], b[1..], c[1..]);
    }
  }

  /** `Less` is a strict total order: exactly one of the three holds. */
  lemma Trichotomy(a: Name, b: Name)
    ensures Less(a, b) || a == b || Less(b, a)
    ensures !(Less(a, b) && Less(b, a))
    ensures !Less(a, a)
    ensures Strcmp(a, b) == 0 <==> a == b
    ensures Strcmp(a, b) > 0 <==> Less(b, a)
  {
    StrcmpZero(a, b);
    StrcmpZero(a, a);
    StrcmpFlip(a, b);
    StrcmpFlip(b, a);
  }

  /** `a` comes before `b` byte by byte: at the first place where they differ, `a` has the smaller byte
      or is at its end. */
  ghost predicate Precedes(a: Name, b: Name)
  {
    exists k :: 0 <= k <= |a| && k < |b| && a[..k] == b[..k] && (k == |a| || a[k] as int < b[k] as int)
  }

  /** The order is that of the bytes. */
  lemma {:induction false} LessOnBytes(a: Name, b: Name)
    ensures Less(a, b) <==>
            exists k :: 0 <= k <= |a| && k < |b| && a[..k] == b[..k] && (k == |a| || a[k] as int < b[k] as int)
  {
    if a != [] && b != [] && a[0] == b[0] {
      LessOnBytes(a[1..], b[1..]);
      var c, d := a[1..], b[1..];
      if Less(a, b) {
        var k :| 0 <= k <= |c| && k < |d| && c[..k] == d[..k] && (k == |c| || c[k] as int < d[k] as int);
        assert a[..k + 1] == [a[0]] + c[..k] && b[..k + 1] == [b[0]] + d[..k];
        assert a[k + 1..] == c[k..];
      }
      forall k | 0 <= k <= |a| && k < |b| && a[..k] == b[..k] && (k == |a| || a[k] as int < b[k] as int)
        ensures Less(a, b)
      {
        assert k > 0;
        assert c[..k - 1] == a[..k][1..] && d[..k - 1] == b[..k][1..];
      }
    } else {
      assert a[..0] == b[..0];
    }
  }

  lemma PrecedesIsLess(a: Name, b: Name)
    ensures Precedes(a, b) <==> Less(a, b)
  {
    LessOnBytes(a, b);
  }

  /** What a key pointer leads to, if it is not NULL. */
  datatype Key = Null | Text(name: Name)

  /** `ramfs_cmp`, the order of the red-black tree's keys. */
  function RamfsCmp(left: Key, right: Key): int
  {
    if left.Null? then
      if right.Null? then 0 else -1
    else if right.Null? then 1
    else Strcmp(left.name, right.name)
  }

  /** It is a total order with NULL below every name, and says zero for equal keys only. */
  lemma CompareTotal(a: Key, b: Key)
    ensures RamfsCmp(a, b) == 0 <==> a == b
    ensures RamfsCmp(a, b) < 0 <==> RamfsCmp(b, a) > 0
    ensures a.Null? && b.Text? ==> RamfsCmp(a, b) < 0
    ensures a.Text? && b.Text? ==> (RamfsCmp(a, b) < 0 <==> Less(a.name, b.name))
  {
    if a.Text? && b.Text? {
      StrcmpZero(a.name, b.name);
      StrcmpFlip(a.name, b.name);
    }
  }

  lemma CompareTransitive(a: Key, b: Key, c: Key)
    requires RamfsCmp(a, b) < 0 && RamfsCmp(b, c) < 0
    ensures RamfsCmp(a, c) < 0
  {
    if a.Text? && b.Text? && c.Text? {
      LessTransitive(a.name, b.name, c.name);
    }
  }

  ghost predicate Sorted(s: seq<Name>)
  {
    forall i, j :: 0 <= i < j < |s| ==> Less(s[i], s[j])
  }

  ghost predicate AllLess(s: seq<Name>, n: Name)
  {
    forall i :: 0 <= i < |s| ==> Less(s[i], n)
  }

  ghost predicate AllMore(n: Name, s: seq<Name>)
  {
    forall i :: 0 <= i < |s| ==> Less(n, s[i])
  }

  /** `i` is where `n` belongs in the sorted list `s`: everything before is smaller and
      everything from there on is larger. */
  ghost predicate Slot(s: seq<Name>, n: Name, i: int)
  {
    0 <= i <= |s| && AllLess(s[..i], n) && AllMore(n, s[i..])
  }

  lemma SlotUnique(s: seq<Name>, n: Name, i: int, j: int)
    requires Slot(s, n, i) && Slot(s, n, j)
    ensures i == j
  {
    if i < j {
      assert s[..j][i] == s[i..][0];
      Trichotomy(s[i], n);
    } else if j < i {
      assert s[..i][j] == s[j..][0];
      Trichotomy(s[j], n);
    }
  }

  lemma SlotMeansAbsent(s: seq<Name>, n: Name, i: int)
    requires Slot(s, n, i)
    ensures n !in s
  {
    Trichotomy(n, n);
    forall k | 0 <= k < |s|
      ensures s[k] != n
    {
      assert s[k] == if k < i then s[..i][k] else s[i..][k - i];
    }
  }

  /** Putting a name into its slot keeps the list strictly sorted. */
  lemma InsertSorted(s: seq<Name>, n: Name, i: int)
    requires Sorted(s) && Slot(s, n, i)
    ensures Sorted(s[..i] + [n] + s[i..])
  {
  }

  lemma RemoveSorted(s: seq<Name>, i: nat)
    requires Sorted(s) && i < |s|
    ensures Sorted(s[..i] + s[i + 1..])
    ensures s[i] !in s[..i] + s[i + 1..]
    ensures Slot(s[..i] + s[i + 1..], s[i], i)
  {
    var t := s[..i] + s[i + 1..];
    forall a, b | 0 <= a < b < |t|
      ensures Less(t[a], t[b])
    {
      assert t[a] == s[if a < i then a else a + 1];
      assert t[b] == s[if b < i then b else b + 1];
    }
    assert t[..i] == s[..i] && t[i..] == s[i + 1..];
    SlotMeansAbsent(t, s[i], i);
  }

  lemma SortedNoDuplicates(s: seq<Name>, i: nat, j: nat)
    requires Sorted(s) && i < |s| && j < |s| && s[i] == s[j]
    ensures i == j
  {
    Trichotomy(s[i], s[i]);
  }
}
