/**
  The filesystem that copy, move and archive work on, and the operating
  system and library calls they make on it: `os.MkdirAll`, `os.RemoveAll`,
  the recursive copy of otiai10/copy, and the tar.gz archiving and
  extraction of mholt/archiver.

  A filesystem is a map from every existing path but the root to what is
  there.  An archive file carries the tree it holds, keyed by path inside
  the archive, so that packing and unpacking can be related.
 */
module Disk {
  import opened Errors
  import opened Paths

  datatype Kind =
    | Directory
    | File(data: string)
    | Archive(members: map<Path, Kind>)

  type Entries = map<Path, Kind>

  /**
    A real directory tree: the root is implicit, and every proper ancestor
    of an existing path is an existing directory.  An archive's member list
    is such a tree too.
   */
  ghost predicate Tree(e: Entries)
  {
    && [] !in e
    && forall k, i :: k in e && 1 <= i < |k| ==> k[..i] in e && e[k[..i]].Directory?
  }

  /** What `os.Stat` finds at `p`: the root is always a directory. */
  function KindAt(e: Entries, p: Path): Option<Kind>
  {
    if p == [] then Some(Directory) else if p in e then Some(e[p]) else None
  }

  predicate Exists(e: Entries, p: Path)
  {
    p == [] || p in e
  }

  predicate IsDir(e: Entries, p: Path)
  {
    p == [] || (p in e && e[p].Directory?)
  }

  /**
    `os.IsNotExist` of the error `os.Stat(p)` returns: the path is missing
    and the walk down to it met no non-directory (a file on the way gives
    ENOTDIR instead, which is not a "not exist" error).
   */
  predicate StatNotExist(e: Entries, p: Path)
  {
    !Exists(e, p) && forall i :: 0 <= i < |p| && Exists(e, p[..i]) ==> IsDir(e, p[..i])
  }

  /** Every path `os.Stat` would find. */
  function Taken(e: Entries): (s: set<Path>)
    ensures forall p :: p in s <==> Exists(e, p)
  {
    e.Keys + {[]}
  }

  // ---------------------------------------------------------------------
  // Re-rooting trees

  lemma SuffixInjective(p: Path)
    ensures forall k1: Path, k2: Path :: p <= k1 && p <= k2 && k1[|p|..] == k2[|p|..] ==> k1 == k2
  {
    forall k1: Path, k2: Path | p <= k1 && p <= k2 && k1[|p|..] == k2[|p|..]
      ensures k1 == k2
    {
      assert k1 == p + k1[|p|..];
      assert k2 == p + k2[|p|..];
    }
  }

  lemma PrefixInjective(p: Path)
    ensures forall r1: Path, r2: Path :: p + r1 == p + r2 ==> r1 == r2
  {
    forall r1: Path, r2: Path | p + r1 == p + r2
      ensures r1 == r2
    {
      assert r1 == (p + r1)[|p|..];
      assert r2 == (p + r2)[|p|..];
    }
  }

  /** The entries at or below `p`, keyed by path relative to `p`. */
  function Rekeyed(e: Entries, p: Path): Entries
  {
    SuffixInjective(p);
    map k | k in e && p <= k :: k[|p|..] := e[k]
  }

  lemma RekeyedAt(e: Entries, p: Path, rel: Path)
    ensures rel in Rekeyed(e, p) <==> p + rel in e
    ensures rel in Rekeyed(e, p) ==> Rekeyed(e, p)[rel] == e[p + rel]
  {
    SuffixInjective(p);
    var k := p + rel;
    assert k[|p|..] == rel;
    if rel in Rekeyed(e, p) {
      var k' :| k' in e && p <= k' && k'[|p|..] == rel;
      assert k' == p + k'[|p|..];
    }
  }

  /** The tree at `p`, keyed by path relative to `p`; the key [] is `p` itself. */
  function Sub(e: Entries, p: Path): Entries
  {
    Rekeyed(e, p) + (if p == [] then map[[] := Directory] else map[])
  }

  lemma SubAt(e: Entries, p: Path, rel: Path)
    ensures rel in Sub(e, p) <==> KindAt(e, p + rel).Some?
    ensures rel in Sub(e, p) ==> Sub(e, p)[rel] == KindAt(e, p + rel).value
  {
    RekeyedAt(e, p, rel);
    if p == [] {
      assert [] + rel == rel;
    }
  }

  /** A tree placed at `p`; the root itself is never a key. */
  function Graft(p: Path, s: Entries): Entries
  {
    PrefixInjective(p);
    map r | r in s && p + r != [] :: p + r := s[r]
  }

  lemma GraftAt(p: Path, s: Entries, k: Path)
    ensures k in Graft(p, s) <==> k != [] && p <= k && k[|p|..] in s
    ensures k in Graft(p, s) ==> Graft(p, s)[k] == s[k[|p|..]]
  {
    PrefixInjective(p);
    if k != [] && p <= k && k[|p|..] in s {
      var r := k[|p|..];
      assert p + r == k;
    }
    if k in Graft(p, s) {
      var r :| r in s && p + r != [] && p + r == k;
      assert k[|p|..] == r;
    }
  }

  /** What `os.RemoveAll` leaves: everything at or below `p` is gone. */
  function Without(e: Entries, p: Path): (r: Entries)
    ensures forall k :: k in r <==> k in e && !(p <= k)
    ensures forall k :: k in r ==> r[k] == e[k]
  {
    map k | k in e && !(p <= k) :: e[k]
  }

  /**
    What `os.RemoveAll(p)` returns and leaves: the root is refused, a
    missing path below a file is "not a directory" with nothing removed,
    and otherwise the path goes with everything below it.
   */
  function Removed(e: Entries, p: Path): (Outcome, Entries)
  {
    if p == [] then (Failed(InvalidPath), e)
    else if !Exists(e, p) && !StatNotExist(e, p) then (Failed(NotADirectory), e)
    else (Pass, Without(e, p))
  }


  /** The non-root prefixes of `p`, `p` included. */
  function Prefixes(p: Path): (s: set<Path>)
    ensures forall k :: k in s <==> k != [] && k <= p
  {
    var s := set i | 1 <= i <= |p| :: p[..i];
    assert forall k :: k != [] && k <= p ==> k == p[..|k|];
    s
  }

  /** The directories `os.MkdirAll(p)` makes sure of. */
  function Ancestors(p: Path): (a: Entries)
    ensures forall k :: k in a <==> k != [] && k <= p
    ensures forall k :: k in a ==> a[k] == Directory
  {
    map k | k in Prefixes(p) :: Directory
  }

  /** `os.MkdirAll(p)` succeeds when nothing on the way is a non-directory. */
  predicate MkdirAllOk(e: Entries, p: Path)
  {
    forall k :: k in e && k != [] && k <= p ==> e[k].Directory?
  }

  // ---------------------------------------------------------------------
  // The recursive copy of otiai10/copy

  /**
    The copy merges the source tree into the destination: it makes the
    destination's parent directories, and fails when a directory of one
    side meets a non-directory of the other.
   */
  predicate CopyOk(e: Entries, src: Path, dest: Path)
  {
    && MkdirAllOk(e, Dir(dest))
    && forall r :: r in Sub(e, src) && KindAt(e, dest + r).Some? ==>
         (KindAt(e, dest + r).value.Directory? <==> Sub(e, src)[r].Directory?)
  }

  function CopyTree(e: Entries, src: Path, dest: Path): Entries
  {
    e + Ancestors(Dir(dest)) + Graft(dest, Sub(e, src))
  }

  // ---------------------------------------------------------------------
  // Archives

  /** The member list `TarGz` writes: the source's tree under the source's base name. */
  function Packed(e: Entries, src: Path): Entries
  {
    Graft([Base(src)], Sub(e, src))
  }

  /**
    What writing the archive of `src` to `target` returns and leaves: an
    existing target is refused, missing parents are made, and the file is
    created before the source is read, so a missing source leaves an empty
    archive behind.
   */
  function ArchiveWrite(e: Entries, src: Path, target: Path): (Outcome, Entries)
  {
    if Exists(e, target) then (Failed(AlreadyExists), e)
    else if !MkdirAllOk(e, Dir(target)) then (Failed(NotADirectory), e)
    else
      var made := e + Ancestors(Dir(target));
      if Exists(made, src) then (Pass, made[target := Archive(Packed(made, src))])
      else (Failed(NotExist), made[target := Archive(map[])])
  }

  /** The names `ReadDir(dir)` reports. */
  function Children(e: Entries, dir: Path): set<string>
  {
    set k | k in e && |k| == |dir| + 1 && dir <= k :: k[|dir|]
  }

  /** An archive file whose members form a tree. */
  predicate Readable(k: Kind)
  {
    k.Archive? && [] !in k.members
    && forall r, i :: r in k.members && 1 <= i < |r| ==> r[..i] in k.members && k.members[r[..i]].Directory?
  }

  /** The top-level names of an archive. */
  function TopNames(members: Entries): set<string>
  {
    set r | r in members && |r| == 1 :: r[0]
  }

  /** Nothing is at or below `p`. */
  predicate Fresh(e: Entries, p: Path)
  {
    p != [] && forall k :: k in e ==> !(p <= k)
  }

  /**
    The filesystem the commands change: the primitive calls of the source,
    each stated on the map of entries.
   */
  class FileSystem {
    var entries: Entries

    ghost predicate Valid()
      reads this
    {
      Tree(entries)
    }

    constructor (e: Entries)
      requires Tree(e)
      ensures entries == e && Valid()
    {
      entries := e;
    }

    /** `os.MkdirAll(p)`. */
    method MkdirAll(p: Path) returns (r: Outcome)
      requires Valid()
      modifies this
      ensures Valid()
      ensures MkdirAllOk(old(entries), p) ==> r == Pass && entries == old(entries) + Ancestors(p)
      ensures !MkdirAllOk(old(entries), p) ==> r == Failed(NotADirectory) && entries == old(entries)
    {
      if MkdirAllOk(entries, p) {
        MkdirAllTree(entries, p);
        entries := entries + Ancestors(p);
        r := Pass;
      } else {
        r := Failed(NotADirectory);
      }
    }

    /**
      `os.RemoveAll(p)`: a missing path is no error, but one below a file
      is "not a directory"; the root cannot be removed.
     */
    method RemoveAll(p: Path) returns (r: Outcome)
      requires Valid()
      modifies this
      ensures Valid()
      ensures (r, entries) == Removed(old(entries), p)
      ensures p == [] ==> r == Failed(InvalidPath) && entries == old(entries)
      ensures p in old(entries) || StatNotExist(old(entries), p) ==> r == Pass && entries == Without(old(entries), p)
      ensures !Exists(old(entries), p) && !StatNotExist(old(entries), p) ==>
                r == Failed(NotADirectory) && entries == old(entries)
    {
      if p == [] {
        r := Failed(InvalidPath);
      } else if !Exists(entries, p) && !StatNotExist(entries, p) {
        r := Failed(NotADirectory);
      } else {
        WithoutTree(entries, p);
        entries := Without(entries, p);
        r := Pass;
      }
    }

    /** `copy.Copy(src, dest)`. */
    method Copy(src: Path, dest: Path) returns (r: Outcome)
      requires Valid()
      modifies this
      ensures Valid()
      ensures !Exists(old(entries), src) ==> r == Failed(NotExist) && entries == old(entries)
      ensures Exists(old(entries), src) && CopyOk(old(entries), src, dest) ==>
        r == Pass && entries == CopyTree(old(entries), src, dest)
      ensures Exists(old(entries), src) && !CopyOk(old(entries), src, dest) ==>
        r == Failed(NotADirectory) && entries == old(entries)
    {
      if !Exists(entries, src) {
        r := Failed(NotExist);
      } else if CopyOk(entries, src, dest) {
        CopyTreeTree(entries, src, dest);
        entries := CopyTree(entries, src, dest);
        r := Pass;
      } else {
        r := Failed(NotADirectory);
      }
    }

    /** Making the temporary directory `t`, which the system picks fresh beside other directories. */
    method MkdirTemp(t: Path)
      requires Valid() && t != [] && !Exists(entries, t) && IsDir(entries, Dir(t))
      modifies this
      ensures Valid()
      ensures entries == old(entries)[t := Directory]
    {
      AddLeafTree(entries, t, Directory);
      entries := entries[t := Directory];
    }

    /**
      `Archive([src], target)` of a tar.gz archiver that makes missing
      parent directories and does not replace an existing file.  The file
      is created before the source is read, so a missing source leaves an
      empty archive behind.
     */
    method WriteArchive(src: Path, target: Path) returns (r: Outcome)
      requires Valid()
      modifies this
      ensures Valid()
      ensures (r, entries) == ArchiveWrite(old(entries), src, target)
    {
      if Exists(entries, target) {
        return Failed(AlreadyExists);
      }
      if !MkdirAllOk(entries, Dir(target)) {
        return Failed(NotADirectory);
      }
      MkdirAllTree(entries, Dir(target));
      entries := entries + Ancestors(Dir(target));
      AddLeafTree(entries, target, Archive(map[]));
      if Exists(entries, src) {
        AddLeafTree(entries, target, Archive(Packed(entries, src)));
        entries := entries[target := Archive(Packed(entries, src))];
        r := Pass;
      } else {
        entries := entries[target := Archive(map[])];
        r := Failed(NotExist);
      }
    }

    /**
      `Unarchive(archive, into)` into an empty directory.  Anything but a
      well-formed archive file is unreadable.
     */
    method Unarchive(archive: Path, into: Path) returns (r: Outcome)
      requires Valid() && into in entries && entries[into] == Directory
      requires forall k :: k in entries && into <= k ==> k == into
      modifies this
      ensures Valid()
      ensures !Exists(old(entries), archive) ==> r == Failed(NotExist) && entries == old(entries)
      ensures Exists(old(entries), archive) && !Readable(KindAt(old(entries), archive).value) ==>
        r == Failed(ArchiveUnreadable) && entries == old(entries)
      ensures Exists(old(entries), archive) && Readable(KindAt(old(entries), archive).value) ==>
        r == Pass && entries == old(entries) + Graft(into, KindAt(old(entries), archive).value.members)
    {
      if !Exists(entries, archive) {
        return Failed(NotExist);
      }
      var k := KindAt(entries, archive).value;
      if !Readable(k) {
        return Failed(ArchiveUnreadable);
      }
      ExtractTree(entries, into, k.members);
      entries := entries + Graft(into, k.members);
      r := Pass;
    }
  }

  // ---------------------------------------------------------------------
  // The calls keep the filesystem a tree

  lemma MkdirAllTree(e: Entries, p: Path)
    requires Tree(e) && MkdirAllOk(e, p)
    ensures Tree(e + Ancestors(p))
  {
    var n := e + Ancestors(p);
    forall k, i | k in n && 1 <= i < |k|
      ensures k[..i] in n && n[k[..i]].Directory?
    {
      if k in Ancestors(p) {
        assert k[..i] <= p;
      }
    }
  }

  lemma WithoutTree(e: Entries, p: Path)
    requires Tree(e)
    ensures Tree(Without(e, p))
  {
  }

  /**
    A removal that succeeds keeps the filesystem a tree and leaves nothing
    at or below the path, so removing the same path again is no error and
    changes nothing.
   */
  lemma RemovedIdempotent(e: Entries, p: Path)
    requires Tree(e) && Removed(e, p).0 == Pass
    ensures var e1 := Removed(e, p).1;
      && Tree(e1)
      && (forall k :: k in e1 ==> !(p <= k))
      && Removed(e1, p) == (Pass, e1)
  {
    var e1 := Without(e, p);
    WithoutTree(e, p);
    forall i | 0 <= i < |p| && Exists(e1, p[..i])
      ensures IsDir(e1, p[..i])
    {
      if i > 0 {
        assert !(p <= p[..i]);
        if p in e {
          assert p[..i] in e && e[p[..i]].Directory?;
        } else {
          assert Exists(e, p[..i]) && IsDir(e, p[..i]);
        }
      }
    }
    assert StatNotExist(e1, p);
    assert Without(e1, p) == e1;
  }

  lemma CopyTreeTree(e: Entries, src: Path, dest: Path)
    requires Tree(e) && Exists(e, src) && CopyOk(e, src, dest)
    ensures Tree(CopyTree(e, src, dest))
  {
    var n := CopyTree(e, src, dest);
    var g := Graft(dest, Sub(e, src));
    forall k, i | k in n && 1 <= i < |k|
      ensures k[..i] in n && n[k[..i]].Directory?
    {
      if k in g {
        CopiedParent(e, src, dest, k, i);
      } else if k in Ancestors(Dir(dest)) {
        AncestorParent(e, src, dest, k, i);
      } else {
        OldParent(e, src, dest, k, i);
      }
    }
  }

  /** A key of a graft is at least as long as where it is grafted. */
  lemma GraftLonger(p: Path, s: Entries, c: Path)
    requires |c| < |p|
    ensures c !in Graft(p, s)
  {
    GraftAt(p, s, c);
  }

  /** The parent directories of a copied path are there after the copy. */
  lemma CopiedParent(e: Entries, src: Path, dest: Path, k: Path, i: nat)
    requires Tree(e)
    requires k in Graft(dest, Sub(e, src)) && 1 <= i < |k|
    ensures k[..i] in CopyTree(e, src, dest) && CopyTree(e, src, dest)[k[..i]].Directory?
  {
    var s := Sub(e, src);
    GraftAt(dest, s, k);
    if i < |dest| {
      assert k[..i] == dest[..i];
      MadeAncestor(e, src, dest, k[..i]);
    } else {
      GraftedPrefixIsDir(dest, s, e, src, k, i);
      OverrideRight(e + Ancestors(Dir(dest)), Graft(dest, s), k[..i]);
    }
  }

  /** A parent directory of the destination is a directory after the copy. */
  lemma MadeAncestor(e: Entries, src: Path, dest: Path, c: Path)
    requires c != [] && |c| < |dest| && c <= dest
    ensures c in CopyTree(e, src, dest) && CopyTree(e, src, dest)[c].Directory?
  {
    var g := Graft(dest, Sub(e, src));
    var a := e + Ancestors(Dir(dest));
    GraftLonger(dest, Sub(e, src), c);
    assert c <= Dir(dest);
    OverrideLeft(a, g, c);
  }

  lemma OverrideLeft(a: Entries, b: Entries, c: Path)
    requires c in a && c !in b
    ensures c in a + b && (a + b)[c] == a[c]
  {
  }

  lemma OverrideRight(a: Entries, b: Entries, c: Path)
    requires c in b
    ensures c in a + b && (a + b)[c] == b[c]
  {
  }

  lemma GraftedPrefixIsDir(dest: Path, s: Entries, e: Entries, src: Path, k: Path, i: nat)
    requires Tree(e) && s == Sub(e, src)
    requires k in Graft(dest, s) && |dest| <= i < |k| && 1 <= i
    ensures k[..i] in Graft(dest, s) && Graft(dest, s)[k[..i]].Directory?
  {
    GraftAt(dest, s, k);
    var r := k[|dest|..];
    var j := i - |dest|;
    CopiedPrefixIsDir(e, src, r, j);
    var c := k[..i];
    assert dest <= c && c != [];
    assert c[|dest|..] == r[..j];
    GraftAt(dest, s, c);
  }

  /** The parent directories of a made directory are made too. */
  lemma AncestorParent(e: Entries, src: Path, dest: Path, k: Path, i: nat)
    requires k in Ancestors(Dir(dest)) && 1 <= i < |k|
    ensures k[..i] in CopyTree(e, src, dest) && CopyTree(e, src, dest)[k[..i]].Directory?
  {
    var c := k[..i];
    assert c <= Dir(dest);
    GraftLonger(dest, Sub(e, src), c);
  }

  /** A directory that was there stays a directory, whatever the copy lays over it. */
  lemma OldParent(e: Entries, src: Path, dest: Path, k: Path, i: nat)
    requires Tree(e) && CopyOk(e, src, dest)
    requires k in e && 1 <= i < |k|
    ensures k[..i] in CopyTree(e, src, dest) && CopyTree(e, src, dest)[k[..i]].Directory?
  {
    var s := Sub(e, src);
    var c := k[..i];
    GraftAt(dest, s, c);
    if c in Graft(dest, s) {
      var rc := c[|dest|..];
      assert dest + rc == c;
      assert KindAt(e, dest + rc) == Some(e[c]);
    }
  }
  /** A prefix of a copied path is a directory of the source. */
  lemma CopiedPrefixIsDir(e: Entries, src: Path, r: Path, j: nat)
    requires Tree(e) && r in Sub(e, src) && j < |r|
    ensures r[..j] in Sub(e, src) && Sub(e, src)[r[..j]].Directory?
  {
    SubAt(e, src, r);
    SubAt(e, src, r[..j]);
    var k := src + r;
    if src + r[..j] != [] {
      assert src + r[..j] == k[..|src| + j];
    }
  }

  /** A new entry whose parent is a directory keeps the tree a tree. */
  lemma AddLeafTree(e: Entries, t: Path, k: Kind)
    requires Tree(e) && t != [] && !Exists(e, t) && IsDir(e, Dir(t))
    ensures Tree(e[t := k])
  {
    var n := e[t := k];
    forall x, i | x in n && 1 <= i < |x|
      ensures x[..i] in n && n[x[..i]].Directory?
    {
      if x == t {
        var d := Dir(t);
        assert x[..i] == d[..i];
        if i < |d| {
          assert d[..|d|][..i] == d[..i];
        } else {
          assert d[..i] == d;
        }
      }
    }
  }

  /** Nothing is below a missing path of a tree. */
  lemma MissingIsFresh(e: Entries, t: Path)
    requires Tree(e) && !Exists(e, t)
    ensures Fresh(e, t)
  {
    forall k | k in e
      ensures !(t <= k)
    {
      if t <= k {
        PrefixParts(t, k);
      }
    }
  }

  lemma PrefixParts(t: Path, k: Path)
    requires t <= k
    ensures k == t || (|t| < |k| && k[..|t|] == t)
  {
  }

  /** Extracting a readable archive into an empty directory keeps the tree a tree. */
  lemma ExtractTree(e: Entries, t: Path, members: Entries)
    requires Tree(e) && t in e && e[t] == Directory
    requires forall k :: k in e && t <= k ==> k == t
    requires Readable(Archive(members))
    ensures Tree(e + Graft(t, members))
  {
    var g := Graft(t, members);
    var n := e + g;
    forall x, i | x in n && 1 <= i < |x|
      ensures x[..i] in n && n[x[..i]].Directory?
    {
      var c := x[..i];
      if x in g {
        GraftAt(t, members, x);
        var r := x[|t|..];
        assert r != [];
        if i < |t| {
          assert c == t[..i];
          GraftLonger(t, members, c);
          OverrideLeft(e, g, c);
        } else if i == |t| {
          assert c == t;
          GraftAt(t, members, c);
          OverrideLeft(e, g, c);
        } else {
          assert r[..i - |t|] in members;
          assert c[|t|..] == r[..i - |t|];
          GraftAt(t, members, c);
          OverrideRight(e, g, c);
        }
      } else {
        GraftAt(t, members, c);
        OverrideLeft(e, g, c);
      }
    }
  }

  /** After extraction, the directory holds exactly the archive's top-level names. */
  lemma ExtractChildren(e: Entries, t: Path, members: Entries)
    requires forall k :: k in e && t <= k ==> k == t
    requires [] !in members
    ensures Children(e + Graft(t, members), t) == TopNames(members)
  {
    var n := e + Graft(t, members);
    forall x | x in Children(n, t)
      ensures x in TopNames(members)
    {
      var k :| k in n && |k| == |t| + 1 && t <= k && k[|t|] == x;
      GraftAt(t, members, k);
      assert k[|t|..] == [x];
    }
    forall x | x in TopNames(members)
      ensures x in Children(n, t)
    {
      var r :| r in members && |r| == 1 && r[0] == x;
      var k := t + r;
      assert k[|t|..] == r;
      GraftAt(t, members, k);
      assert k[|t|] == x;
    }
  }

  /** What an extracted top-level name is. */
  lemma ExtractedKind(e: Entries, t: Path, members: Entries, name: string)
    requires [name] in members
    ensures KindAt(e + Graft(t, members), t + [name]) == Some(members[[name]])
  {
    var k := t + [name];
    assert k[|t|..] == [name];
    GraftAt(t, members, k);
  }

  /** Removing a fresh directory together with what was put into it gives back the filesystem before. */
  lemma CleanUp(e: Entries, t: Path, g: Entries)
    requires Fresh(e, t)
    requires forall k :: k in g ==> t <= k
    ensures Without(e[t := Directory] + g, t) == e
  {
  }

  /** A graft lies below where it is grafted. */
  lemma GraftBelow(t: Path, s: Entries)
    ensures forall k :: k in Graft(t, s) ==> t <= k
  {
    forall k | k in Graft(t, s)
      ensures t <= k
    {
      GraftAt(t, s, k);
    }
  }

  // ---------------------------------------------------------------------
  // What an archive holds

  /** The member list of an existing source is readable. */
  lemma PackedReadable(e: Entries, src: Path)
    requires Tree(e) && Exists(e, src)
    ensures Readable(Archive(Packed(e, src)))
  {
    var m := Packed(e, src);
    GraftAt([Base(src)], Sub(e, src), []);
    forall x, i | x in m && 1 <= i < |x|
      ensures x[..i] in m && m[x[..i]].Directory?
    {
      GraftedPrefixIsDir([Base(src)], Sub(e, src), e, src, x, i);
    }
  }

  /** An archive of an existing source has one top-level name: the source's base name. */
  lemma PackedTop(e: Entries, src: Path)
    requires Exists(e, src)
    ensures TopNames(Packed(e, src)) == {Base(src)}
    ensures [Base(src)] in Packed(e, src) && Packed(e, src)[[Base(src)]] == KindAt(e, src).value
  {
    var s := Sub(e, src);
    var top: Path := [Base(src)];
    SubAt(e, src, []);
    assert src + [] == src;
    assert top[|top|..] == [];
    GraftAt(top, s, top);
    forall x | x in TopNames(Packed(e, src))
      ensures x == Base(src)
    {
      var r :| r in Packed(e, src) && |r| == 1 && r[0] == x;
      GraftAt(top, s, r);
    }
  }

  /** The tree under the archive's top-level name is the source's tree. */
  lemma PackedSub(e: Entries, src: Path)
    ensures Sub(Packed(e, src), [Base(src)]) == Sub(e, src)
  {
    var s := Sub(e, src);
    var top: Path := [Base(src)];
    var m := Packed(e, src);
    forall rel | rel in Sub(m, top)
      ensures rel in s && Sub(m, top)[rel] == s[rel]
    {
      SubAt(m, top, rel);
      assert (top + rel)[|top|..] == rel;
      GraftAt(top, s, top + rel);
    }
    forall rel | rel in s
      ensures rel in Sub(m, top)
    {
      assert (top + rel)[|top|..] == rel;
      GraftAt(top, s, top + rel);
      SubAt(m, top, rel);
    }
  }
}
