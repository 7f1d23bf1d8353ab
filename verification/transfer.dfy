/**
  Moving things in and out of a pairtree (pkg/pairtree/pairtree.go):
  `DeletePairtreeItem`, `CopyFileOrFolder`, `TarGz` and `UnTarGz`, as
  methods on the filesystem.
 */
module Transfer {
  import opened Errors
  import opened Paths
  import opened Disk
  import opened Unique
  import Pt

  /**
    What `DeletePairtreeItem` (pairtree.go:224-236) reports and leaves
    behind.  Only a "does not exist" from `os.Stat` stops it early; a path
    below a file gets "not a directory" from `os.Stat`, so `os.RemoveAll`
    runs and fails with that error, removing nothing.
   */
  function Deleted(e: Entries, path: Path): (Outcome, Entries)
  {
    if StatNotExist(e, path) then (Failed(NotExist), e)
    else Removed(e, path)
  }

  /** `DeletePairtreeItem`: a missing path is an error; anything else goes, with all below it. */
  method DeletePairtreeItem(fs: FileSystem, path: Path) returns (r: Outcome)
    requires fs.Valid()
    modifies fs
    ensures fs.Valid()
    ensures (r, fs.entries) == Deleted(old(fs.entries), path)
    ensures StatNotExist(old(fs.entries), path) ==> r == Failed(NotExist) && fs.entries == old(fs.entries)
    ensures !Exists(old(fs.entries), path) && !StatNotExist(old(fs.entries), path) ==>
              r == Failed(NotADirectory) && fs.entries == old(fs.entries)
    ensures path == [] ==> r == Failed(InvalidPath) && fs.entries == old(fs.entries)
    ensures path in old(fs.entries) ==> r == Pass && fs.entries == Without(old(fs.entries), path)
  {
    if StatNotExist(fs.entries, path) {
      return Failed(NotExist);
    }
    r := fs.RemoveAll(path);
  }

  /**
    On a well-formed tree, deleting an existing item succeeds, keeps the
    tree well-formed and leaves nothing at or below the path; deleting it
    a second time reports that it does not exist and changes nothing.
   */
  lemma DeleteTwice(e: Entries, path: Path)
    requires Tree(e) && path in e
    ensures Deleted(e, path).0 == Pass
    ensures var e1 := Deleted(e, path).1;
      && Tree(e1)
      && (forall k :: k in e1 ==> !(path <= k))
      && Deleted(e1, path) == (Failed(NotExist), e1)
  {
    RemovedIdempotent(e, path);
  }

  /** A path below a file is not reported missing but refused as "not a directory". */
  lemma DeleteBelowFile()
    ensures Deleted(map[["a.txt"] := File("")], ["a.txt", "x"])
         == (Failed(NotADirectory), map[["a.txt"] := File("")])
  {
    assert ["a.txt", "x"][..1] == ["a.txt"];
  }

  // ---------------------------------------------------------------------
  // Copying

  /** `filepath.Join(dest, filepath.Base(src))`: the root's base name "." adds nothing. */
  function Into(dest: Path, src: Path): (p: Path)
    ensures src != [] ==> Dir(p) == dest && Base(p) == Base(src)
    ensures src == [] ==> p == dest
  {
    if src == [] then dest else dest + [Base(src)]
  }

  /**
    Where `CopyFileOrFolder` puts the copy: into an existing directory, or
    into the named directory when the destination ends in a separator;
    otherwise at the destination itself.  Without overwriting, a taken
    target is replaced by the first free numbered one.
   */
  function CopyTarget(e: Entries, src: Path, dest: Location, overwrite: bool): (t: Path)
    ensures !overwrite ==> !Exists(e, t)
  {
    var t := if IsDir(e, dest.path) || dest.trailingSep then Into(dest.path, src) else dest.path;
    if overwrite then t else UniqueDestination(t, Taken(e))
  }

  /**
    What `CopyFileOrFolder` returns and leaves: a missing source is
    reported; otherwise the source's tree is merged in at the target, or
    nothing changes when a directory meets a file on the way.
   */
  function Copied(e: Entries, src: Path, dest: Location, overwrite: bool): (Result<Path>, Entries)
  {
    if !Exists(e, src) then (Err(NotExist), e)
    else
      var t := CopyTarget(e, src, dest, overwrite);
      if CopyOk(e, src, t) then (Ok(t), CopyTree(e, src, t)) else (Err(NotADirectory), e)
  }

  /** A copy's outcome without the final target, as the commands report it. */
  function Reported(c: (Result<Path>, Entries)): (Outcome, Entries)
  {
    (if c.0.Ok? then Pass else Failed(c.0.error), c.1)
  }

  /** `CopyFileOrFolder` (pairtree.go:272-300). */
  method CopyFileOrFolder(fs: FileSystem, src: Path, dest: Location, overwrite: bool) returns (r: Result<Path>)
    requires fs.Valid()
    modifies fs
    ensures fs.Valid()
    ensures (r, fs.entries) == Copied(old(fs.entries), src, dest, overwrite)
  {
    if !Exists(fs.entries, src) {
      return Err(NotExist);
    }
    var target := dest.path;
    if IsDir(fs.entries, dest.path) {
      target := Into(dest.path, src);
    } else if dest.trailingSep {
      target := Into(dest.path, src);
    }
    if !overwrite {
      target := GetUniqueDestination(target, Taken(fs.entries));
    }
    var c := fs.Copy(src, target);
    if c.Failed? {
      return Err(c.error);
    }
    r := Ok(target);
  }

  /**
    A copy to a free target: the target's tree is the source's tree, and
    everything that was there before is still there, unchanged.
   */
  lemma CopyIntoFresh(e: Entries, src: Path, t: Path)
    requires Tree(e) && !Exists(e, t) && MkdirAllOk(e, Dir(t))
    ensures Sub(CopyTree(e, src, t), t) == Sub(e, src)
    ensures forall k :: k in e ==> k in CopyTree(e, src, t) && CopyTree(e, src, t)[k] == e[k]
  {
    MissingIsFresh(e, t);
    var s := Sub(e, src);
    GraftBelow(t, s);
    KeepOld(e, Ancestors(Dir(t)), Graft(t, s), t);
    forall rel
      ensures t + rel in e + Ancestors(Dir(t)) + Graft(t, s) <==> rel in s
      ensures rel in s ==> (e + Ancestors(Dir(t)) + Graft(t, s))[t + rel] == s[rel]
    {
      FreshKey(e, s, t, rel);
    }
    SubIs(e + Ancestors(Dir(t)) + Graft(t, s), t, s);
  }

  /** Keys a graft below a fresh path does not reach keep their values. */
  lemma KeepOld(e: Entries, a: Entries, g: Entries, t: Path)
    requires Fresh(e, t) && forall k :: k in g ==> t <= k
    requires forall k :: k in a && k in e ==> a[k] == e[k]
    ensures forall k :: k in e ==> k in e + a + g && (e + a + g)[k] == e[k]
  {
  }

  /** Below a free target, the copy holds exactly the copied entries. */
  lemma FreshKey(e: Entries, s: Entries, t: Path, rel: Path)
    requires Fresh(e, t)
    ensures t + rel in e + Ancestors(Dir(t)) + Graft(t, s) <==> rel in s
    ensures rel in s ==> (e + Ancestors(Dir(t)) + Graft(t, s))[t + rel] == s[rel]
  {
    var k := t + rel;
    assert k[|t|..] == rel;
    GraftAt(t, s, k);
    assert k !in e;
    assert k !in Ancestors(Dir(t));
  }

  /** A map that holds `s` below `t` has `s` as its tree at `t`. */
  lemma SubIs(n: Entries, t: Path, s: Entries)
    requires t != []
    requires forall rel :: t + rel in n <==> rel in s
    requires forall rel :: rel in s ==> n[t + rel] == s[rel]
    ensures Sub(n, t) == s
  {
    forall rel | rel in Sub(n, t)
      ensures rel in s && Sub(n, t)[rel] == s[rel]
    {
      SubAt(n, t, rel);
    }
    forall rel | rel in s
      ensures rel in Sub(n, t)
    {
      SubAt(n, t, rel);
    }
  }

  /** The overwriting copy of pairtree_test.go:1024-1055 puts a directory inside an existing one. */
  lemma CopyIntoDirectory(e: Entries, src: Path, dest: Path)
    requires src != [] && IsDir(e, dest)
    ensures CopyTarget(e, src, Location(dest, false), true) == dest + [Base(src)]
  {
  }

  // ---------------------------------------------------------------------
  // Archiving

  /** The archive's file name: the cleaned prefix, the source's base name, ".tgz". */
  function ArchiveName(prefix: string, src: Path): string
  {
    Pt.EncodeChar(prefix) + Base(src) + ".tgz"
  }

  /** The archive's path inside `dest`; without overwriting, the first free numbered one. */
  function ArchiveTarget(e: Entries, src: Path, dest: Path, prefix: string, overwrite: bool): (t: Path)
    ensures Dir(t) == dest
    ensures !overwrite ==> !Exists(e, t)
  {
    var t := dest + [ArchiveName(prefix, src)];
    if overwrite then t else UniqueDestination(t, Taken(e))
  }

  /**
    What `TarGz` returns and leaves: nothing changes when the parent of
    `dest` cannot be made; otherwise the parent is made and the archive of
    `src` is written inside `dest`.
   */
  function Archived(e: Entries, src: Path, dest: Path, prefix: string, overwrite: bool): (Outcome, Entries)
  {
    if !MkdirAllOk(e, Dir(dest)) then (Failed(NotADirectory), e)
    else
      var made := e + Ancestors(Dir(dest));
      ArchiveWrite(made, src, ArchiveTarget(made, src, dest, prefix, overwrite))
  }

  /**
    `TarGz` (pairtree.go:305-329): make the parent of `dest`, then write the
    archive of `src` inside `dest`.
   */
  method TarGz(fs: FileSystem, src: Path, dest: Path, prefix: string, overwrite: bool) returns (r: Outcome)
    requires fs.Valid()
    modifies fs
    ensures fs.Valid()
    ensures (r, fs.entries) == Archived(old(fs.entries), src, dest, prefix, overwrite)
  {
    var m := fs.MkdirAll(Dir(dest));
    if m.Failed? {
      return m;
    }
    var target := dest + [ArchiveName(prefix, src)];
    if !overwrite {
      target := GetUniqueDestination(target, Taken(fs.entries));
    }
    r := fs.WriteArchive(src, target);
  }

  /**
    Without overwriting, an archive is never refused for being there
    already: it succeeds exactly when the source exists and the
    destination's directories can be made.
   */
  lemma TarGzFresh(e: Entries, src: Path, dest: Path, prefix: string)
    requires MkdirAllOk(e, Dir(dest))
    ensures var made := e + Ancestors(Dir(dest));
      var t := ArchiveTarget(made, src, dest, prefix, false);
      ArchiveWrite(made, src, t).0 != Failed(AlreadyExists)
  {
  }

  /** A folder holding the source's tree is what an archive of an existing source holds. */
  lemma ArchiveHolds(e: Entries, src: Path)
    requires Tree(e) && IsDir(e, src)
    ensures Readable(Archive(Packed(e, src)))
    ensures OneFolder(Packed(e, src)) && TopNames(Packed(e, src)) == {Base(src)}
    ensures Sub(Packed(e, src), [Base(src)]) == Sub(e, src)
  {
    PackedReadable(e, src);
    PackedOneFolder(e, src);
    PackedSub(e, src);
  }

  /** An archive of a directory holds one folder: the directory under its base name. */
  lemma PackedOneFolder(e: Entries, src: Path)
    requires IsDir(e, src)
    ensures OneFolder(Packed(e, src)) && TopNames(Packed(e, src)) == {Base(src)}
  {
    var m := Packed(e, src);
    PackedTop(e, src);
    assert |TopNames(m)| == 1;
    forall n | n in TopNames(m)
      ensures [n] in m && m[[n]].Directory?
    {
      assert n == Base(src);
    }
  }

  // ---------------------------------------------------------------------
  // Unarchiving

  /** Exactly one top-level entry, and it is a directory. */
  predicate OneFolder(members: Entries)
  {
    |TopNames(members)| == 1
    && forall n :: n in TopNames(members) ==> [n] in members && members[[n]].Directory?
  }

  /** `dest` replaced by the tree `folder`, its parents made. */
  function Unpacked(e: Entries, dest: Path, folder: Entries): Entries
  {
    Without(e, dest) + Ancestors(Dir(dest)) + Graft(dest, folder)
  }

  /**
    `UnTarGz` (pairtree.go:334-393): extract into the fresh temporary
    directory `tempDir`, check that it holds one folder named after the
    last component of `dest`, replace `dest` by that folder, and remove
    the temporary directory on every path out.
   */
  method UnTarGz(fs: FileSystem, src: Path, dest: Path, tempDir: Path) returns (r: Outcome)
    requires fs.Valid()
    requires tempDir != [] && !Exists(fs.entries, tempDir) && IsDir(fs.entries, Dir(tempDir))
    requires !(tempDir <= dest) && (dest != [] ==> !(dest <= tempDir)) && src != tempDir
    modifies fs
    ensures fs.Valid()
    ensures (r, fs.entries) == Unarchived(old(fs.entries), src, dest)
  {
    ghost var e0 := fs.entries;
    MissingIsFresh(e0, tempDir);
    fs.MkdirTemp(tempDir);
    var u := fs.Unarchive(src, tempDir);
    if u.Failed? {
      var _ := fs.RemoveAll(tempDir);
      assert e0[tempDir := Directory] + map[] == e0[tempDir := Directory];
      CleanUp(e0, tempDir, map[]);
      return u;
    }
    r := PlaceFolder(fs, dest, tempDir, e0, KindAt(e0, src).value.members);
  }

  /**
    What `UnTarGz` returns and leaves: a missing or unreadable archive
    changes nothing; otherwise its members are unpacked over `dest`.
   */
  ghost function Unarchived(e: Entries, src: Path, dest: Path): (Outcome, Entries)
  {
    if !Exists(e, src) then (Failed(NotExist), e)
    else if !Readable(KindAt(e, src).value) then (Failed(ArchiveUnreadable), e)
    else Unpack(e, KindAt(e, src).value.members, dest)
  }

  /**
    What unpacking an archive with members `members` over `dest` returns
    and leaves: exactly one folder, named like `dest`, replaces `dest`.
   */
  ghost function Unpack(e: Entries, members: Entries, dest: Path): (Outcome, Entries)
  {
    if !OneFolder(members) then (Failed(NotOneFolder), e)
    else if Base(dest) !in TopNames(members) then (Failed(FolderIdMismatch), e)
    else if dest == [] then (Failed(InvalidPath), e)
    else if !MkdirAllOk(e, Dir(dest)) then (Failed(NotADirectory), Without(e, dest))
    else (Pass, Unpacked(e, dest, Sub(members, [Base(dest)])))
  }

  /** The checks on the extracted folder, then the replacement of `dest`. */
  method PlaceFolder(fs: FileSystem, dest: Path, tempDir: Path, ghost e0: Entries, ghost members: Entries)
    returns (r: Outcome)
    requires fs.Valid() && Tree(e0) && Fresh(e0, tempDir)
    requires !(tempDir <= dest) && (dest != [] ==> !(dest <= tempDir))
    requires Readable(Archive(members))
    requires fs.entries == e0[tempDir := Directory] + Graft(tempDir, members)
    modifies fs
    ensures fs.Valid()
    ensures (r, fs.entries) == Unpack(e0, members, dest)
  {
    var id := Base(dest);
    ghost var g := Graft(tempDir, members);
    GraftBelow(tempDir, members);
    ExtractChildren(e0[tempDir := Directory], tempDir, members);
    var names := Children(fs.entries, tempDir);
    if |names| != 1 {
      var _ := fs.RemoveAll(tempDir);
      CleanUp(e0, tempDir, g);
      assert !OneFolder(members);
      return Failed(NotOneFolder);
    }
    var name :| name in names;
    OneName(names, name);
    TopNameMember(members, name);
    OneFolderChecks(members, name, id);
    ExtractedKind(e0[tempDir := Directory], tempDir, members, name);
    if !IsDir(fs.entries, tempDir + [name]) {
      var _ := fs.RemoveAll(tempDir);
      CleanUp(e0, tempDir, g);
      return Failed(NotOneFolder);
    }
    if name != id {
      var _ := fs.RemoveAll(tempDir);
      CleanUp(e0, tempDir, g);
      return Failed(FolderIdMismatch);
    }
    r := ReplaceDest(fs, dest, tempDir, e0, members);
  }

  /** With a single top-level name, the two checks on the extracted folder. */
  lemma OneFolderChecks(members: Entries, name: string, id: string)
    requires TopNames(members) == {name} && [name] in members
    ensures OneFolder(members) <==> members[[name]].Directory?
    ensures id in TopNames(members) <==> id == name
  {
  }

  /** Remove `dest` if it is there, copy the extracted folder to it, and remove the temporary directory. */
  method ReplaceDest(fs: FileSystem, dest: Path, tempDir: Path, ghost e0: Entries, ghost members: Entries)
    returns (r: Outcome)
    requires fs.Valid() && Tree(e0) && Fresh(e0, tempDir)
    requires !(tempDir <= dest) && (dest != [] ==> !(dest <= tempDir))
    requires [Base(dest)] in members
    requires fs.entries == e0[tempDir := Directory] + Graft(tempDir, members)
    modifies fs
    ensures fs.Valid()
    ensures dest == [] ==> r == Failed(InvalidPath) && fs.entries == e0
    ensures dest != [] && !MkdirAllOk(e0, Dir(dest)) ==> r == Failed(NotADirectory) && fs.entries == Without(e0, dest)
    ensures dest != [] && MkdirAllOk(e0, Dir(dest)) ==>
      r == Pass && fs.entries == Unpacked(e0, dest, Sub(members, [Base(dest)]))
  {
    var id := Base(dest);
    ghost var g := Graft(tempDir, members);
    GraftBelow(tempDir, members);
    if Exists(fs.entries, dest) {
      var d := fs.RemoveAll(dest);
      if d.Failed? {
        var _ := fs.RemoveAll(tempDir);
        CleanUp(e0, tempDir, g);
        return d;
      }
    } else {
      RemoveMissing(e0, tempDir, g, dest);
    }
    assert Apart(tempDir, dest);
    RemoveApart(e0, tempDir, g, dest);
    ghost var e3 := Without(e0, dest)[tempDir := Directory] + g;
    assert fs.entries == e3;
    ExtractKey(Without(e0, dest), tempDir, members, [id]);
    UnpackCopy(e0, tempDir, members, dest, id);
    var c := fs.Copy(tempDir + [id], dest);
    var _ := fs.RemoveAll(tempDir);
    if c.Failed? {
      CleanUp(Without(e0, dest), tempDir, g);
    } else {
      UnpackDone(e0, tempDir, g, dest, Sub(e3, tempDir + [id]));
    }
    r := c;
  }

  lemma TopNameMember(members: Entries, name: string)
    requires name in TopNames(members)
    ensures [name] in members
  {
    var r :| r in members && |r| == 1 && r[0] == name;
    assert r == [name];
  }

  lemma OneName(names: set<string>, name: string)
    requires |names| == 1 && name in names
    ensures names == {name}
  {
    if names != {name} {
      var other :| other in names && other != name;
      assert {name, other} <= names;
      SubsetCard({name, other}, names);
    }
  }

  /** Two prefixes of one path are prefixes of each other. */
  lemma Comparable(a: Path, b: Path, c: Path)
    requires a <= c && b <= c
    ensures a <= b || b <= a
  {
    if |a| <= |b| {
      assert a == b[..|a|];
    } else {
      assert b == a[..|b|];
    }
  }

  /** Nothing at or below `t` is at or below `dest`, when the two are apart. */
  lemma ApartBelow(t: Path, dest: Path, k: Path)
    requires Apart(t, dest) && t <= k
    ensures !(dest <= k)
  {
    if dest <= k {
      Comparable(t, dest, k);
    }
  }

  /**
    The temporary directory and what was extracted into it lie apart from
    `dest`: removing `dest` takes nothing from them.
   */
  lemma RemoveApart(e0: Entries, t: Path, g: Entries, dest: Path)
    requires Apart(t, dest) && forall k :: k in g ==> t <= k
    ensures Without(e0[t := Directory] + g, dest) == Without(e0, dest)[t := Directory] + g
  {
    forall k | k in g
      ensures !(dest <= k)
    {
      ApartBelow(t, dest, k);
    }
    assert !(dest <= t);
  }

  /** Removing a missing `dest` changes nothing. */
  lemma RemoveMissing(e0: Entries, t: Path, g: Entries, dest: Path)
    requires Tree(e0) && Apart(t, dest) && forall k :: k in g ==> t <= k
    requires !Exists(e0[t := Directory] + g, dest)
    ensures Without(e0[t := Directory] + g, dest) == e0[t := Directory] + g
  {
    MissingIsFresh(e0, dest);
    forall k | k in g
      ensures !(dest <= k)
    {
      ApartBelow(t, dest, k);
    }
    assert !(dest <= t);
  }

  /** A folder of an extracted archive, seen from the filesystem. */
  lemma SubOfExtract(e: Entries, t: Path, members: Entries, q: Path)
    requires Fresh(e, t) && q != []
    ensures Sub(e[t := Directory] + Graft(t, members), t + q) == Sub(members, q)
  {
    var n := e[t := Directory] + Graft(t, members);
    var s := Sub(members, q);
    forall rel
      ensures t + q + rel in n <==> rel in s
      ensures rel in s ==> n[t + q + rel] == s[rel]
    {
      ExtractSubKey(e, t, members, q, rel);
    }
    SubIs(n, t + q, s);
  }

  lemma ExtractSubKey(e: Entries, t: Path, members: Entries, q: Path, rel: Path)
    requires Fresh(e, t) && q != []
    ensures t + q + rel in e[t := Directory] + Graft(t, members) <==> rel in Sub(members, q)
    ensures rel in Sub(members, q) ==> (e[t := Directory] + Graft(t, members))[t + q + rel] == Sub(members, q)[rel]
  {
    var x := q + rel;
    Assoc(t, q, rel);
    ExtractKey(e, t, members, x);
    SubAt(members, q, rel);
    assert KindAt(members, x) == if x in members then Some(members[x]) else None;
  }

  lemma Assoc(t: Path, q: Path, rel: Path)
    ensures t + q + rel == t + (q + rel)
  {
  }

  lemma ExtractKey(e: Entries, t: Path, members: Entries, rel: Path)
    requires Fresh(e, t) && rel != []
    ensures t + rel in e[t := Directory] + Graft(t, members) <==> rel in members
    ensures rel in members ==> (e[t := Directory] + Graft(t, members))[t + rel] == members[rel]
  {
    var k := t + rel;
    assert k[|t|..] == rel;
    GraftAt(t, members, k);
    assert k !in e;
  }

  /** When nothing is at or below `dest`, the copy can only fail on the way to `dest`. */
  lemma CopyOkWhenClear(e: Entries, src: Path, dest: Path)
    requires dest != [] && forall k :: k in e ==> !(dest <= k)
    ensures CopyOk(e, src, dest) <==> MkdirAllOk(e, Dir(dest))
  {
    forall r | r in Sub(e, src)
      ensures KindAt(e, dest + r).None?
    {
      assert dest <= dest + r;
    }
  }

  /** The way to `dest` is the same with or without the temporary directory and `dest` itself. */
  lemma WayToDest(e0: Entries, t: Path, g: Entries, dest: Path)
    requires Apart(t, dest) && dest != [] && forall k :: k in g ==> t <= k
    ensures MkdirAllOk(Without(e0, dest)[t := Directory] + g, Dir(dest)) <==> MkdirAllOk(e0, Dir(dest))
  {
    var e3 := Without(e0, dest)[t := Directory] + g;
    forall k | k != [] && k <= Dir(dest)
      ensures k in e3 <==> k in e0
      ensures k in e3 ==> e3[k] == e0[k]
    {
      assert k <= dest;
      assert !(dest <= k);
    }
  }

  /** The folder to copy is the archive's folder, and the copy meets no obstacle but the parents of `dest`. */
  lemma UnpackCopy(e0: Entries, t: Path, members: Entries, dest: Path, id: string)
    requires Tree(e0) && Fresh(e0, t) && Apart(t, dest) && dest != []
    ensures var e3 := Without(e0, dest)[t := Directory] + Graft(t, members);
      && Sub(e3, t + [id]) == Sub(members, [id])
      && (CopyOk(e3, t + [id], dest) <==> MkdirAllOk(e0, Dir(dest)))
  {
    var g := Graft(t, members);
    var e3 := Without(e0, dest)[t := Directory] + g;
    GraftBelow(t, members);
    SubOfExtract(Without(e0, dest), t, members, [id]);
    forall k | k in e3
      ensures !(dest <= k)
    {
      if k in g {
        ApartBelow(t, dest, k);
      }
    }
    CopyOkWhenClear(e3, t + [id], dest);
    WayToDest(e0, t, g, dest);
  }

  /** Removing the temporary directory after the copy leaves `dest` replaced by the folder. */
  lemma CleanAfterCopy(e1: Entries, t: Path, g: Entries, a: Entries, g2: Entries)
    requires Fresh(e1, t) && forall k :: k in g ==> t <= k
    requires forall k :: k in a ==> !(t <= k)
    requires forall k :: k in g2 ==> !(t <= k)
    ensures Without(e1[t := Directory] + g + a + g2, t) == e1 + a + g2
  {
  }

  /** A successful copy, once the temporary directory is gone, leaves `dest` replaced by the archive's folder. */
  lemma UnpackDone(e0: Entries, t: Path, g: Entries, dest: Path, s: Entries)
    requires Fresh(e0, t) && Apart(t, dest) && forall k :: k in g ==> t <= k
    ensures Without(Without(e0, dest)[t := Directory] + g + Ancestors(Dir(dest)) + Graft(dest, s), t)
         == Unpacked(e0, dest, s)
  {
    var a := Ancestors(Dir(dest));
    var g2 := Graft(dest, s);
    GraftBelow(dest, s);
    forall k | k in a
      ensures !(t <= k)
    {
      if t <= k {
        Comparable(t, k, dest);
      }
    }
    forall k | k in g2
      ensures !(t <= k)
    {
      if t <= k {
        Comparable(t, dest, k);
      }
    }
    CleanAfterCopy(Without(e0, dest), t, g, a, g2);
  }

  // ---------------------------------------------------------------------
  // Round trip

  /**
    Unpacking what `TarGz` packed from a directory, over a destination with
    the directory's own name, succeeds and reproduces the directory's tree
    at the destination; over a destination with another name it is refused
    and nothing changes.
   */
  lemma ArchiveRoundTrip(e: Entries, src: Path, later: Entries, dest: Path)
    requires Tree(e) && IsDir(e, src) && dest != [] && MkdirAllOk(later, Dir(dest))
    ensures Base(dest) == Base(src) ==>
      var u := Unpack(later, Packed(e, src), dest);
      u.0 == Pass && Sub(u.1, dest) == Sub(e, src)
    ensures Base(dest) != Base(src) ==> Unpack(later, Packed(e, src), dest) == (Failed(FolderIdMismatch), later)
  {
    ArchiveHolds(e, src);
    if Base(dest) == Base(src) {
      SubOfUnpacked(later, dest, Sub(e, src));
    }
  }

  /**
    `ptcp -a` of an object followed by `ptcp -a` of the archive back over
    the object: without -d the archive gets a new name inside `out`, and
    unpacking it over the object reproduces the object's tree, provided
    `out` can be made and does not lie inside the object.
   */
  lemma ArchiveRestores(e: Entries, src: Path, out: Path, prefix: string)
    requires Tree(e) && IsDir(e, src) && src != []
    requires MkdirAllOk(e, out) && !(src <= out)
    ensures var made := e + Ancestors(Dir(out));
      var t := ArchiveTarget(made, src, out, prefix, false);
      var a := Archived(e, src, out, prefix, false);
      && a.0 == Pass
      && Unarchived(a.1, t, src).0 == Pass
      && Sub(Unarchived(a.1, t, src).1, src) == Sub(e, src)
  {
    var made := e + Ancestors(Dir(out));
    var t := ArchiveTarget(made, src, out, prefix, false);
    var made2 := made + Ancestors(out);
    ArchiveStep(e, src, out, prefix);
    UnarchiveStep(made2, src, t);
    SubOverride(e, Ancestors(Dir(out)), src);
    SubOverride(made, Ancestors(out), src);
  }

  /** The archive step of `ArchiveRestores`: it succeeds, under a new name inside `out`. */
  lemma ArchiveStep(e: Entries, src: Path, out: Path, prefix: string)
    requires Tree(e) && IsDir(e, src) && src != [] && MkdirAllOk(e, out)
    ensures var made := e + Ancestors(Dir(out));
      var t := ArchiveTarget(made, src, out, prefix, false);
      var made2 := made + Ancestors(out);
      && Tree(made2) && IsDir(made2, src) && t !in made2 && Dir(t) == out
      && Archived(e, src, out, prefix, false) == (Pass, made2[t := Archive(Packed(made2, src))])
  {
    var made := e + Ancestors(Dir(out));
    MkdirAllStages(e, out);
    MkdirAllTree(e, Dir(out));
    MkdirAllTree(made, out);
    var t := ArchiveTarget(made, src, out, prefix, false);
    var made2 := made + Ancestors(out);
    assert !Exists(made, t);
    assert t !in Ancestors(out) by {
      assert |t| == |out| + 1;
    }
    assert IsDir(made2, src);
    assert ArchiveWrite(made, src, t) == (Pass, made2[t := Archive(Packed(made2, src))]);
  }

  /** Directories that can be made up to `p` can be made in two stages: the parent, then `p`. */
  lemma MkdirAllStages(e: Entries, p: Path)
    requires MkdirAllOk(e, p)
    ensures MkdirAllOk(e, Dir(p)) && MkdirAllOk(e + Ancestors(Dir(p)), p)
  {
    assert Dir(p) <= p;
  }

  /** The unarchive step of `ArchiveRestores`: the archive written at `t` unpacks over `src`. */
  lemma UnarchiveStep(m: Entries, src: Path, t: Path)
    requires Tree(m) && IsDir(m, src) && src != [] && t != [] && t !in m
    ensures var u := Unarchived(m[t := Archive(Packed(m, src))], t, src);
      u.0 == Pass && Sub(u.1, src) == Sub(m, src)
  {
    var packed := Packed(m, src);
    var e1 := m[t := Archive(packed)];
    ParentsStay(m, t, Archive(packed), src);
    ArchiveHolds(m, src);
    assert Unarchived(e1, t, src) == Unpack(e1, packed, src);
    ArchiveRoundTrip(m, src, e1, src);
  }

  /** Adding a new path keeps the parents of every existing path directories. */
  lemma ParentsStay(m: Entries, t: Path, x: Kind, src: Path)
    requires Tree(m) && src in m && t !in m
    ensures MkdirAllOk(m[t := x], Dir(src))
  {
    var n := m[t := x];
    forall k | k in n && k != [] && k <= Dir(src)
      ensures n[k].Directory?
    {
      assert k == src[..|k|];
    }
  }

  /** Entries added away from `p` leave the tree under `p` alone. */
  lemma SubOverride(e: Entries, a: Entries, p: Path)
    requires forall k :: k in a ==> !(p <= k)
    ensures Sub(e + a, p) == Sub(e, p)
  {
    var n := e + a;
    forall rel
      ensures rel in Sub(n, p) <==> rel in Sub(e, p)
      ensures rel in Sub(e, p) ==> Sub(n, p)[rel] == Sub(e, p)[rel]
    {
      SubAt(n, p, rel);
      SubAt(e, p, rel);
      assert p <= p + rel;
      assert KindAt(n, p + rel) == KindAt(e, p + rel);
    }
    assert Sub(n, p).Keys == Sub(e, p).Keys;
  }

  /** After unpacking, the tree at `dest` is the folder. */
  lemma SubOfUnpacked(e: Entries, dest: Path, s: Entries)
    requires dest != []
    ensures Sub(Unpacked(e, dest, s), dest) == s
  {
    var n := Unpacked(e, dest, s);
    forall rel
      ensures dest + rel in n <==> rel in s
      ensures rel in s ==> n[dest + rel] == s[rel]
    {
      var k := dest + rel;
      assert k[|dest|..] == rel;
      GraftAt(dest, s, k);
      assert k !in Without(e, dest);
      assert k !in Ancestors(Dir(dest));
    }
    SubIs(n, dest, s);
  }
}
