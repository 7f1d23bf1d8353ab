/**
  `BuildDirectoryTree` (pkg/pairtree/pairtree.go:184-209, and its twin at
  pkg/pt/pt.go:197-222): the nested `Directory` value that the JSON listing
  prints, projected from a directory-entry map.  Directory entries become
  sub-directories, built from the map in turn; file entries become `File`
  leaves; both keep the order of the map's lists.
 */
module DirTree {
  import opened Errors
  import opened Paths
  import opened Walker

  datatype File = File(name: string)

  datatype Directory = Directory(name: string, directories: seq<Directory>, files: seq<File>)

  /** The keys at or below `p`; it shrinks at each level of the recursion. */
  function KeysUnder(m: EntryMap, p: Path): set<Path>
  {
    set k | k in m && p <= k
  }

  lemma KeysUnderShrink(m: EntryMap, p: Path, x: string)
    requires p in m
    ensures KeysUnder(m, p + [x]) < KeysUnder(m, p)
  {
    assert p in KeysUnder(m, p);
    assert p !in KeysUnder(m, p + [x]);
  }

  /** The directory entries of a list, in order. */
  function DirEntries(es: seq<DirEntry>): (r: seq<DirEntry>)
    ensures |r| <= |es|
    ensures forall i :: 0 <= i < |r| ==> r[i].isDir
  {
    if es == [] then []
    else (if es[0].isDir then [es[0]] else []) + DirEntries(es[1..])
  }

  /** The file leaves of a list of entries, in order. */
  function FilesOf(es: seq<DirEntry>): (r: seq<File>)
    ensures |r| + |DirEntries(es)| == |es|
  {
    if es == [] then []
    else (if es[0].isDir then [] else [File(es[0].name)]) + FilesOf(es[1..])
  }

  /** A name is a file leaf exactly when some non-directory entry of the list carries it. */
  lemma {:induction false} FilesOfMember(es: seq<DirEntry>, n: string)
    ensures File(n) in FilesOf(es) <==> exists i :: 0 <= i < |es| && !es[i].isDir && es[i].name == n
  {
    if es != [] {
      FilesOfMember(es[1..], n);
      if exists i :: 1 <= i < |es| && !es[i].isDir && es[i].name == n {
        var i :| 1 <= i < |es| && !es[i].isDir && es[i].name == n;
        assert es[1..][i - 1] == es[i];
      }
      if exists j :: 0 <= j < |es[1..]| && !es[1..][j].isDir && es[1..][j].name == n {
        var j :| 0 <= j < |es[1..]| && !es[1..][j].isDir && es[1..][j].name == n;
        assert es[j + 1] == es[1..][j];
      }
    }
  }

  /** File leaves keep the order of the list: a split list gives the leaves of each part in turn. */
  lemma {:induction false} FilesOfAppend(a: seq<DirEntry>, b: seq<DirEntry>)
    ensures FilesOf(a + b) == FilesOf(a) + FilesOf(b)
  {
    if a != [] {
      var head: seq<File> := if a[0].isDir then [] else [File(a[0].name)];
      calc {
        FilesOf(a + b);
      == { assert (a + b)[0] == a[0] && (a + b)[1..] == a[1..] + b; }
        head + FilesOf(a[1..] + b);
      == { FilesOfAppend(a[1..], b); }
        head + (FilesOf(a[1..]) + FilesOf(b));
      ==
        (head + FilesOf(a[1..])) + FilesOf(b);
      }
    } else {
      assert a + b == b;
    }
  }

  /**
    `BuildDirectoryTree`: the first call names the node after the whole path,
    deeper calls after the last component.  A path without a key has no
    children.  The model always terminates: each level looks only at keys
    strictly below the one it came from.  Go's recursion has no such bound:
    an entry named "" or "." would be joined back onto the same key and
    revisited forever, but a real `os.ReadDir` never yields such a name.
   */
  function BuildDirectoryTree(path: Path, m: EntryMap, isFirstIteration: bool): (d: Directory)
    ensures d.name == if isFirstIteration then PathString(path) else Base(path)
    ensures path !in m ==> d.directories == [] && d.files == []
    ensures |d.directories| == |DirEntries(Get(m, path))|
    ensures forall i :: 0 <= i < |d.directories| ==> d.directories[i].name == DirEntries(Get(m, path))[i].name
    ensures |d.directories| + |d.files| == |Get(m, path)|
    ensures d.files == FilesOf(Get(m, path))
    decreases KeysUnder(m, path), 1, 0
  {
    var entries := Get(m, path);
    Directory(if isFirstIteration then PathString(path) else Base(path),
              SubDirectories(path, m, entries),
              FilesOf(entries))
  }

  /** The sub-directories built for the directory entries of `es`, a suffix of the list of `path`. */
  function SubDirectories(path: Path, m: EntryMap, es: seq<DirEntry>): (r: seq<Directory>)
    requires es != [] ==> path in m
    ensures |r| == |DirEntries(es)|
    ensures forall i :: 0 <= i < |r| ==> r[i].name == DirEntries(es)[i].name
    decreases KeysUnder(m, path), 0, |es|
  {
    if es == [] then []
    else
      var rest := SubDirectories(path, m, es[1..]);
      if es[0].isDir then
        KeysUnderShrink(m, path, es[0].name);
        var d := BuildDirectoryTree(path + [es[0].name], m, false);
        assert DirEntries(es) == [es[0]] + DirEntries(es[1..]);
        [d] + rest
      else
        assert DirEntries(es) == DirEntries(es[1..]);
        rest
  }

  // ---------------------------------------------------------------------
  // The tree of a real directory

  /** The sub-directories of a directory with children `cs`, read straight from the tree. */
  function MirrorDirs(cs: seq<Node>): seq<Directory>
    decreases cs
  {
    if cs == [] then []
    else
      var n := cs[0];
      (if n.DirNode? then [Directory(n.name, MirrorDirs(n.children), MirrorFiles(n.children))] else [])
      + MirrorDirs(cs[1..])
  }

  /** The files of a directory with children `cs`, read straight from the tree. */
  function MirrorFiles(cs: seq<Node>): seq<File>
  {
    if cs == [] then []
    else (if cs[0].FileNode? then [File(cs[0].name)] else []) + MirrorFiles(cs[1..])
  }

  /** `m` lists the directory `p` with children `cs`, and each of its subdirectories, as they are. */
  ghost predicate Agrees(m: EntryMap, p: Path, cs: seq<Node>)
  {
    && Get(m, p) == Entries(cs)
    && forall rel :: rel != [] && At(cs, rel).Some? && At(cs, rel).value.DirNode? ==>
         Get(m, p + rel) == Entries(At(cs, rel).value.children)
  }

  lemma {:induction false} FilesMirror(cs: seq<Node>)
    ensures FilesOf(Entries(cs)) == MirrorFiles(cs)
  {
    if cs != [] {
      assert Entries(cs)[1..] == Entries(cs[1..]);
      FilesMirror(cs[1..]);
    }
  }

  /** A subdirectory of an agreeing listing agrees too. */
  lemma AgreesChild(m: EntryMap, p: Path, cs: seq<Node>, i: nat)
    requires WellFormed(cs) && i < |cs| && cs[i].DirNode?
    requires Agrees(m, p, cs)
    ensures Agrees(m, p + [cs[i].name], cs[i].children)
  {
    var c := cs[i];
    FindDistinct(cs, i);
    assert At(cs, [c.name]) == Some(c);
    forall rel | rel != [] && At(c.children, rel).Some? && At(c.children, rel).value.DirNode?
      ensures Get(m, p + [c.name] + rel) == Entries(At(c.children, rel).value.children)
    {
      var full := [c.name] + rel;
      assert full[0] == c.name && full[1..] == rel;
      assert At(cs, full) == At(c.children, rel);
      assert p + full == p + [c.name] + rel;
    }
  }

  /**
    Building the tree from a listing that agrees with a real directory gives
    that directory's own tree: every subdirectory and every file, in order.
   */
  lemma {:induction false} BuildMirrors(p: Path, cs: seq<Node>, m: EntryMap)
    requires WellFormed(cs) && Agrees(m, p, cs)
    ensures BuildDirectoryTree(p, m, false) == Directory(Base(p), MirrorDirs(cs), MirrorFiles(cs))
    decreases cs, 1, 0
  {
    FilesMirror(cs);
    assert Entries(cs)[0..] == Entries(cs);
    assert cs[0..] == cs;
    if Entries(cs) != [] {
      assert p in m;
    }
    SubDirectoriesMirror(p, cs, m, 0);
  }

  lemma {:induction false} SubDirectoriesMirror(p: Path, cs: seq<Node>, m: EntryMap, k: nat)
    requires WellFormed(cs) && Agrees(m, p, cs) && k <= |cs|
    requires Entries(cs) != [] ==> p in m
    ensures SubDirectories(p, m, Entries(cs)[k..]) == MirrorDirs(cs[k..])
    decreases cs, 0, |cs| - k
  {
    if k < |cs| {
      var es := Entries(cs)[k..];
      assert es[0] == EntryOf(cs[k]);
      assert es[1..] == Entries(cs)[k + 1..];
      assert cs[k..][0] == cs[k] && cs[k..][1..] == cs[k + 1..];
      SubDirectoriesMirror(p, cs, m, k + 1);
      if cs[k].DirNode? {
        AgreesChild(m, p, cs, k);
        BuildMirrors(p + [cs[k].name], cs[k].children, m);
      }
    }
  }

  /**
    The JSON tree of a recursive listing is the directory's own tree: the
    root is named after the whole path, and nothing is lost or reordered.
   */
  lemma RecursiveListingTree(start: Path, cs: seq<Node>)
    requires WellFormed(cs)
    ensures BuildDirectoryTree(start, RecursiveListing(start, cs), true)
         == Directory(PathString(start), MirrorDirs(cs), MirrorFiles(cs))
  {
    var m := RecursiveListing(start, cs);
    RecursiveListingStart(start, cs);
    assert Get(m, start) == Entries(cs);
    forall rel | rel != [] && At(cs, rel).Some? && At(cs, rel).value.DirNode?
      ensures Get(m, start + rel) == Entries(At(cs, rel).value.children)
    {
      BelowAt(start, cs, rel);
      assert start + rel != start;
    }
    BuildMirrors(start, cs, m);
    assert BuildDirectoryTree(start, m, true).directories == BuildDirectoryTree(start, m, false).directories;
  }
}
