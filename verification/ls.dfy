/**
  The `ptls` command (cmd/ptls/ptls.go:54-215): find the pairtree root,
  take the identifier from the last argument, check the root's marker
  files, build the object's pairpath, list it (one level, or recursively
  with -r), drop everything but directories with -d, drop hidden names
  unless -a is given, and render the result as a listing or, with -j, as
  the JSON directory tree.

  The disk is given as the children of the file-system root (a
  `seq<Node>`), the marker files as values and the PAIRTREE_ROOT variable
  as a string.  Printing is not modelled: the text form is the filtered
  map itself, whose iteration order Go leaves unspecified.
 */
module Ls {
  import opened Errors
  import opened Paths
  import Markers
  import Pt
  import opened Pairtree
  import opened Walker
  import opened DirTree
  import opened Command

  /** The command-line flags -a, -d, -j, -r and -p. */
  datatype Flags = Flags(showAll: bool, dirsOnly: bool, json: bool, recursive: bool, root: string)

  /** What the command prints: the entry map as text, or the JSON tree. */
  datatype Output = Text(entries: EntryMap) | Json(tree: Directory)

  // ---------------------------------------------------------------------
  // Filtering one list of entries

  /** The entries of a list whose names do not start with a dot, in order. */
  function Visible(es: seq<DirEntry>): seq<DirEntry>
  {
    if es == [] then []
    else (if IsHidden(es[0].name) then [] else [es[0]]) + Visible(es[1..])
  }

  lemma {:induction false} DirEntriesSnoc(es: seq<DirEntry>, e: DirEntry)
    ensures DirEntries(es + [e]) == DirEntries(es) + (if e.isDir then [e] else [])
  {
    if es != [] {
      assert (es + [e])[1..] == es[1..] + [e];
      DirEntriesSnoc(es[1..], e);
    }
  }

  lemma {:induction false} VisibleSnoc(es: seq<DirEntry>, e: DirEntry)
    ensures Visible(es + [e]) == Visible(es) + (if IsHidden(e.name) then [] else [e])
  {
    if es != [] {
      assert (es + [e])[1..] == es[1..] + [e];
      VisibleSnoc(es[1..], e);
    }
  }

  /** An entry survives the directory filter exactly when it is a directory of the list. */
  lemma {:induction false} DirEntriesMember(es: seq<DirEntry>, e: DirEntry)
    ensures e in DirEntries(es) <==> e in es && e.isDir
  {
    if es != [] {
      DirEntriesMember(es[1..], e);
      assert es == [es[0]] + es[1..];
    }
  }

  /** An entry survives the hidden filter exactly when it is a visible entry of the list. */
  lemma {:induction false} VisibleMember(es: seq<DirEntry>, e: DirEntry)
    ensures e in Visible(es) <==> e in es && !IsHidden(e.name)
  {
    if es != [] {
      VisibleMember(es[1..], e);
      assert es == [es[0]] + es[1..];
    }
  }

  lemma {:induction false} DirEntriesIdempotent(es: seq<DirEntry>)
    ensures DirEntries(DirEntries(es)) == DirEntries(es)
  {
    if es != [] {
      DirEntriesIdempotent(es[1..]);
      var t := DirEntries(es);
      if es[0].isDir {
        assert t == [es[0]] + DirEntries(es[1..]);
        assert t[0] == es[0] && t[1..] == DirEntries(es[1..]);
      } else {
        assert t == DirEntries(es[1..]);
      }
    }
  }

  lemma {:induction false} VisibleIdempotent(es: seq<DirEntry>)
    ensures Visible(Visible(es)) == Visible(es)
  {
    if es != [] {
      VisibleIdempotent(es[1..]);
      var t := Visible(es);
      if !IsHidden(es[0].name) {
        assert t == [es[0]] + Visible(es[1..]);
        assert t[0] == es[0] && t[1..] == Visible(es[1..]);
      } else {
        assert t == Visible(es[1..]);
      }
    }
  }

  /** The inner loop of the -d filter (ptls.go:148-153). */
  method KeepDirectories(es: seq<DirEntry>) returns (r: seq<DirEntry>)
    ensures r == DirEntries(es)
  {
    r := [];
    for i := 0 to |es|
      invariant r == DirEntries(es[..i])
    {
      DirEntriesSnoc(es[..i], es[i]);
      assert es[..i + 1] == es[..i] + [es[i]];
      if es[i].isDir {
        r := r + [es[i]];
      }
    }
    assert es[..|es|] == es;
  }

  /** The inner loop of the hidden filter (ptls.go:173-178). */
  method KeepVisible(es: seq<DirEntry>) returns (r: seq<DirEntry>)
    ensures r == Visible(es)
  {
    r := [];
    for i := 0 to |es|
      invariant r == Visible(es[..i])
    {
      VisibleSnoc(es[..i], es[i]);
      assert es[..i + 1] == es[..i] + [es[i]];
      if !IsHidden(es[i].name) {
        r := r + [es[i]];
      }
    }
    assert es[..|es|] == es;
  }

  // ---------------------------------------------------------------------
  // Filtering the whole map

  /** The -d filter: each key keeps its directories, and a key with none is dropped. */
  function DirsOnly(m: EntryMap): EntryMap
  {
    map k | k in m && DirEntries(m[k]) != [] :: DirEntries(m[k])
  }

  /**
    The hidden filter: a key whose own last component is hidden is dropped,
    the others keep their visible entries, and a key with none is dropped.
   */
  function HideHidden(m: EntryMap): EntryMap
  {
    map k | k in m && !IsHidden(Base(k)) && Visible(m[k]) != [] :: Visible(m[k])
  }

  /**
    ptls.go:145-160, deleting and replacing keys of the map while ranging
    over it; every key is visited once, so the outcome does not depend on
    the order Go picks.
   */
  method FilterDirsOnly(m0: EntryMap) returns (m: EntryMap)
    ensures m == DirsOnly(m0)
  {
    m := m0;
    var todo := m0.Keys;
    while todo != {}
      invariant todo <= m0.Keys
      invariant forall k :: k in m <==> k in m0 && (k in todo || DirEntries(m0[k]) != [])
      invariant forall k :: k in m ==> m[k] == if k in todo then m0[k] else DirEntries(m0[k])
      decreases |todo|
    {
      var key :| key in todo;
      var filtered := KeepDirectories(m[key]);
      if |filtered| > 0 {
        m := m[key := filtered];
      } else {
        m := m - {key};
      }
      todo := todo - {key};
    }
    assert m.Keys == DirsOnly(m0).Keys;
  }

  /** ptls.go:163-187, in the same manner. */
  method FilterHidden(m0: EntryMap) returns (m: EntryMap)
    ensures m == HideHidden(m0)
  {
    m := m0;
    var todo := m0.Keys;
    while todo != {}
      invariant todo <= m0.Keys
      invariant forall k :: k in m <==>
        k in m0 && (k in todo || (!IsHidden(Base(k)) && Visible(m0[k]) != []))
      invariant forall k :: k in m ==> m[k] == if k in todo then m0[k] else Visible(m0[k])
      decreases |todo|
    {
      var key :| key in todo;
      if IsHidden(Base(key)) {
        m := m - {key};
      } else {
        var filtered := KeepVisible(m[key]);
        if |filtered| > 0 {
          m := m[key := filtered];
        } else {
          m := m - {key};
        }
      }
      todo := todo - {key};
    }
    assert m.Keys == HideHidden(m0).Keys;
  }

  /**
    After -d every listed entry is a directory, every directory of the
    original lists is still there under its key, and no key lists nothing.
   */
  lemma DirsOnlyExact(m: EntryMap, k: Path, e: DirEntry)
    ensures k in DirsOnly(m) ==> DirsOnly(m)[k] != []
    ensures k in DirsOnly(m) && e in DirsOnly(m)[k] <==> k in m && e in m[k] && e.isDir
  {
    DirEntriesMember(Get(m, k), e);
  }

  /**
    After the hidden filter no key's last component and no listed name
    starts with a dot, every visible entry under a visible key is still
    there, and no key lists nothing.
   */
  lemma HideHiddenExact(m: EntryMap, k: Path, e: DirEntry)
    ensures k in HideHidden(m) ==> !IsHidden(Base(k)) && HideHidden(m)[k] != []
    ensures k in HideHidden(m) && e in HideHidden(m)[k] <==>
      k in m && !IsHidden(Base(k)) && e in m[k] && !IsHidden(e.name)
  {
    VisibleMember(Get(m, k), e);
  }

  /** Filtering twice changes nothing. */
  lemma FiltersIdempotent(m: EntryMap)
    ensures DirsOnly(DirsOnly(m)) == DirsOnly(m)
    ensures HideHidden(HideHidden(m)) == HideHidden(m)
  {
    var d, h := DirsOnly(m), HideHidden(m);
    forall k | k in d
      ensures k in DirsOnly(d) && DirsOnly(d)[k] == d[k]
    {
      DirEntriesIdempotent(m[k]);
    }
    forall k | k in h
      ensures k in HideHidden(h) && HideHidden(h)[k] == h[k]
    {
      VisibleIdempotent(m[k]);
    }
    assert DirsOnly(d).Keys == d.Keys;
    assert HideHidden(h).Keys == h.Keys;
  }

  // ---------------------------------------------------------------------
  // The command

  /** ptls.go:131-143: the listing of the node found at the pairpath. */
  function Listed(start: Path, at: Option<Node>, recursive: bool): Result<EntryMap>
  {
    if !recursive then NonRecursiveFiles(start, at)
    else match at
      case None => Err(NotExist)
      case Some(FileNode(_)) => Ok(map[])
      case Some(DirNode(_, cs)) => Ok(RecursiveListing(start, cs))
  }

  /** ptls.go:145-187: -d first, then the hidden filter unless -a. */
  function Filtered(f: Flags, m: EntryMap): EntryMap
  {
    var d := if f.dirsOnly then DirsOnly(m) else m;
    if f.showAll then d else HideHidden(d)
  }

  /** ptls.go:189-211: the JSON tree is rooted at the pairpath. */
  function Render(f: Flags, pairPath: Path, m: EntryMap): Output
  {
    if f.json then Json(BuildDirectoryTree(pairPath, m, true)) else Text(m)
  }

  /** The pairpath of a well-formed command line, once the markers are read. */
  function PairPathOf(args: seq<string>, f: Flags, env: string,
                      version: Markers.MarkerFile, prefixFile: Markers.MarkerFile): Result<Path>
  {
    var root := RootOf(f.root, env);
    if root == "" then Err(RootNotSet)
    else if args == [] then Err(NoId)
    else match PrefixOf(version, prefixFile)
      case Err(e) => Err(e)
      case Ok(prefix) => CreatePP(args[|args| - 1], root, prefix)
  }

  /** Every pairpath ends below the storage directory of its root. */
  lemma PairPathShape(args: seq<string>, f: Flags, env: string,
                      version: Markers.MarkerFile, prefixFile: Markers.MarkerFile)
    requires PairPathOf(args, f, env, version, prefixFile).Ok?
    ensures var pp := PairPathOf(args, f, env, version, prefixFile).value;
      pp != [] && !IsHidden(Base(pp))
  {
    var root := RootOf(f.root, env);
    var prefix := PrefixOf(version, prefixFile).value;
    var id := args[|args| - 1];
    CreatePPShape(id, root, prefix);
    var pp := CreatePP(id, root, prefix).value;
    var enc := Pt.EncodeChar(id[|prefix|..]);
    if enc == [] {
      assert Base(pp) == Pt.RootDir && Pt.RootDir[0] == 'p';
    } else {
      assert Base(pp)[0] != '.';
    }
  }

  /** What `Run` returns for a command line, an environment and a disk. */
  function Ls(args: seq<string>, f: Flags, env: string,
              version: Markers.MarkerFile, prefixFile: Markers.MarkerFile,
              disk: seq<Node>): Result<Output>
  {
    match PairPathOf(args, f, env, version, prefixFile)
    case Err(e) => Err(e)
    case Ok(pp) =>
      PairPathShape(args, f, env, version, prefixFile);
      Show(pp, f, disk)
  }

  /** What is shown for the pairpath `pp` once it is known. */
  function Show(pp: Path, f: Flags, disk: seq<Node>): Result<Output>
    requires pp != []
  {
    match Listed(pp, At(disk, pp), f.recursive)
    case Err(e) => Err(e)
    case Ok(m) => Ok(Render(f, pp, Filtered(f, m)))
  }

  /** `Run` (ptls.go:54-215). */
  method Run(args: seq<string>, f: Flags, env: string,
             version: Markers.MarkerFile, prefixFile: Markers.MarkerFile,
             disk: seq<Node>) returns (r: Result<Output>)
    ensures r == Ls(args, f, env, version, prefixFile, disk)
  {
    var ptRoot := f.root;
    if ptRoot == "" {
      if env != "" {
        ptRoot := env;
      } else {
        return Err(RootNotSet);
      }
    }
    if |args| < 1 {
      return Err(NoId);
    }
    var id := args[|args| - 1];
    var checked := Markers.CheckPTVer(version);
    if checked.Failed? {
      return Err(checked.error);
    }
    var prefix := Markers.GetPrefix(prefixFile);
    if prefix.Err? {
      return Err(prefix.error);
    }
    var pre := prefix.value;
    if pre == "" {
      pre := PtPrefix;
    }
    var pairPath := CreatePP(id, ptRoot, pre);
    if pairPath.Err? {
      return Err(pairPath.error);
    }
    PairPathShape(args, f, env, version, prefixFile);
    r := ShowPairPath(pairPath.value, f, disk);
  }

  /** ptls.go:131-211: list the object, filter the listing and render it. */
  method ShowPairPath(pp: Path, f: Flags, disk: seq<Node>) returns (r: Result<Output>)
    requires pp != []
    ensures r == Show(pp, f, disk)
  {
    var listed: Result<EntryMap>;
    if f.recursive {
      listed := RecursiveFiles(pp, At(disk, pp));
    } else {
      listed := NonRecursiveFiles(pp, At(disk, pp));
    }
    if listed.Err? {
      return Err(listed.error);
    }
    var ptMap := listed.value;
    if f.dirsOnly {
      ptMap := FilterDirsOnly(ptMap);
    }
    if !f.showAll {
      ptMap := FilterHidden(ptMap);
    }
    if f.json {
      return Ok(Json(BuildDirectoryTree(pp, ptMap, true)));
    }
    return Ok(Text(ptMap));
  }

  // ---------------------------------------------------------------------
  // What the command promises

  /**
    The errors come in the order the command checks for them: no root, no
    identifier, then the version file, then the prefix file.
   */
  lemma LsErrorOrder(args: seq<string>, f: Flags, env: string,
                     version: Markers.MarkerFile, prefixFile: Markers.MarkerFile, disk: seq<Node>)
    ensures var r := Ls(args, f, env, version, prefixFile, disk);
      && (r == Err(RootNotSet) <==> f.root == "" && env == "")
      && (RootOf(f.root, env) != "" && args == [] ==> r == Err(NoId))
      && (RootOf(f.root, env) != "" && args != [] && version.Absent? ==> r == Err(NotExist))
      && (RootOf(f.root, env) != "" && args != [] && version == Markers.Present("") ==> r == Err(VersionFileEmpty))
      && ((RootOf(f.root, env) != "" && args != [] && Markers.CheckPTVer(version).Pass?
             && prefixFile == Markers.Present("")) ==> r == Err(PrefixFileEmpty))
  {
    var root := RootOf(f.root, env);
    if root != "" && args != [] && PrefixOf(version, prefixFile).Ok? {
      var pp := CreatePP(args[|args| - 1], root, PrefixOf(version, prefixFile).value);
      if pp.Ok? {
        PairPathShape(args, f, env, version, prefixFile);
      }
    }
  }

  /** Only the last argument is the identifier. */
  lemma LsUsesLastArgument(a: seq<string>, b: seq<string>, id: string, f: Flags, env: string,
                           version: Markers.MarkerFile, prefixFile: Markers.MarkerFile, disk: seq<Node>)
    ensures Ls(a + [id], f, env, version, prefixFile, disk) == Ls(b + [id], f, env, version, prefixFile, disk)
  {
    assert (a + [id])[|a + [id]| - 1] == id;
    assert (b + [id])[|b + [id]| - 1] == id;
  }

  /** An object that is not on disk is reported, with or without -r. */
  lemma LsMissing(args: seq<string>, f: Flags, env: string,
                  version: Markers.MarkerFile, prefixFile: Markers.MarkerFile, disk: seq<Node>)
    requires PairPathOf(args, f, env, version, prefixFile).Ok?
    requires var pp := PairPathOf(args, f, env, version, prefixFile).value;
      pp != [] && At(disk, pp).None?
    ensures Ls(args, f, env, version, prefixFile, disk) == Err(NotExist)
  {
  }

  /**
    Without -a, nothing hidden is shown: no listed directory's last
    component and no listed name starts with a dot, and with -d every
    listed entry is a directory.  No directory is listed with nothing under it.
   */
  lemma LsShowsNothingHidden(args: seq<string>, f: Flags, env: string,
                             version: Markers.MarkerFile, prefixFile: Markers.MarkerFile,
                             disk: seq<Node>, k: Path, e: DirEntry)
    requires Ls(args, f, env, version, prefixFile, disk).Ok?
    requires Ls(args, f, env, version, prefixFile, disk).value.Text?
    requires k in Ls(args, f, env, version, prefixFile, disk).value.entries
    ensures var es := Ls(args, f, env, version, prefixFile, disk).value.entries[k];
      && (!f.showAll ==> !IsHidden(Base(k)) && es != [] && (e in es ==> !IsHidden(e.name)))
      && (f.dirsOnly ==> es != [] && (e in es ==> e.isDir))
  {
    var pp := PairPathOf(args, f, env, version, prefixFile).value;
    PairPathShape(args, f, env, version, prefixFile);
    var m := Listed(pp, At(disk, pp), f.recursive).value;
    var d := if f.dirsOnly then DirsOnly(m) else m;
    if f.dirsOnly {
      DirsOnlyExact(m, k, e);
      if !f.showAll {
        HideHiddenExact(d, k, e);
      }
    } else if !f.showAll {
      HideHiddenExact(d, k, e);
    }
  }

  /**
    `ptls -a -r -j` on a well-formed disk prints the object directory's
    own tree: every subdirectory and file, in order, with the root named
    after the whole pairpath.
   */
  lemma LsRecursiveJson(args: seq<string>, f: Flags, env: string,
                        version: Markers.MarkerFile, prefixFile: Markers.MarkerFile, disk: seq<Node>)
    requires f.showAll && !f.dirsOnly && f.json && f.recursive && WellFormed(disk)
    requires PairPathOf(args, f, env, version, prefixFile).Ok?
    requires var pp := PairPathOf(args, f, env, version, prefixFile).value;
      pp != [] && At(disk, pp).Some? && At(disk, pp).value.DirNode?
    ensures var pp := PairPathOf(args, f, env, version, prefixFile).value;
      var cs := At(disk, pp).value.children;
      Ls(args, f, env, version, prefixFile, disk)
        == Ok(Json(Directory(PathString(pp), MirrorDirs(cs), MirrorFiles(cs))))
  {
    var pp := PairPathOf(args, f, env, version, prefixFile).value;
    AtWellFormed(disk, pp);
    RecursiveListingTree(pp, At(disk, pp).value.children);
  }

  /**
    A plain `ptls` lists the object directory's visible entries, in the
    order the directory gives them, under the pairpath alone.
   */
  lemma LsPlain(args: seq<string>, f: Flags, env: string,
                version: Markers.MarkerFile, prefixFile: Markers.MarkerFile, disk: seq<Node>)
    requires !f.showAll && !f.dirsOnly && !f.json && !f.recursive
    requires PairPathOf(args, f, env, version, prefixFile).Ok?
    requires var pp := PairPathOf(args, f, env, version, prefixFile).value;
      pp != [] && At(disk, pp).Some? && At(disk, pp).value.DirNode?
    ensures var pp := PairPathOf(args, f, env, version, prefixFile).value;
      var vs := Visible(Entries(At(disk, pp).value.children));
      Ls(args, f, env, version, prefixFile, disk)
        == Ok(Text(if vs == [] then map[] else map[pp := vs]))
  {
    var pp := PairPathOf(args, f, env, version, prefixFile).value;
    PairPathShape(args, f, env, version, prefixFile);
    ShowPlain(pp, f, disk);
  }

  lemma ShowPlain(pp: Path, f: Flags, disk: seq<Node>)
    requires !f.showAll && !f.dirsOnly && !f.json && !f.recursive
    requires pp != [] && !IsHidden(Base(pp)) && At(disk, pp).Some? && At(disk, pp).value.DirNode?
    ensures var vs := Visible(Entries(At(disk, pp).value.children));
      Show(pp, f, disk) == Ok(Text(if vs == [] then map[] else map[pp := vs]))
  {
    var vs := Visible(Entries(At(disk, pp).value.children));
    var m := map[pp := Entries(At(disk, pp).value.children)];
    assert Listed(pp, At(disk, pp), f.recursive) == Ok(m);
    assert HideHidden(m) == if vs == [] then map[] else map[pp := vs];
  }
}
