/**
  The `ptmv` command (cmd/ptmv/ptmv.go:33-169): like ptcp without -n and
  -d, but it removes the destination before the transfer, always
  overwrites, and removes the source once the transfer has succeeded.
 */
module Mv {
  import opened Errors
  import opened Paths
  import Markers
  import opened Disk
  import opened Transfer
  import opened Command

  /** The command-line flags -a and -p. */
  datatype Flags = Flags(tar: bool, root: string)

  /** The plan of a ptmv command line: no subpath, and no -a/-n clash. */
  function MvPlan(args: seq<string>, f: Flags, env: string,
                  version: Markers.MarkerFile, prefixFile: Markers.MarkerFile): Result<Plan>
  {
    PlanOf(f.root, env, args, false, version, prefixFile, "")
  }

  /** ptmv.go:140-163: the transfer, always overwriting. */
  ghost function Transferred(e: Entries, plan: Plan, tar: bool): (Outcome, Entries)
  {
    match plan.route
    case FromTree(src, dest) =>
      if tar then Archived(e, src, dest.path, plan.prefix, true)
      else Reported(Copied(e, src, dest, true))
    case IntoTree(_, src, dest) =>
      if tar then Unarchived(e, src, dest.path)
      else Reported(Copied(e, src, dest, true))
  }

  /**
    ptmv.go:136-167: remove the destination, transfer, and only when that
    succeeded remove the source.  `typed` is the string the user gave for
    the side outside the tree, which ptmv hands to `os.RemoveAll` as it is:
    the destination of a move out of the tree, the source of a move into
    it.  A pairpath never ends in ".".  An empty typed string is not the
    root: `os.RemoveAll("")` does nothing, and `os.Stat("")` in
    `CopyFileOrFolder` and opening "" in `UnTarGz` fail with "not exist";
    only `TarGz` joins "" with the archive's name, which lands in the
    working directory.
   */
  ghost function MoveFrom(e: Entries, plan: Plan, tar: bool, typed: string): (Outcome, Entries)
  {
    var route := plan.route;
    if route.FromTree? && EndsWithDot(typed) then (Failed(InvalidPath), e)
    else
      var cleared := if route.FromTree? && typed == "" then (Pass, e) else Removed(e, route.dest.path);
      if cleared.0.Failed? then cleared
      else
        var t := if typed == "" && (route.IntoTree? || !tar) then (Failed(NotExist), cleared.1)
                 else Transferred(cleared.1, plan, tar);
        if t.0.Failed? then t
        else if route.IntoTree? && EndsWithDot(typed) then (Failed(InvalidPath), t.1)
        else Removed(t.1, route.src)
  }

  /** What ptmv returns and leaves on the disk `e`. */
  ghost function Mv(e: Entries, args: seq<string>, f: Flags, env: string,
                    version: Markers.MarkerFile, prefixFile: Markers.MarkerFile): (Outcome, Entries)
  {
    match MvPlan(args, f, env, version, prefixFile)
    case Err(x) => (Failed(x), e)
    case Ok(plan) =>
      MvRoute(args, f, env, version, prefixFile);
      var typed := if plan.route.FromTree? then args[1] else args[0];
      if plan.route.IntoTree? then
        if !MkdirAllOk(e, plan.route.pairPath) then (Failed(NotADirectory), e)
        else MoveFrom(e + Ancestors(plan.route.pairPath), plan, f.tar, typed)
      else MoveFrom(e, plan, f.tar, typed)
  }

  /** Without a subpath, a pairtree destination is the pairpath itself. */
  lemma MvRoute(args: seq<string>, f: Flags, env: string,
                version: Markers.MarkerFile, prefixFile: Markers.MarkerFile)
    requires MvPlan(args, f, env, version, prefixFile).Ok?
    ensures var route := MvPlan(args, f, env, version, prefixFile).value.route;
      && |args| == 2
      && (route.FromTree? ==> Storage(RootOf(f.root, env)) <= route.src && route.dest == ParseLocation(args[1]))
      && (route.IntoTree? ==> Storage(RootOf(f.root, env)) <= route.pairPath
                              && route.dest == Location(route.pairPath, false)
                              && route.src == SplitPath(args[0]))
  {
    var inv := ParseTwo(f.root, env, args).value;
    RouteRules(inv, PrefixOf(version, prefixFile).value, "");
    assert SplitPath("") == [];
  }

  /** `Run` (ptmv.go:33-169); `tempDir` is where `UnTarGz` extracts. */
  method Run(fs: FileSystem, args: seq<string>, f: Flags, env: string,
             version: Markers.MarkerFile, prefixFile: Markers.MarkerFile, tempDir: Path)
    returns (r: Outcome)
    requires fs.Valid() && TempUsable(fs.entries, tempDir, RootOf(f.root, env), args)
    modifies fs
    ensures fs.Valid()
    ensures (r, fs.entries) == Mv(old(fs.entries), args, f, env, version, prefixFile)
  {
    var plan := MvPlan(args, f, env, version, prefixFile);
    if plan.Err? {
      return Failed(plan.error);
    }
    MvRoute(args, f, env, version, prefixFile);
    var route := plan.value.route;
    if route.IntoTree? {
      var m := fs.MkdirAll(route.pairPath);
      if m.Failed? {
        return m;
      }
    }
    if f.tar && route.IntoTree? {
      TempApart(old(fs.entries), tempDir, RootOf(f.root, env), route.pairPath);
    }
    var typed := if route.FromTree? then args[1] else args[0];
    r := MoveStep(fs, plan.value, f.tar, typed, tempDir);
  }

  /** ptmv.go:136-167 once the pairpath is made: remove, transfer, remove. */
  method MoveStep(fs: FileSystem, plan: Plan, tar: bool, typed: string, tempDir: Path) returns (r: Outcome)
    requires fs.Valid()
    requires tar && plan.route.IntoTree? ==>
      var cleared := Without(fs.entries, plan.route.dest.path);
      && tempDir != [] && !Exists(cleared, tempDir) && IsDir(cleared, Dir(tempDir))
      && Apart(tempDir, plan.route.dest.path) && plan.route.src != tempDir
    modifies fs
    ensures fs.Valid()
    ensures (r, fs.entries) == MoveFrom(old(fs.entries), plan, tar, typed)
  {
    var route := plan.route;
    if route.FromTree? && EndsWithDot(typed) {
      return Failed(InvalidPath);
    }
    if !(route.FromTree? && typed == "") {
      var cleared := fs.RemoveAll(route.dest.path);
      if cleared.Failed? {
        return cleared;
      }
    }
    if typed == "" && (route.IntoTree? || !tar) {
      return Failed(NotExist);
    }
    var t := TransferStep(fs, plan, tar, tempDir);
    if t.Failed? {
      return t;
    }
    if route.IntoTree? && EndsWithDot(typed) {
      return Failed(InvalidPath);
    }
    r := fs.RemoveAll(route.src);
  }

  /** ptmv.go:140-163: archive, unpack or copy, always overwriting. */
  method TransferStep(fs: FileSystem, plan: Plan, tar: bool, tempDir: Path) returns (t: Outcome)
    requires fs.Valid()
    requires tar && plan.route.IntoTree? ==>
      && tempDir != [] && !Exists(fs.entries, tempDir) && IsDir(fs.entries, Dir(tempDir))
      && Apart(tempDir, plan.route.dest.path) && plan.route.src != tempDir
    modifies fs
    ensures fs.Valid()
    ensures (t, fs.entries) == Transferred(old(fs.entries), plan, tar)
  {
    var route := plan.route;
    if tar {
      if route.FromTree? {
        t := TarGz(fs, route.src, route.dest.path, plan.prefix, true);
      } else {
        t := UnTarGz(fs, route.src, route.dest.path, tempDir);
      }
    } else {
      var c := CopyFileOrFolder(fs, route.src, route.dest, true);
      t := if c.Ok? then Pass else Failed(c.error);
    }
  }

  // ---------------------------------------------------------------------
  // What the command promises

  /**
    The command-line errors come first and in order, and change nothing:
    no root, then too few or too many arguments, then the version and
    prefix files; when neither side carries the prefix, Err10.
   */
  lemma MvCommandLine(e: Entries, args: seq<string>, f: Flags, env: string,
                      version: Markers.MarkerFile, prefixFile: Markers.MarkerFile)
    ensures var root := RootOf(f.root, env);
      var c := Mv(e, args, f, env, version, prefixFile);
      && (root == "" ==> c == (Failed(RootNotSet), e))
      && (root != "" && |args| < 2 ==> c == (Failed(TooFewArgs), e))
      && (root != "" && |args| > 2 ==> c == (Failed(TooManyArgs), e))
      && (root != "" && |args| == 2 && PrefixOf(version, prefixFile).Err? ==>
            c == (Failed(PrefixOf(version, prefixFile).error), e))
      && ((root != "" && |args| == 2 && PrefixOf(version, prefixFile).Ok?
             && !(PrefixOf(version, prefixFile).value <= args[0])
             && !(PrefixOf(version, prefixFile).value <= args[1])) ==> c == (Failed(OutsidePairtree), e))
  {
    if RootOf(f.root, env) != "" && |args| == 2 && PrefixOf(version, prefixFile).Ok? {
      RouteRules(ParseTwo(f.root, env, args).value, PrefixOf(version, prefixFile).value, "");
    }
  }

  /** After a successful move the source is gone. */
  lemma MvRemovesSource(e: Entries, args: seq<string>, f: Flags, env: string,
                        version: Markers.MarkerFile, prefixFile: Markers.MarkerFile)
    requires Mv(e, args, f, env, version, prefixFile).0 == Pass
    ensures MvPlan(args, f, env, version, prefixFile).Ok?
    ensures var src := MvPlan(args, f, env, version, prefixFile).value.route.src;
      src != [] && !Exists(Mv(e, args, f, env, version, prefixFile).1, src)
  {
    var plan := MvPlan(args, f, env, version, prefixFile).value;
    var e1 := if plan.route.IntoTree? then e + Ancestors(plan.route.pairPath) else e;
    var typed := if plan.route.FromTree? then args[1] else args[0];
    MvRoute(args, f, env, version, prefixFile);
    assert Mv(e, args, f, env, version, prefixFile) == MoveFrom(e1, plan, f.tar, typed);
    MoveFromRemovesSource(e1, plan, f.tar, typed);
  }

  /** A move that passes has removed its source. */
  lemma MoveFromRemovesSource(e: Entries, plan: Plan, tar: bool, typed: string)
    requires MoveFrom(e, plan, tar, typed).0 == Pass
    ensures plan.route.src != [] && !Exists(MoveFrom(e, plan, tar, typed).1, plan.route.src)
  {
  }

  /**
    The destination is removed before the transfer is tried, and a failed
    copy reports its error and leaves the cleared disk as it is; a source
    that existed and does not lie at or below the destination is still
    there.
   */
  lemma MvFailedCopy(e: Entries, plan: Plan, typed: string)
    requires typed != "" && !(plan.route.FromTree? && EndsWithDot(typed))
    requires Removed(e, plan.route.dest.path).0 == Pass
    requires Copied(Without(e, plan.route.dest.path), plan.route.src, plan.route.dest, true).0.Err?
    ensures var cleared := Without(e, plan.route.dest.path);
      MoveFrom(e, plan, false, typed)
        == (Failed(Copied(cleared, plan.route.src, plan.route.dest, true).0.error), cleared)
    ensures Exists(e, plan.route.src) && !(plan.route.dest.path <= plan.route.src) ==>
      Exists(MoveFrom(e, plan, false, typed).1, plan.route.src)
  {
  }

  /**
    ptmv hands `os.RemoveAll` the typed path of the side outside the tree,
    and a path whose last element is "." is refused.  A move out of the
    tree then fails with nothing changed; a move into the tree never
    succeeds, and after a copy the typed source is still there.
   */
  lemma MvTypedDot(e: Entries, plan: Plan, tar: bool, typed: string)
    requires EndsWithDot(typed)
    ensures plan.route.FromTree? ==> MoveFrom(e, plan, tar, typed) == (Failed(InvalidPath), e)
    ensures plan.route.IntoTree? ==> MoveFrom(e, plan, tar, typed).0 != Pass
    ensures plan.route.IntoTree? && !tar && Exists(Without(e, plan.route.dest.path), plan.route.src) ==>
      Exists(MoveFrom(e, plan, tar, typed).1, plan.route.src)
  {
    if plan.route.IntoTree? && !tar {
      var route := plan.route;
      var cleared := Removed(e, route.dest.path);
      if cleared.0.Pass? {
        var c := Copied(cleared.1, route.src, route.dest, true);
        if c.0.Ok? {
          assert c.1 == CopyTree(cleared.1, route.src, CopyTarget(cleared.1, route.src, route.dest, true));
        }
      }
    }
  }

  /**
    An empty typed path: a move into the tree removes the pairpath and then
    fails with "not exist", leaving the source alone; a copy out of the
    tree fails with "not exist" and changes nothing, the destination
    included; an archive out of the tree removes nothing before it is
    written.
   */
  lemma MvTypedEmpty(e: Entries, plan: Plan, tar: bool)
    ensures plan.route.IntoTree? && Removed(e, plan.route.dest.path).0 == Pass ==>
      MoveFrom(e, plan, tar, "") == (Failed(NotExist), Without(e, plan.route.dest.path))
    ensures plan.route.IntoTree? ==> MoveFrom(e, plan, tar, "").0 != Pass
    ensures plan.route.FromTree? && !tar ==> MoveFrom(e, plan, tar, "") == (Failed(NotExist), e)
    ensures plan.route.FromTree? && tar && Transferred(e, plan, tar).0.Failed? ==>
      MoveFrom(e, plan, tar, "") == Transferred(e, plan, tar)
  {
  }

  /** A destination whose parent can be made is removed without error. */
  lemma ParentMadeRemoves(e: Entries, d: Path)
    requires d != [] && MkdirAllOk(e, Dir(d))
    ensures Removed(e, d) == (Pass, Without(e, d))
  {
    if d !in e {
      forall i | 0 <= i < |d| && Exists(e, d[..i])
        ensures IsDir(e, d[..i])
      {
        if i > 0 {
          assert d[..i] <= Dir(d);
        }
      }
    }
  }

  /** Removing a tree apart from `q` leaves what lies under `q` alone. */
  lemma SubWithout(e: Entries, p: Path, q: Path)
    requires Apart(p, q)
    ensures Sub(Without(e, p), q) == Sub(e, q)
  {
    forall rel
      ensures rel in Sub(Without(e, p), q) <==> rel in Sub(e, q)
      ensures rel in Sub(e, q) ==> Sub(Without(e, p), q)[rel] == Sub(e, q)[rel]
    {
      SubAt(Without(e, p), q, rel);
      SubAt(e, q, rel);
      if p <= q + rel {
        Comparable(p, q, q + rel);
      }
    }
  }

  /**
    A plain move, in or out of the tree: the destination is replaced by the
    source's tree and the source is removed, when the two are apart, the
    source exists and the destination's parent can be made.
   */
  lemma MovePlain(e: Entries, plan: Plan, typed: string)
    requires Tree(e) && typed != "" && !EndsWithDot(typed)
    requires var r := plan.route;
      && !r.dest.trailingSep && r.dest.path != [] && r.src != []
      && Apart(r.src, r.dest.path) && Exists(e, r.src) && MkdirAllOk(e, Dir(r.dest.path))
    ensures var m := MoveFrom(e, plan, false, typed);
      && m.0 == Pass
      && Sub(m.1, plan.route.dest.path) == Sub(e, plan.route.src)
      && !Exists(m.1, plan.route.src)
  {
    var src, d := plan.route.src, plan.route.dest.path;
    var copied := CopyTree(Without(e, d), src, d);
    ParentMadeRemoves(e, d);
    CopyOverCleared(e, src, plan.route.dest);
    assert src in copied;
    assert MoveFrom(e, plan, false, typed) == (Pass, Without(copied, src));
    SubWithout(e, d, src);
    SubWithout(copied, src, d);
  }

  /** Once the destination is removed, the copy lands exactly there and holds the source's tree. */
  lemma CopyOverCleared(e: Entries, src: Path, dest: Location)
    requires Tree(e)
    requires !dest.trailingSep && dest.path != [] && Apart(src, dest.path)
    requires Exists(e, src) && MkdirAllOk(e, Dir(dest.path))
    ensures var cleared := Without(e, dest.path);
      && Copied(cleared, src, dest, true) == (Ok(dest.path), CopyTree(cleared, src, dest.path))
      && Sub(CopyTree(cleared, src, dest.path), dest.path) == Sub(cleared, src)
  {
    var d := dest.path;
    var cleared := Without(e, d);
    WithoutTree(e, d);
    MissingIsFresh(cleared, d);
    assert CopyTarget(cleared, src, dest, true) == d;
    CopyOkWhenClear(cleared, src, d);
    CopyIntoFresh(cleared, src, d);
  }
}
