/**
  The `ptcp` command (cmd/ptcp/ptcp.go:38-171): copy a pairtree object, or
  a path below it named with -n, out of the tree, or copy a file or folder
  into an object; with -a, archive the object instead, or unpack an
  archive into the object.  Without -d an existing target is never
  replaced: the copy or archive gets the first free numbered name.
 */
module Cp {
  import opened Errors
  import opened Paths
  import Markers
  import opened Disk
  import opened Unique
  import opened Transfer
  import opened Command

  /** The command-line flags -d, -a, -n and -p. */
  datatype Flags = Flags(overwrite: bool, tar: bool, subpath: string, root: string)

  /** The plan of a ptcp command line: -a with a subpath is refused. */
  function CpPlan(args: seq<string>, f: Flags, env: string,
                  version: Markers.MarkerFile, prefixFile: Markers.MarkerFile): Result<Plan>
  {
    PlanOf(f.root, env, args, f.tar && f.subpath != "", version, prefixFile, f.subpath)
  }

  /**
    What ptcp returns and leaves on the disk `e`.  An empty typed path is
    not the root: `os.Stat("")` in `CopyFileOrFolder`, the copy library's
    `os.MkdirAll("")` or `os.Create("")`, and opening "" in `UnTarGz` all
    fail with "not exist"; only `TarGz` joins "" with the archive's name,
    which lands in the working directory.
   */
  ghost function Cp(e: Entries, args: seq<string>, f: Flags, env: string,
                    version: Markers.MarkerFile, prefixFile: Markers.MarkerFile): (Outcome, Entries)
  {
    match CpPlan(args, f, env, version, prefixFile)
    case Err(x) => (Failed(x), e)
    case Ok(plan) =>
      match plan.route
      case FromTree(src, dest) =>
        if f.tar then Archived(e, src, dest.path, plan.prefix, f.overwrite)
        else if args[1] == "" then (Failed(NotExist), e)
        else Reported(Copied(e, src, dest, f.overwrite))
      case IntoTree(pp, src, dest) =>
        if !MkdirAllOk(e, pp) then (Failed(NotADirectory), e)
        else
          var made := e + Ancestors(pp);
          if args[0] == "" then (Failed(NotExist), made)
          else if f.tar then Unarchived(made, src, dest.path)
          else Reported(Copied(made, src, dest, f.overwrite))
  }

  /** -a forbids a subpath, so an unpacking destination is the pairpath itself. */
  lemma ArchiveDest(args: seq<string>, f: Flags, env: string,
                    version: Markers.MarkerFile, prefixFile: Markers.MarkerFile)
    requires CpPlan(args, f, env, version, prefixFile).Ok? && f.tar
    ensures var plan := CpPlan(args, f, env, version, prefixFile).value;
      && ParseTwo(f.root, env, args).Ok?
      && Storage(RootOf(f.root, env)) <= (if plan.route.FromTree? then plan.route.src else plan.route.pairPath)
      && (plan.route.IntoTree? ==> plan.route.dest.path == plan.route.pairPath
                                   && plan.route.src == SplitPath(args[0]))
  {
    var inv := ParseTwo(f.root, env, args).value;
    var prefix := PrefixOf(version, prefixFile).value;
    RouteRules(inv, prefix, f.subpath);
    assert SplitPath(f.subpath) == [];
  }

  /** `Run` (ptcp.go:38-171); `tempDir` is where `UnTarGz` extracts. */
  method Run(fs: FileSystem, args: seq<string>, f: Flags, env: string,
             version: Markers.MarkerFile, prefixFile: Markers.MarkerFile, tempDir: Path)
    returns (r: Outcome)
    requires fs.Valid() && TempUsable(fs.entries, tempDir, RootOf(f.root, env), args)
    modifies fs
    ensures fs.Valid()
    ensures (r, fs.entries) == Cp(old(fs.entries), args, f, env, version, prefixFile)
  {
    var plan := CpPlan(args, f, env, version, prefixFile);
    if plan.Err? {
      return Failed(plan.error);
    }
    var prefix := plan.value.prefix;
    match plan.value.route
    case FromTree(src, dest) =>
      if f.tar {
        r := TarGz(fs, src, dest.path, prefix, f.overwrite);
      } else if args[1] == "" {
        r := Failed(NotExist);
      } else {
        var c := CopyFileOrFolder(fs, src, dest, f.overwrite);
        r := if c.Ok? then Pass else Failed(c.error);
      }
    case IntoTree(pp, src, dest) =>
      var m := fs.MkdirAll(pp);
      if m.Failed? {
        return m;
      }
      if args[0] == "" {
        r := Failed(NotExist);
      } else if f.tar {
        ArchiveDest(args, f, env, version, prefixFile);
        TempApart(old(fs.entries), tempDir, RootOf(f.root, env), pp);
        r := UnTarGz(fs, src, dest.path, tempDir);
      } else {
        var c := CopyFileOrFolder(fs, src, dest, f.overwrite);
        r := if c.Ok? then Pass else Failed(c.error);
      }
  }

  /**
    The command-line errors come first and in order, and change nothing:
    no root, then too few or too many arguments, then -a with -n, then the
    version and prefix files; when neither side carries the prefix, Err10.
   */
  lemma CpCommandLine(e: Entries, args: seq<string>, f: Flags, env: string,
                      version: Markers.MarkerFile, prefixFile: Markers.MarkerFile)
    ensures var root := RootOf(f.root, env);
      var c := Cp(e, args, f, env, version, prefixFile);
      && (root == "" ==> c == (Failed(RootNotSet), e))
      && (root != "" && |args| < 2 ==> c == (Failed(TooFewArgs), e))
      && (root != "" && |args| > 2 ==> c == (Failed(TooManyArgs), e))
      && (root != "" && |args| == 2 && f.tar && f.subpath != "" ==> c == (Failed(ArchiveWithSubpath), e))
      && (root != "" && |args| == 2 && !(f.tar && f.subpath != "") && PrefixOf(version, prefixFile).Err? ==>
            c == (Failed(PrefixOf(version, prefixFile).error), e))
      && ((root != "" && |args| == 2 && !(f.tar && f.subpath != "") && PrefixOf(version, prefixFile).Ok?
             && !(PrefixOf(version, prefixFile).value <= args[0])
             && !(PrefixOf(version, prefixFile).value <= args[1])) ==> c == (Failed(OutsidePairtree), e))
  {
    if RootOf(f.root, env) != "" && |args| == 2 && PrefixOf(version, prefixFile).Ok? {
      RouteRules(ParseTwo(f.root, env, args).value, PrefixOf(version, prefixFile).value, f.subpath);
    }
  }

  /**
    An empty typed path never names the root: copying from "" into an
    object makes the pairpath and then fails with "not exist", and copying
    an object to "" fails with "not exist" and changes nothing.
   */
  lemma CpTypedEmpty(e: Entries, args: seq<string>, f: Flags, env: string,
                     version: Markers.MarkerFile, prefixFile: Markers.MarkerFile)
    requires CpPlan(args, f, env, version, prefixFile).Ok?
    ensures |args| == 2
    ensures var route := CpPlan(args, f, env, version, prefixFile).value.route;
      var c := Cp(e, args, f, env, version, prefixFile);
      && (route.IntoTree? && args[0] == "" && MkdirAllOk(e, route.pairPath) ==>
            c == (Failed(NotExist), e + Ancestors(route.pairPath)))
      && (route.IntoTree? && args[0] == "" ==> c.0 != Pass)
      && (route.FromTree? && args[1] == "" && !f.tar ==> c == (Failed(NotExist), e))
  {
  }

  /**
    Copying into the pairtree without -d or -n cannot fail once the source
    exists and the pairpath's directories can be made: the copy lands on a
    new path directly inside the object's directory, named after the source
    or numbered, holds exactly the source's tree, and every path that was
    there before is still there, unchanged.  A source at or above the
    pairpath is excluded: Go's recursive copy would then read back its own
    output.
   */
  lemma CpIntoTreeKeeps(e: Entries, pp: Path, src: Path)
    requires Tree(e) && MkdirAllOk(e, pp) && pp != [] && src != [] && !(src <= pp)
    requires Exists(e + Ancestors(pp), src)
    ensures var made := e + Ancestors(pp);
      var t := UniqueDestination(pp + [Base(src)], Taken(made));
      var c := Copied(made, src, Location(pp, false), false);
      && c.0 == Ok(t) && Dir(t) == pp && !Exists(made, t)
      && Sub(c.1, t) == Sub(made, src)
      && forall k :: k in made ==> k in c.1 && c.1[k] == made[k]
  {
    var made := e + Ancestors(pp);
    MkdirAllTree(e, pp);
    assert IsDir(made, pp);
    var t := UniqueDestination(pp + [Base(src)], Taken(made));
    assert CopyTarget(made, src, Location(pp, false), false) == t;
    MissingIsFresh(made, t);
    assert Dir(t) == pp;
    CopyOkWhenClear(made, src, t);
    CopyIntoFresh(made, src, t);
  }
}
