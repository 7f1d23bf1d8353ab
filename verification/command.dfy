/**
  The steps the three commands share before they touch an object: the
  root comes from -p or PAIRTREE_ROOT, the version file must be in order,
  the prefix comes from the prefix file or defaults to "pt://", and for
  ptcp and ptmv exactly two arguments name a source and a destination, one
  of which must carry the prefix (cmd/ptcp/ptcp.go:46-141,
  cmd/ptmv/ptmv.go:41-131, cmd/ptls/ptls.go:65-121).
 */
module Command {
  import opened Errors
  import opened Paths
  import Markers
  import Pt
  import opened Pairtree
  import opened Disk

  /** ptcp.go:46-53: the -p flag wins, then PAIRTREE_ROOT. */
  function RootOf(flag: string, env: string): string
  {
    if flag != "" then flag else env
  }

  /**
    ptcp.go:99-115: the version file is checked before the prefix file is
    read, and a root without a prefix file uses "pt://".
   */
  function PrefixOf(version: Markers.MarkerFile, prefixFile: Markers.MarkerFile): (r: Result<string>)
    ensures r.Ok? ==> r.value != ""
    ensures Markers.CheckPTVer(version).Failed? ==> r == Err(Markers.CheckPTVer(version).error)
    ensures Markers.CheckPTVer(version).Pass? ==>
      match Markers.GetPrefix(prefixFile)
      case Err(e) => r == Err(e)
      case Ok(p) => r == Ok(if prefixFile.Absent? then PtPrefix else p)
  {
    match Markers.CheckPTVer(version)
    case Failed(e) => Err(e)
    case Pass =>
      match Markers.GetPrefix(prefixFile)
      case Err(e) => Err(e)
      case Ok(p) => Ok(if p == "" then PtPrefix else p)
  }

  /** The root and the two arguments of a well-formed ptcp or ptmv command line. */
  datatype Invocation = Invocation(root: string, src: string, dest: string)

  /**
    ptcp.go:46-73 and ptmv.go:41-69: no root is reported first, then too
    few arguments, then too many.
   */
  function ParseTwo(rootFlag: string, env: string, args: seq<string>): (r: Result<Invocation>)
    ensures r == Err(RootNotSet) <==> rootFlag == "" && env == ""
    ensures RootOf(rootFlag, env) != "" && |args| < 2 ==> r == Err(TooFewArgs)
    ensures RootOf(rootFlag, env) != "" && |args| > 2 ==> r == Err(TooManyArgs)
    ensures r.Ok? <==> RootOf(rootFlag, env) != "" && |args| == 2
    ensures r.Ok? ==> r.value == Invocation(RootOf(rootFlag, env), args[0], args[1])
  {
    var root := RootOf(rootFlag, env);
    if root == "" then Err(RootNotSet)
    else if |args| < 2 then Err(TooFewArgs)
    else if |args| > 2 then Err(TooManyArgs)
    else Ok(Invocation(root, args[0], args[1]))
  }

  /**
    Which side of a transfer is the pairtree object.  A pairtree source is
    replaced by its pairpath (joined with the subpath); a pairtree
    destination by its pairpath, which is made first, joined with the
    subpath.  The other side stays as the user typed it.
   */
  datatype Route =
    | FromTree(src: Path, dest: Location)
    | IntoTree(pairPath: Path, src: Path, dest: Location)

  /** The directory that holds every object of a root. */
  function Storage(root: string): Path
  {
    SplitPath(root) + [Pt.RootDir]
  }

  /**
    ptcp.go:117-141: the source is tested for the prefix first, then the
    destination; with neither there is nothing to do.
   */
  function RouteOf(inv: Invocation, prefix: string, subpath: string): (r: Result<Route>)
  {
    if prefix <= inv.src then
      match CreatePP(inv.src, inv.root, prefix)
      case Err(e) => Err(e)
      case Ok(pp) => Ok(FromTree(pp + SplitPath(subpath), ParseLocation(inv.dest)))
    else if prefix <= inv.dest then
      match CreatePP(inv.dest, inv.root, prefix)
      case Err(e) => Err(e)
      case Ok(pp) => Ok(IntoTree(pp, SplitPath(inv.src), Location(pp + SplitPath(subpath), false)))
    else Err(OutsidePairtree)
  }

  /**
    The routing rules: the source wins when both sides carry the prefix;
    the pairtree side lies in the root's storage directory and is the
    identifier's pairpath joined with the subpath; the other side is what
    the user typed; and with neither side carrying the prefix the command
    stops with Err10.  The containment in the storage directory rests on
    `..` being kept as a literal component: Go's `filepath.Join` resolves a
    subpath such as `../../x` and can leave the object's directory.
   */
  lemma RouteRules(inv: Invocation, prefix: string, subpath: string)
    ensures var r := RouteOf(inv, prefix, subpath);
      && (r == Err(OutsidePairtree) <==> !(prefix <= inv.src) && !(prefix <= inv.dest))
      && (r.Ok? && r.value.FromTree? <==> prefix <= inv.src && CreatePP(inv.src, inv.root, prefix).Ok?)
      && (r.Ok? && r.value.IntoTree? <==>
            !(prefix <= inv.src) && prefix <= inv.dest && CreatePP(inv.dest, inv.root, prefix).Ok?)
      && (r.Ok? && r.value.FromTree? ==>
            && Storage(inv.root) <= r.value.src
            && r.value.src == CreatePP(inv.src, inv.root, prefix).value + SplitPath(subpath)
            && r.value.dest == ParseLocation(inv.dest))
      && (r.Ok? && r.value.IntoTree? ==>
            && Storage(inv.root) <= r.value.pairPath <= r.value.dest.path
            && r.value.dest == Location(r.value.pairPath + SplitPath(subpath), false)
            && r.value.src == SplitPath(inv.src))
  {
    if prefix <= inv.src {
      if CreatePP(inv.src, inv.root, prefix).Ok? {
        CreatePPShape(inv.src, inv.root, prefix);
      }
    } else if prefix <= inv.dest {
      if CreatePP(inv.dest, inv.root, prefix).Ok? {
        CreatePPShape(inv.dest, inv.root, prefix);
      }
    }
  }

  /** Everything a transfer command knows before it touches the disk. */
  datatype Plan = Plan(prefix: string, route: Route)

  /**
    ptcp.go:44-141 up to the disk: arguments, the -a/-n clash (ptcp only,
    checked while parsing the command line), the marker files, then the
    routing.
   */
  function PlanOf(rootFlag: string, env: string, args: seq<string>, archiveWithSubpath: bool,
                  version: Markers.MarkerFile, prefixFile: Markers.MarkerFile, subpath: string): (r: Result<Plan>)
    ensures r.Ok? ==> ParseTwo(rootFlag, env, args).Ok? && |args| == 2 && !archiveWithSubpath
  {
    match ParseTwo(rootFlag, env, args)
    case Err(e) => Err(e)
    case Ok(inv) =>
      if archiveWithSubpath then Err(ArchiveWithSubpath)
      else match PrefixOf(version, prefixFile)
        case Err(e) => Err(e)
        case Ok(prefix) =>
          match RouteOf(inv, prefix, subpath)
          case Err(e) => Err(e)
          case Ok(route) => Ok(Plan(prefix, route))
  }

  /**
    The directory `os.MkdirTemp` picks for `UnTarGz`: new, inside an
    existing directory, away from the root's storage directory, and not the
    path the user named as the source.
   */
  predicate TempUsable(e: Entries, tempDir: Path, root: string, args: seq<string>)
  {
    && tempDir != [] && !Exists(e, tempDir) && IsDir(e, Dir(tempDir))
    && Apart(tempDir, Storage(root))
    && (|args| == 2 ==> SplitPath(args[0]) != tempDir)
  }

  /**
    Such a directory stays apart from every pairpath, and stays new and
    placeable once the pairpath's directories are made and once the
    pairpath is then removed.
   */
  lemma TempApart(e: Entries, tempDir: Path, root: string, pp: Path)
    requires tempDir != [] && !Exists(e, tempDir) && IsDir(e, Dir(tempDir))
    requires Apart(tempDir, Storage(root)) && Storage(root) <= pp
    ensures Apart(tempDir, pp)
    ensures var made := e + Ancestors(pp);
      && !Exists(made, tempDir) && IsDir(made, Dir(tempDir))
      && !Exists(Without(made, pp), tempDir) && IsDir(Without(made, pp), Dir(tempDir))
  {
    if Dir(tempDir) != [] {
      assert Dir(tempDir) <= tempDir;
    }
  }
}
