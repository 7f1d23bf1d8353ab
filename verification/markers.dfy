/**
  The two marker files of a pairtree root (pkg/pairtree/pairtree.go:54-106,
  and their twins in pkg/pt/pt.go): the version file must exist and be
  non-empty; the prefix file is optional, but if present must be non-empty.
  The state of a marker file is given as a value: the model does not open
  files.
 */
module Markers {
  import opened Errors

  /** What `os.Open` and a full read find at a marker path. */
  datatype MarkerFile =
    | Absent                   // os.Open reports that the file does not exist
    | Unreadable               // os.Open or the read fails for any other reason
    | Present(content: string) // the file's whole content

  /** `GetPrefix`: the raw prefix, "" when there is no prefix file. */
  function GetPrefix(f: MarkerFile): (r: Result<string>)
    ensures f.Absent? <==> r == Ok("")
    ensures r == Err(PrefixFileEmpty) <==> f == Present("")
    ensures f.Present? && f.content != "" ==> r == Ok(f.content)
    ensures r.Ok? ==> r.value == "" || f == Present(r.value)
    ensures r.Err? ==> r.error in {PrefixFileEmpty, ReadFailed}
  {
    match f
    case Absent => Ok("")
    case Unreadable => Err(ReadFailed)
    case Present(c) => if c == "" then Err(PrefixFileEmpty) else Ok(c)
  }

  /** `CheckPTVer`: the version file must exist and have a non-zero size. */
  function CheckPTVer(f: MarkerFile): (r: Outcome)
    ensures r == Failed(NotExist) <==> f.Absent?
    ensures r == Failed(VersionFileEmpty) <==> f == Present("")
    ensures r.Pass? <==> f.Present? && f.content != ""
  {
    match f
    case Absent => Failed(NotExist)
    case Unreadable => Failed(ReadFailed)
    case Present(c) => if c == "" then Failed(VersionFileEmpty) else Pass
  }
}
