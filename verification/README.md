# pt-tools in Dafny

A model of the core of pt-tools, the command-line tools for Pairtree
storage. A Pairtree root holds each object in a directory
`<root>/pairtree_root/<shards>/<cleaned id>`. The identifier loses its prefix
(`pt://` by default), is cleaned character by character, and is then split
into two-character shards. The model covers:

- the library in `pkg/pairtree/pairtree.go`, together with the older
  `pkg/pt/pt.go` that it replaced;
- the three commands that use the library: `ptls`, `ptcp` and `ptmv`.

Modules, one per file:

- `Errors` (errors.dfy): the numbered errors `Err1`–`Err13`, the
  operating-system errors the code passes on, `Result`, `Option` and
  `Outcome`.
- `Paths` (paths.dfy): a path is a sequence of components. `SplitPath`
  splits a user string on `/` and drops empty and `.` components, as
  `filepath.Clean` does. Unlike `filepath.Clean`, it keeps `..` as a literal
  component and does not record a leading `/`. `ParseLocation` remembers a
  trailing separator.
- `Markers` (markers.dfy): the version file and the prefix file of a root.
  Their state is a value passed in.
- `Pt` (pt.dfy): the character-cleaning table, its inverse and the
  shard split.
- `Pairtree` (pairtree.dfy): `IsHidden` and `CreatePP`.
- `Walker` (walker.dfy): the directory walk behind `RecursiveFiles` and
  `NonRecursiveFiles`. It runs over a snapshot tree of `Node`s, with
  children in `ReadDir` order.
- `DirTree` (tree.dfy): `BuildDirectoryTree`, the JSON shape of a listing.
- `Disk` (disk.dfy): the mutable filesystem that copy, move and archive
  change.
  - The class `FileSystem` has one field: a map from every existing path to
    a directory, a file, or an archive holding the tree it packs.
  - Its methods are `os.MkdirAll`, `os.RemoveAll`, the recursive copy of
    otiai10/copy, and the tar.gz writing and extraction of mholt/archiver.
- `Unique` (unique.dfy): `GetUniqueDestination`.
- `Transfer` (transfer.dfy): `DeletePairtreeItem`, `CopyFileOrFolder`,
  `TarGz` and `UnTarGz`.
  - Each is a method on a `FileSystem`.
  - Each method's postcondition ties the returned error and the new map to
    an effect function (`Copied`, `Archived`, `Unarchived`) of the old map.
- `Command` (command.dfy): what the three commands share.
  - The root comes from `-p` or `PAIRTREE_ROOT`.
  - Then the arguments are checked, then the version and prefix files.
  - Then the routing: which side of a copy or move is the pairtree object.
- `Ls`, `Cp`, `Mv` (ls.dfy, cp.dfy, mv.dfy): the `Run` of each command.
  - `Ls.Run` is a method over the listing snapshot, with the filter loops
    of `ptls` written as loops.
  - `Cp.Run` and `Mv.Run` change a `FileSystem`. Each is proved equal to a
    whole-command effect function (`Cp.Cp`, `Mv.Mv`), and the lemmas state
    what the commands promise in terms of that function.

## Model

| member | source | states |
|---|---|---|
| Markers.GetPrefix | pkg/pairtree/pairtree.go:55-82 | A missing prefix file gives "" and no error. An empty one gives Err1. Otherwise the file's content is the prefix. Any other open or read failure is an error. |
| Markers.CheckPTVer | pkg/pairtree/pairtree.go:85-106 | A missing version file is "not exist". An empty one is Err2. It passes exactly when the file is present and non-empty. |
| Pt.EncodeRune | pkg/pt/pt.go:102-124 | The cleaning table: the listed characters become `^` and two lower-case hex digits of their code, `/` becomes `=`, `:` becomes `+`, `.` becomes `,`, and every other character is kept. |
| Pt.EncodeChar | pkg/pt/pt.go:102-124 | A cleaned identifier holds no `/`, `:` or `.`. It is empty exactly when the identifier is. It is between one and three times as long. |
| Pt.DecodeEncode | pkg/pt/pt.go:102-124 | Decoding a cleaned identifier gives back the identifier, so cleaning loses nothing. |
| Pt.EncodeCharInjective | pkg/pt/pt.go:102-124 | Distinct identifiers clean to distinct strings. |
| Pt.EncodeCharAppend | pkg/pt/pt.go:102-124 | Cleaning works character by character: it distributes over concatenation. |
| Pt.EncodeCharUnreserved | pkg/pt/pt.go:102-124 | An identifier made only of characters that need no cleaning is its own cleaned form. |
| Pt.EncodeCharTable | pkg/pt/pt.go:102-124 | The table of `EncodeRune`, stated for one-character identifiers; each cleans to one or three characters. |
| Pt.HexValueOfDigit | pkg/pt/pt.go:102-124 | The hex digit written for a value reads back as that value. |
| Pt.Shards | pkg/pairtree/pairtree.go:126 | The shards concatenate back to the cleaned identifier. All are two characters long except possibly the last, which has one or two. |
| Pt.CreatePP | pkg/pt/pt.go:127-148 | The older `CreatePP` reads the prefix file and passes its errors on. It succeeds exactly when the identifier starts with the prefix. The pairpath lies under `<root>/pairtree_root` and ends in the cleaned identifier. |
| Pairtree.CreatePP | pkg/pairtree/pairtree.go:109-134 | A blank root is Err3, then a blank identifier is Err4, then an identifier without the prefix is Err5. It succeeds exactly when none of these apply. |
| Pairtree.CreatePPShape | pkg/pairtree/pairtree.go:109-134 | A pairpath is the storage directory, then the shards of the cleaned identifier (each one or two characters), then the cleaned identifier. An identifier that is only the prefix gives the storage directory itself. |
| Pairtree.CreatePPInjective | pkg/pairtree/pairtree.go:109-134 | Under one root and prefix, distinct identifiers get distinct pairpaths. |
| Pairtree.CreatePPUnreserved | pkg/pairtree/pairtree.go:109-134 | When the part after the prefix needs no cleaning (the standard and no-prefix tests, pairtree_test.go:225-248), the pairpath is the root, `pairtree_root`, that part's shards, then that part itself. |
| Pairtree.CreatePPColon | pkg/pairtree/pairtree.go:109-134 | A `:` in the identifier becomes `+`, in the shards and in the final component alike. This is the reserved-character test, e.g. `34:621` giving `34/+6/21/34+621`. |
| Pairtree.ShardsOfFiveOrSix | pkg/pairtree/pairtree.go:126 | Six characters make three two-character shards (`345621` gives 34/56/21). Five make two of two and a last of one (`34621` gives 34/62/1). |
| Pairtree.CreatePPEdgeExamples | pkg/pairtree/pairtree_test.go:249-272 | An empty root gives Err3, an empty identifier Err4, and an identifier without the prefix Err5. |
| Pairtree.LegacyCreatePPAgrees | pkg/pt/pt.go:127-148 | For a non-blank root and identifier and a non-empty prefix file, the older `CreatePP` gives the same pairpath as the current one. |
| Paths.SplitPathString | pkg/pairtree/pairtree.go:282-300 | A path printed with `/` between its components, as `CopyFileOrFolder` returns its target, splits back into the same components. |
| Paths.ParseLocationRoundTrip | pkg/pairtree/pairtree.go:283 | A printed path reads back as the same destination with no trailing separator. With a `/` appended, it reads back as a directory destination, which is the case `CopyFileOrFolder` tests with `strings.HasSuffix`. |
| Walker.Entries | pkg/pairtree/pairtree.go:172 | `ReadDir` lists one entry per child, in order, with its name and whether it is a directory. |
| Walker.Walk | pkg/pairtree/pairtree.go:142 | Every path the walk visits below a directory lies strictly below it. |
| Walker.RecursiveFiles | pkg/pairtree/pairtree.go:139-166 | A missing start is "not exist". A start that is a file gives an empty map. A directory gives `RecursiveListing`, built by the same callback loop over the walk. |
| Walker.ApplyWalk | pkg/pairtree/pairtree.go:142-163 | Folding the callback over the walk of a directory extends the map at that directory by its entries, plus everything below. |
| Walker.RecursiveListingIsFold | pkg/pairtree/pairtree.go:139-166 | The callback loop over "skip the start, then the walk" is `RecursiveListing`. |
| Walker.RecursiveListingStart | pkg/pairtree/pairtree.go:147-160 | The start is a key exactly when it has children, and then it lists them all. Every key lies at or below the start. |
| Walker.RecursiveListingComplete | pkg/pairtree/pairtree.go:139-166 | Every node below the start is listed under its parent directory, and every directory below it is a key. |
| Walker.RecursiveListingSound | pkg/pairtree/pairtree.go:139-166 | Every listed entry is a real node at that place, with the right name and kind. |
| Walker.BelowAt | pkg/pairtree/pairtree.go:157-160 | A path below the start is a key of the listing exactly when a directory is there, and it lists that directory's children. |
| Walker.NonRecursiveFiles | pkg/pairtree/pairtree.go:169-180 | A missing start is "not exist" and a file is "not a directory". Otherwise the map has exactly one key, the start, holding its `ReadDir` entries. |
| Walker.NonRecursiveIsTop | pkg/pairtree/pairtree.go:139-180 | For a directory with at least one child, the non-recursive listing is the recursive one cut down to the start. For an empty directory, `ReadDir` lists the start with no entries, but the walk never makes it a key. |
| DirTree.BuildDirectoryTree | pkg/pairtree/pairtree.go:184-209 | The top directory is named by its whole path and the others by their base name. It has one subdirectory per directory entry, in order and with the same names. Its files are exactly `FilesOf` the entries. Directories plus files account for every entry. |
| DirTree.DirEntries | pkg/pairtree/pairtree.go:198 | What `IsDir` keeps: only directories, never more than there were. |
| DirTree.FilesOf | pkg/pairtree/pairtree.go:202-205 | Files and directories together account for every entry. |
| DirTree.FilesOfMember | pkg/pairtree/pairtree.go:197-206 | A name is a file leaf exactly when some non-directory entry carries it. |
| DirTree.FilesOfAppend | pkg/pairtree/pairtree.go:197-206 | File leaves keep the order of the entries: the leaves of a joined list are those of each part in turn. |
| DirTree.RecursiveListingTree | pkg/pairtree/pairtree.go:184-209 | Building the tree from the recursive listing of a directory mirrors the real directory: every subdirectory and file, in order. |
| DirTree.BuildMirrors | pkg/pairtree/pairtree.go:184-209 | Below the top, the tree built from a listing that agrees with the disk is the disk's own tree. |
| Ls.KeepDirectories | cmd/ptls/ptls.go:148-153 | The loop keeps exactly the directory entries, in order. |
| Ls.KeepVisible | cmd/ptls/ptls.go:173-178 | The loop keeps exactly the entries whose names do not start with a dot, in order. |
| Ls.DirEntriesMember | cmd/ptls/ptls.go:148-153 | An entry survives `-d` exactly when it was there and is a directory. |
| Ls.VisibleMember | cmd/ptls/ptls.go:173-178 | An entry survives the hidden filter exactly when it was there and is not hidden. |
| Ls.DirEntriesIdempotent | cmd/ptls/ptls.go:148-153 | Filtering directories twice is filtering once. |
| Ls.VisibleIdempotent | cmd/ptls/ptls.go:173-178 | Hiding hidden entries twice is hiding once. |
| Ls.FilterDirsOnly | cmd/ptls/ptls.go:145-160 | The loop over the map's keys leaves exactly `DirsOnly`: each key keeps only its directories, and keys left empty are deleted. |
| Ls.FilterHidden | cmd/ptls/ptls.go:163-187 | The loop leaves exactly `HideHidden`: hidden keys are deleted, hidden entries are dropped, and keys left empty are deleted. |
| Ls.DirsOnlyExact | cmd/ptls/ptls.go:145-160 | After `-d` no key is empty, and an entry is listed under a key exactly when it was listed there before and is a directory. |
| Ls.HideHiddenExact | cmd/ptls/ptls.go:163-187 | Without `-a` no key is hidden or empty, and an entry is listed exactly when its key and itself are visible and it was listed before. |
| Ls.FiltersIdempotent | cmd/ptls/ptls.go:145-187 | Both map filters are idempotent. |
| Ls.PairPathShape | cmd/ptls/ptls.go:124-129 | The pairpath ptls lists is never empty and its base name is never hidden. |
| Ls.Run | cmd/ptls/ptls.go:54-215 | The command as a method: the root check, the id check, the marker files, the pairpath, the listing, the `-d` and hidden filters, then the text map or the JSON tree. Equal to `Ls`. |
| Ls.ShowPairPath | cmd/ptls/ptls.go:131-211 | The listing, the filters and the output of one pairpath, as loops. Equal to `Show`. |
| Ls.LsErrorOrder | cmd/ptls/ptls.go:65-117 | Err7 exactly when neither `-p` nor `PAIRTREE_ROOT` is set. Then: no argument is Err6, a missing version file "not exist", an empty one Err2, an empty prefix file Err1. |
| Ls.LsUsesLastArgument | cmd/ptls/ptls.go:82-83 | Only the last argument counts: any arguments before it change nothing. |
| Ls.LsMissing | cmd/ptls/ptls.go:131-143 | An object that does not exist on disk is "not exist". |
| Ls.LsShowsNothingHidden | cmd/ptls/ptls.go:145-187 | In text output without `-a`, no key and no entry is hidden and no key is empty. With `-d` every entry is a directory. |
| Ls.LsRecursiveJson | cmd/ptls/ptls.go:131-197 | With `-a -r -j` the output is the object's real tree, named by its pairpath. |
| Ls.LsPlain | cmd/ptls/ptls.go:137-187 | Plain `ptls` lists the visible entries of the object's directory under the pairpath, or nothing when none are visible. |
| Ls.ShowPlain | cmd/ptls/ptls.go:137-187 | The same, for one pairpath. |
| Disk.FileSystem.constructor | pkg/pairtree/pairtree.go:224-393 | A filesystem starts from any tree-shaped map. |
| Disk.FileSystem.MkdirAll | pkg/pairtree/pairtree.go:309 | Adds every missing ancestor as a directory when no file is on the way. Otherwise "not a directory", and nothing changes. |
| Disk.FileSystem.RemoveAll | pkg/pairtree/pairtree.go:231 | Equal to `Removed`. An existing path goes with everything below it. A missing path is no error and changes nothing, unless a file stands on the way: then it is "not a directory" and nothing changes. The empty path is refused. |
| Disk.RemovedIdempotent | pkg/pairtree/pairtree.go:231 | A removal that succeeds keeps the filesystem a tree and leaves nothing at or below the path, so removing it again is no error and changes nothing. |
| Disk.FileSystem.Copy | pkg/pairtree/pairtree.go:294 | A missing source is "not exist". Otherwise the destination's parents are made and the source tree is grafted onto the destination. When a file blocks the way it fails, and the model leaves nothing changed (see Left out). |
| Disk.FileSystem.MkdirTemp | pkg/pairtree/pairtree.go:338 | Adds one new directory. |
| Disk.FileSystem.WriteArchive | pkg/pairtree/pairtree.go:324 | Equal to `ArchiveWrite` of the old state. An existing target is refused. Otherwise the target's parents are made and the archive of the source is written there; a missing source leaves an empty archive behind. |
| Disk.FileSystem.Unarchive | pkg/pairtree/pairtree.go:355 | A missing or unreadable archive changes nothing. Otherwise its members appear below the empty extraction directory. |
| Disk.Ancestors | pkg/pairtree/pairtree.go:309 | `MkdirAll` adds exactly the non-empty prefixes of the path, all as directories. |
| Disk.MkdirAllTree | pkg/pairtree/pairtree.go:309 | Making the directories keeps the filesystem a tree. |
| Disk.WithoutTree | pkg/pairtree/pairtree.go:231 | Removing a subtree keeps the filesystem a tree. |
| Disk.CopyTreeTree | pkg/pairtree/pairtree.go:294 | A successful copy keeps the filesystem a tree. |
| Disk.ExtractTree | pkg/pairtree/pairtree.go:355 | Extracting a readable archive into an empty directory keeps the filesystem a tree. |
| Disk.PackedTop | pkg/pairtree/pairtree.go:324 | An archive of a source holds one top-level entry, named after the source and of the source's kind. |
| Disk.PackedSub | pkg/pairtree/pairtree.go:324 | Below that entry the archive holds exactly the source's tree. |
| Transfer.DeletePairtreeItem | pkg/pairtree/pairtree.go:224-236 | Equal to `Deleted`. A path that `os.Stat` reports missing is "not exist" and changes nothing. A missing path below a file is "not a directory" from `os.RemoveAll` and changes nothing. The root is refused. An existing path is removed with everything below it. |
| Transfer.DeleteTwice | pkg/pairtree/pairtree.go:224-236 | On a well-formed tree, deleting an existing item succeeds, keeps the tree well-formed and leaves nothing at or below the path. Deleting it again is "not exist" and changes nothing. |
| Transfer.DeleteBelowFile | pkg/pairtree/pairtree.go:226-233 | With a file `a.txt`, deleting `a.txt/x` is "not a directory", not "not exist", and nothing changes. |
| Transfer.Into | pkg/pairtree/pairtree.go:282-285 | Copying into a directory targets the source's base name inside it. |
| Transfer.CopyTarget | pkg/pairtree/pairtree.go:279-291 | Without overwrite the copy's target is always a path that does not exist. |
| Transfer.CopyIntoDirectory | pkg/pairtree/pairtree.go:280-282 | With overwrite and an existing directory as destination, the target is that directory joined with the source's base name. |
| Transfer.CopyFileOrFolder | pkg/pairtree/pairtree.go:272-300 | A missing source is "not exist". Otherwise the source is copied to the target and the target is returned; a blocked destination fails, and the model leaves nothing changed (see Left out). Equal to `Copied`. |
| Transfer.CopyIntoFresh | pkg/pairtree/pairtree.go:293-299 | Copying to a free target whose parent can be made puts exactly the source's tree there and leaves every existing path unchanged. |
| Transfer.ArchiveTarget | pkg/pairtree/pairtree.go:313-318 | The archive lands directly in the destination directory. Without overwrite it is a path that does not exist. |
| Transfer.TarGz | pkg/pairtree/pairtree.go:305-329 | The destination directory is made first, and a failure there stops. Then the archive of the source is written under `<cleaned prefix><base>.tgz` or its unique variant. Equal to `Archived`. |
| Transfer.TarGzFresh | pkg/pairtree/pairtree.go:315-318 | Without overwrite the archive write never meets an existing file. |
| Transfer.ArchiveHolds | pkg/pairtree/pairtree.go:321-326 | The archive of a directory is readable, holds one folder named after it, and holds that directory's whole tree. |
| Transfer.UnTarGz | pkg/pairtree/pairtree.go:334-393 | A missing or unreadable archive fails. More than one top entry, or one that is not a folder, is Err12. A folder not named after the destination is Err13. Otherwise the destination is replaced by the folder's tree, and the temporary directory is gone in every case. Equal to `Unarchived`. |
| Transfer.PlaceFolder | pkg/pairtree/pairtree.go:359-373 | The Err12 and Err13 checks on what was extracted, then the copy, and the extraction directory is removed afterwards. Equal to `Unpack`. |
| Transfer.ReplaceDest | pkg/pairtree/pairtree.go:379-392 | The old destination is removed, then the extracted folder is copied there. |
| Transfer.ArchiveRoundTrip | pkg/pairtree/pairtree.go:305-393 | Unpacking an archive of a directory into a destination with the same base name restores that directory's tree exactly. With another base name it is Err13 and nothing changes. |
| Transfer.ArchiveRestores | pkg/pairtree/pairtree.go:305-393 | Archiving an object out of the tree without overwrite, then unpacking that archive back onto the object, succeeds and leaves the object's tree as it was. |
| Transfer.SubOfUnpacked | pkg/pairtree/pairtree.go:388 | After the unpack the destination holds exactly the folder's tree. |
| Unique.ExtStart | pkg/pairtree/pairtree.go:251 | `filepath.Ext` starts at the last dot of the base name, or at its end when there is no dot. |
| Unique.Stem | pkg/pairtree/pairtree.go:252 | The stem followed by the extension is the base name. |
| Unique.AtoiItoa | pkg/pairtree/pairtree.go:259 | The counter written in decimal reads back as the counter. |
| Unique.NumberedInjective | pkg/pairtree/pairtree.go:259 | Different counters give different names. |
| Unique.Candidate | pkg/pairtree/pairtree.go:259-260 | A candidate stays in the destination's directory, with base `<stem>.<n><ext>`. |
| Unique.CandidateInjective | pkg/pairtree/pairtree.go:259-260 | Different counters give different candidate paths. |
| Unique.UniqueDestination | pkg/pairtree/pairtree.go:240-268 | The result is never taken. It is the destination itself when that is free, and otherwise the least-numbered free candidate. |
| Unique.GetUniqueDestination | pkg/pairtree/pairtree.go:240-268 | The probing loop terminates and returns `UniqueDestination`. |
| Unique.UniqueDestinationIs | pkg/pairtree/pairtree.go:255-267 | The first free candidate is the one returned. |
| Unique.UniqueDestinationExample | pkg/pairtree/pairtree_test.go:1131-1135 | With `file.txt`, `file.1.txt` and `file.2.txt` taken, the result is `file.3.txt`. |
| Unique.StatAgrees | pkg/pairtree/pairtree.go:242-265 | When the destination's directory exists, the "not exist" test of `os.Stat` is exactly "not taken". |
| Unique.ProbeNeverStops | pkg/pairtree/pairtree.go:257-267 | When the destination's parent is a file, `os.Stat` never reports "not exist", for the destination or for any candidate. |
| Unique.ProbeNeverStopsExample | pkg/pairtree/pairtree.go:257-267 | The concrete case: a file `a.txt` and the destination `a.txt/x`. |
| Command.PrefixOf | cmd/ptcp/ptcp.go:99-115 | A version-file error comes first, then a prefix-file error. A missing prefix file means `pt://`. The prefix is never empty. |
| Command.ParseTwo | cmd/ptcp/ptcp.go:46-73 | Err7 exactly when neither `-p` nor `PAIRTREE_ROOT` is set. Then fewer than two arguments is Err9 and more than two is Err8. It succeeds exactly with a root and two arguments, source first. |
| Command.RouteRules | cmd/ptcp/ptcp.go:117-141 | The source wins when both sides carry the prefix. The pairtree side is the identifier's pairpath joined with `-n`, inside the root's storage directory. That containment holds because `..` stays a literal component (see Left out). The other side is what was typed. With neither side carrying the prefix the result is Err10. |
| Command.TempApart | pkg/pairtree/pairtree.go:338 | The temporary extraction directory stays new, placeable and apart from every object across the commands' earlier steps. |
| Cp.Run | cmd/ptcp/ptcp.go:38-171 | The whole command on a filesystem. Equal to `Cp`: the plan, then archive or copy out of the tree, or make the pairpath and unpack or copy into it. An empty typed source, or an empty typed copy destination, fails with "not exist" as `os.Stat("")` does. |
| Cp.ArchiveDest | cmd/ptcp/ptcp.go:75-77 | With `-a` there is no subpath, so an unpacking destination is the pairpath itself. |
| Cp.CpCommandLine | cmd/ptcp/ptcp.go:46-141 | The command-line errors come in source order: Err7, Err9, Err8, Err11, the marker files, Err10. Each changes nothing on disk. |
| Cp.CpTypedEmpty | cmd/ptcp/ptcp.go:126-167 | An empty typed path is not the root. Copying or unpacking from "" into an object makes the pairpath and then fails with "not exist". Copying an object to "" fails with "not exist" and changes nothing. |
| Cp.CpIntoTreeKeeps | cmd/ptcp/ptcp.go:126-168 | Copying a source that does not lie at or above the pairpath into an object without `-d` succeeds. The copy lands on a new path inside the object, holds exactly the source's tree, and every existing path is kept unchanged. |
| Mv.Run | cmd/ptmv/ptmv.go:33-169 | The whole command on a filesystem. Equal to `Mv`: the plan, making the pairpath, removing the destination, the always-overwriting transfer, and removing the source only after the transfer succeeded. The typed path of the side outside the tree is what `os.RemoveAll` gets, so one ending in `.` is refused. An empty typed path is not removed, and a copy or unpacking from or to it fails with "not exist". |
| Mv.MoveStep | cmd/ptmv/ptmv.go:136-167 | The removal of the destination, the transfer and the removal of the source, each stopping the command on failure. Equal to `MoveFrom`. |
| Mv.MvRoute | cmd/ptmv/ptmv.go:107-131 | ptmv takes no subpath, so a pairtree destination is the pairpath itself. |
| Mv.MvCommandLine | cmd/ptmv/ptmv.go:41-131 | Err7, then Err9 and Err8, then the marker files, then Err10, each changing nothing on disk. |
| Mv.MvRemovesSource | cmd/ptmv/ptmv.go:165-167 | After a successful move the source no longer exists. |
| Mv.MvFailedCopy | cmd/ptmv/ptmv.go:136-163 | For a non-empty typed path, a failed copy reports its error and leaves the disk as the removal of the destination left it. A source that existed and does not lie at or below the destination is still there. |
| Mv.MvTypedDot | cmd/ptmv/ptmv.go:136-167 | A typed path whose last element is `.` is refused by `os.RemoveAll`. Moving out of the tree to it fails with nothing changed. Moving from it into the tree never succeeds, and after a copy the source is still there. |
| Mv.MvTypedEmpty | cmd/ptmv/ptmv.go:136-167 | An empty typed path is not the root. A move from it into the tree removes the pairpath, then fails with "not exist". A copy out of the tree to it fails with "not exist" and changes nothing. An archive out of the tree to it removes nothing first. |
| Mv.MoveFromRemovesSource | cmd/ptmv/ptmv.go:165-167 | A move that succeeds has removed its source. |
| Mv.SubWithout | cmd/ptmv/ptmv.go:136-138 | Removing one tree leaves a tree apart from it untouched. |
| Mv.TransferStep | cmd/ptmv/ptmv.go:140-163 | The transfer step of a move. Equal to `Transferred`: an archive of the object out of the tree, an unpacking into it, or an always-overwriting copy. |
| Mv.MovePlain | cmd/ptmv/ptmv.go:136-167 | A plain move between apart paths, with a non-empty typed path not ending in `.`, succeeds. The destination then holds exactly the source's former tree, and the source is gone. |

## Left out

- Printing and logging are not modelled: the messages, the zap logger, the
  cobra flag parsing and the help exit. Flags and arguments are parameters.
- Text output of ptls: Go prints the map in random key order, so the model
  returns the map itself. `ToJSONStructure` (pkg/pairtree/pairtree.go:212-220)
  is `json.MarshalIndent` and is left out; the model returns the `Directory`
  value that it would print.
- Environment and marker files: `PAIRTREE_ROOT` and the content of the two
  marker files are parameters, not files read from the modelled disk.
- ptls reads the disk as a snapshot tree of `Node`s. ptcp and ptmv change a
  `Disk.FileSystem`. The two views are not linked.
- `Cp.Run`, `Mv.Run`: the temporary directory of `UnTarGz` is a parameter,
  and the precondition `Command.TempUsable` says what the operating system
  guarantees of it: new, inside an existing directory, and outside the
  pairtree root.
- `Pairtree.CreatePP`: the caltech pairtree library is not part of this
  model. Its `Encode` and `CharEncode` are taken to be the shard split and
  the cleaning table of pkg/pt/pt.go:102-124.
- `CreateDirNotExist`, called by ptcp and ptmv, is not part of this model.
  By its name and its test, it is modelled as `os.MkdirAll`. Its error for
  an empty path cannot arise here, because a pairpath is never empty.
- The copy library (otiai10/copy) and the archiver (mholt/archiver) are
  modelled by what the code relies on:
  - a copy grafts the source tree onto the destination, making the parents;
  - an archive holds the tree it packs;
  - writing an archive over an existing file is refused, because the
    archiver's `OverwriteExisting` is off by default.
  - `Transfer.TarGz`: as a result, `ptcp -a -d` onto an existing archive
    fails rather than replacing it.
  Their options, symbolic links, permissions and file contents beyond
  equality are not modelled.
- `Disk.FileSystem.Copy`: a copy that fails part-way leaves nothing
  changed in the model. otiai10/copy leaves behind whatever it had already
  written.
- `Transfer.CopyFileOrFolder`: the same holds. `Transfer.CopyIntoFresh` and
  `Cp.CpIntoTreeKeeps` rest on the copy being a one-shot graft of the
  source's tree. Go's recursive copy of a directory into a target at or
  below itself re-reads its own output; that case is not modelled, and
  `Cp.CpIntoTreeKeeps` excludes it.
- `Command.RouteRules`: the pairtree side stays inside the storage
  directory only because `..` in a `-n` subpath is kept as a literal
  component. Go's `filepath.Join` resolves it, so a subpath such as
  `../../x` leaves the object's directory.
- `Paths.PathString`, `DirTree.BuildDirectoryTree`: a path is printed
  without a leading `/`. For an absolute pairtree root, Go names the top
  directory of a JSON listing (`Ls.LsRecursiveJson`) with the leading `/`;
  the model's name lacks it.
- Operating-system errors are collapsed into a few values: "not exist",
  "not a directory", "invalid path" and an unreadable archive. Permission
  and I/O failures are not modelled.
- Paths:
  - strings are sequences of characters, not UTF-8 bytes;
  - `..` is kept as a literal component, not resolved;
  - the filesystem root itself is implicit.
- `Mv.Run`: a typed destination other than "" whose components all
  vanish, such as "/", is refused with "invalid path" before anything is
  removed. Go hands "/" to `os.RemoveAll`.
- `Cp.Run`, `Mv.Run`: an archive out of the tree to the empty typed
  destination is written under its own name in the working directory,
  which the model does not tell apart from the root.
- `Transfer.DeletePairtreeItem`: the root's empty path is refused with
  "invalid path". Go's function reports "not exist" from `os.Stat` for ""
  and hands "/" to `os.RemoveAll`. Its only caller is ptrm, which is not
  part of this model.
- `Cp.Run`, `Mv.Run`: a typed source that ends in `/` or `/.` and names a
  file is copied as that file. Go's `os.Stat` fails on it with "not a
  directory".
- `Transfer.CopyFileOrFolder`: a missing source below a file is reported
  as "not exist". Go's `os.Stat` reports "not a directory".
- `Cp.Run`, `Mv.Run`: a trailing separator on an archive destination is
  dropped. Go's `filepath.Dir` of `out/` is `out` itself, so Go makes `out`
  with `os.MkdirAll`; the model leaves it to the archive write.
- `Transfer.UnTarGz`: the second check that the source exists
  (pkg/pairtree/pairtree.go:374-377) cannot fail once extraction has
  succeeded, so it is not modelled.
- The pkg/pt/pt.go twins of `IsHidden`, `RecursiveFiles`,
  `NonRecursiveFiles` and `BuildDirectoryTree` have the same bodies as in
  pkg/pairtree and are modelled once. Its `ToJSONStructure(rootPath,
  entriesMap)` is JSON encoding and is left out.
- The pkg/pt/pt.go twins of `GetPrefix` and `CheckPTVer` are modelled by
  `Markers.GetPrefix` and `Markers.CheckPTVer`, which take the file's state
  as a value. Two differences therefore do not show:
  - pt.go reads its marker files one level deeper, at
    `pairtree_prefix/pairtree_prefix` and
    `pairtree_version0_1/pairtree_version0_1` (pkg/pt/pt.go:33-34, against
    pkg/pairtree/pairtree.go:38-39);
  - its errors are unnumbered `errors.New` and `fmt.Errorf` values
    (pkg/pt/pt.go:70, 95, 138), not `Err1`, `Err2` and `Err5`.
- `Pt.CreatePP` reports those unnumbered errors as `PrefixFileEmpty` and
  `IdLacksPrefix`, the values of `Err1` and `Err5`. The model compares
  errors by meaning, not by Go identity.
- The ptrm and ptnew commands are not part of this model.
- `Unique.UniqueDestination`: numbering starts from the destination's own
  stem. When the destination is `file.1.txt` and it is taken, the next
  name is `file.1.1.txt`, not `file.2.txt`.
- `Mv.Run`: ptmv removes the pairpath that it has just made, then copies
  the source in its place.

## Findings

| source | as written | input that shows it | evidently intended | confidence | as-written member | corrected member |
|---|---|---|---|---|---|---|
| pkg/pairtree/pairtree.go:257-267 | The loop stops only at a candidate for which `os.Stat` reports "not exist". | A file `a.txt` and a copy destination `a.txt/x` without `-d`: every `os.Stat` fails with ENOTDIR, so no candidate ever stops the loop. | Stop at the first candidate that is not taken; the copy then fails with "not a directory". | not executed | Unique.ProbeNeverStops | Unique.GetUniqueDestination |
