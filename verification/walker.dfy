/**
  The directory-entry maps of pkg/pairtree/pairtree.go (and their twins in
  pkg/pt/pt.go): `RecursiveFiles`, which fills a map from directory paths to
  their entries while `filepath.WalkDir` visits a subtree, and
  `NonRecursiveFiles`, which lists one directory.

  The directory being listed is given as a value: a `Node` whose children are
  in the order `os.ReadDir` reports them.  `WalkDir` visits a directory, then
  each child followed by the child's own subtree; `Walk` writes that order
  out, and the method `RecursiveFiles` runs the callback of the source over
  it.
 */
module Walker {
  import opened Errors
  import opened Paths

  /** A file or a directory with its children, in directory-read order. */
  datatype Node =
    | FileNode(name: string)
    | DirNode(name: string, children: seq<Node>)

  /** What `fs.DirEntry` tells the callback: a name and whether it is a directory. */
  datatype DirEntry = DirEntry(name: string, isDir: bool)

  /** The result of both listings: directory path to the entries listed under it. */
  type EntryMap = map<Path, seq<DirEntry>>

  /** One call of the walk callback: a path and its entry. */
  datatype Visit = Visit(path: Path, entry: DirEntry)

  function EntryOf(n: Node): (e: DirEntry)
    ensures e.name == n.name && (e.isDir <==> n.DirNode?)
  {
    DirEntry(n.name, n.DirNode?)
  }

  /** The entries `os.ReadDir` returns for a directory with children `cs`. */
  function Entries(cs: seq<Node>): (es: seq<DirEntry>)
    ensures |es| == |cs|
    ensures forall i :: 0 <= i < |cs| ==> es[i] == EntryOf(cs[i])
  {
    if cs == [] then [] else [EntryOf(cs[0])] + Entries(cs[1..])
  }

  /** A map lookup that yields the empty list for a missing key, as Go's map indexing does. */
  function Get(m: EntryMap, k: Path): seq<DirEntry>
  {
    if k in m then m[k] else []
  }

  /**
    Sibling names are distinct, and no name is empty, "." or contains '/',
    so that each node has its own path.  Every real directory is like this.
   */
  predicate WellFormed(cs: seq<Node>)
    decreases cs
  {
    && (forall i, j :: 0 <= i < j < |cs| ==> cs[i].name != cs[j].name)
    && (forall i :: 0 <= i < |cs| ==> !Vanishes(cs[i].name) && '/' !in cs[i].name)
    && (forall i :: 0 <= i < |cs| ==> cs[i].DirNode? ==> WellFormed(cs[i].children))
  }

  // ---------------------------------------------------------------------
  // Lookup by relative path

  /** Index of the first child named `x`, if any. */
  function Find(cs: seq<Node>, x: string): (r: Option<nat>)
    ensures r.Some? ==> r.value < |cs| && cs[r.value].name == x
    ensures r.Some? ==> forall i :: 0 <= i < r.value ==> cs[i].name != x
    ensures r.None? ==> forall i :: 0 <= i < |cs| ==> cs[i].name != x
  {
    if cs == [] then None
    else if cs[0].name == x then Some(0)
    else match Find(cs[1..], x)
      case None => None
      case Some(i) => Some(i + 1)
  }

  /** The node at relative path `rel` below a directory with children `cs`. */
  function At(cs: seq<Node>, rel: Path): Option<Node>
    requires rel != []
    decreases |rel|
  {
    match Find(cs, rel[0])
    case None => None
    case Some(i) =>
      if |rel| == 1 then Some(cs[i])
      else if cs[i].DirNode? then At(cs[i].children, rel[1..])
      else None
  }

  /** With distinct names, the child named like `cs[i]` is `cs[i]`. */
  lemma FindDistinct(cs: seq<Node>, i: nat)
    requires WellFormed(cs) && i < |cs|
    ensures Find(cs, cs[i].name) == Some(i)
  {
  }

  /** Looking one component further down: the child of the node at `rel`. */
  lemma {:induction false} AtSnoc(cs: seq<Node>, rel: Path, x: string)
    requires rel != []
    ensures At(cs, rel + [x]) ==
      match At(cs, rel)
      case Some(DirNode(_, ch)) =>
        (match Find(ch, x) case None => None case Some(j) => Some(ch[j]))
      case _ => None
    decreases |rel|
  {
    assert (rel + [x])[0] == rel[0];
    match Find(cs, rel[0])
    case None =>
    case Some(i) =>
      if |rel| == 1 {
        assert (rel + [x])[1..] == [x];
      } else if cs[i].DirNode? {
        assert (rel + [x])[1..] == rel[1..] + [x];
        AtSnoc(cs[i].children, rel[1..], x);
      }
  }

  // ---------------------------------------------------------------------
  // The walk and the callback

  /** The visits `filepath.WalkDir` makes below `p`, whose children are `cs`. */
  function Walk(p: Path, cs: seq<Node>): (vs: seq<Visit>)
    ensures forall i :: 0 <= i < |vs| ==> p < vs[i].path
    decreases cs
  {
    if cs == [] then []
    else
      var n := cs[0];
      var q := p + [n.name];
      [Visit(q, EntryOf(n))] + (if n.DirNode? then Walk(q, n.children) else []) + Walk(p, cs[1..])
  }

  /** The callback of `RecursiveFiles` (pairtree.go:141-163) applied to one visit. */
  function Step(start: Path, m: EntryMap, v: Visit): EntryMap
  {
    if v.path == start then m
    else
      var parent := Dir(v.path);
      var m' := m[parent := Get(m, parent) + [v.entry]];
      if v.entry.isDir then m'[v.path := []] else m'
  }

  /** The callback applied to a sequence of visits, first to last. */
  function Apply(start: Path, m: EntryMap, vs: seq<Visit>): EntryMap
    decreases |vs|
  {
    if vs == [] then m else Apply(start, Step(start, m, vs[0]), vs[1..])
  }

  lemma {:induction false} ApplyAppend(start: Path, m: EntryMap, a: seq<Visit>, b: seq<Visit>)
    ensures Apply(start, m, a + b) == Apply(start, Apply(start, m, a), b)
    decreases |a|
  {
    if a == [] {
      assert a + b == b;
    } else {
      assert (a + b)[0] == a[0];
      assert (a + b)[1..] == a[1..] + b;
      ApplyAppend(start, Step(start, m, a[0]), a[1..], b);
    }
  }

  // ---------------------------------------------------------------------
  // The reference listing

  /**
    The keys strictly below `p`: every subdirectory, even an empty one,
    mapped to its entries.
   */
  function Below(p: Path, cs: seq<Node>): EntryMap
    decreases cs
  {
    if cs == [] then map[]
    else
      var n := cs[0];
      var q := p + [n.name];
      (if n.DirNode? then map[q := Entries(n.children)] + Below(q, n.children) else map[])
      + Below(p, cs[1..])
  }

  /**
    What `RecursiveFiles` returns for a directory `p` with children `cs`:
    `p` itself only when it has a child, then everything below.
   */
  function RecursiveListing(p: Path, cs: seq<Node>): EntryMap
  {
    (if cs == [] then map[] else map[p := Entries(cs)]) + Below(p, cs)
  }

  lemma {:induction false} BelowKeys(p: Path, cs: seq<Node>)
    ensures forall k :: k in Below(p, cs) ==> p < k
    decreases cs
  {
    if cs != [] {
      var n := cs[0];
      var q := p + [n.name];
      if n.DirNode? {
        BelowKeys(q, n.children);
      }
      BelowKeys(p, cs[1..]);
    }
  }

  /**
    The fold of the callback over a walk, from any starting map: the list
    of `p` grows by the entries of `cs`, and every key below `p` is replaced
    by the reference listing.
   */
  lemma {:induction false} ApplyWalk(start: Path, m: EntryMap, p: Path, cs: seq<Node>)
    requires start <= p
    ensures Apply(start, m, Walk(p, cs))
         == (if cs == [] then m else m[p := Get(m, p) + Entries(cs)]) + Below(p, cs)
    decreases cs
  {
    if cs != [] {
      var n := cs[0];
      var q := p + [n.name];
      var sub := if n.DirNode? then Walk(q, n.children) else [];
      var rest := cs[1..];
      var part := if n.DirNode? then map[q := Entries(n.children)] + Below(q, n.children) else map[];
      assert Walk(p, cs) == ([Visit(q, EntryOf(n))] + sub) + Walk(p, rest);
      assert Below(p, cs) == part + Below(p, rest);
      assert Entries(cs) == [EntryOf(n)] + Entries(rest);
      ApplyAppend(start, m, [Visit(q, EntryOf(n))] + sub, Walk(p, rest));
      ApplyChild(start, m, p, n);
      var m2 := m[p := Get(m, p) + [EntryOf(n)]] + part;
      ApplyWalk(start, m2, p, rest);
      BelowKeys(p, rest);
      PartKeys(p, n);
      Combine(m, p, Get(m, p), EntryOf(n), Entries(rest), part, Below(p, rest));
    }
  }

  /** The bookkeeping of `ApplyWalk`: the head child, then its siblings. */
  lemma Combine(m: EntryMap, p: Path, g: seq<DirEntry>, e: DirEntry, r: seq<DirEntry>,
                part: EntryMap, b: EntryMap)
    requires p !in part && p !in b
    ensures var m2 := m[p := g + [e]] + part;
      (if r == [] then m2 else m2[p := Get(m2, p) + r]) + b == m[p := g + ([e] + r)] + (part + b)
  {
    var m2 := m[p := g + [e]] + part;
    assert Get(m2, p) == g + [e];
    assert g + [e] + r == g + ([e] + r);
    if r == [] {
      assert [e] + r == [e];
    }
  }

  /** The keys a child contributes lie strictly below the parent's path. */
  lemma PartKeys(p: Path, n: Node)
    ensures n.DirNode? ==> forall k :: k in map[p + [n.name] := Entries(n.children)] + Below(p + [n.name], n.children) ==> p < k
  {
    if n.DirNode? {
      BelowKeys(p + [n.name], n.children);
    }
  }

  /** A child's own visit followed by its subtree's visits. */
  lemma ApplyChild(start: Path, m: EntryMap, p: Path, n: Node)
    requires start <= p
    ensures var q := p + [n.name];
      Apply(start, m, [Visit(q, EntryOf(n))] + (if n.DirNode? then Walk(q, n.children) else []))
      == m[p := Get(m, p) + [EntryOf(n)]]
         + (if n.DirNode? then map[q := Entries(n.children)] + Below(q, n.children) else map[])
    decreases n
  {
    var q := p + [n.name];
    var v := Visit(q, EntryOf(n));
    var m0 := m[p := Get(m, p) + [EntryOf(n)]];
    StepChild(start, m, p, n);
    var m1 := Step(start, m, v);
    if n.DirNode? {
      var ch := n.children;
      ApplyAppend(start, m, [v], Walk(q, ch));
      ApplyWalk(start, m1, q, ch);
      SubtreeFromReset(m0, q, ch);
    } else {
      assert [v] + [] == [v];
    }
  }

  /** The child's own visit: appended to its parent's list, and reset when a directory. */
  lemma StepChild(start: Path, m: EntryMap, p: Path, n: Node)
    requires start <= p
    ensures var q := p + [n.name];
      var m0 := m[p := Get(m, p) + [EntryOf(n)]];
      Apply(start, m, [Visit(q, EntryOf(n))]) == Step(start, m, Visit(q, EntryOf(n)))
      && Step(start, m, Visit(q, EntryOf(n))) == (if n.DirNode? then m0[q := []] else m0)
  {
    var q := p + [n.name];
    assert Dir(q) == p;
    assert q != start;
  }

  /** A directory whose key was just reset, filled by the walk of its children. */
  lemma SubtreeFromReset(m0: EntryMap, q: Path, ch: seq<Node>)
    ensures var m1 := m0[q := []];
      (if ch == [] then m1 else m1[q := Get(m1, q) + Entries(ch)]) + Below(q, ch)
      == m0 + (map[q := Entries(ch)] + Below(q, ch))
  {
    ResetFill(m0, q, Entries(ch), Below(q, ch), ch == []);
  }

  lemma ResetFill(m0: EntryMap, q: Path, x: seq<DirEntry>, b: EntryMap, empty: bool)
    requires empty ==> x == []
    ensures var m1 := m0[q := []];
      (if empty then m1 else m1[q := Get(m1, q) + x]) + b == m0 + (map[q := x] + b)
  {
    var m1 := m0[q := []];
    assert Get(m1, q) + x == x;
  }

  /** Every visit of a walk below `start` is strictly below it, so none is skipped. */
  lemma RecursiveListingIsFold(start: Path, cs: seq<Node>, rootEntry: DirEntry)
    ensures Apply(start, map[], [Visit(start, rootEntry)] + Walk(start, cs)) == RecursiveListing(start, cs)
  {
    var v := Visit(start, rootEntry);
    ApplyAppend(start, map[], [v], Walk(start, cs));
    assert Apply(start, map[], [v]) == map[];
    ApplyWalk(start, map[], start, cs);
    assert Get(map[], start) + Entries(cs) == Entries(cs);
  }

  // ---------------------------------------------------------------------
  // The two listings

  /**
    `RecursiveFiles` (pairtree.go:139-166): walk the node at `start`,
    skipping the start itself, appending every visited entry to the list of
    its parent directory and giving every visited directory a key.  A
    missing start fails with the walk's error; a file start visits only
    itself and yields an empty map.
   */
  method RecursiveFiles(start: Path, at: Option<Node>) returns (r: Result<EntryMap>)
    ensures at.None? ==> r == Err(NotExist)
    ensures at.Some? && at.value.FileNode? ==> r == Ok(map[])
    ensures at.Some? && at.value.DirNode? ==> r == Ok(RecursiveListing(start, at.value.children))
  {
    if at.None? {
      return Err(NotExist);
    }
    var node := at.value;
    var visits := [Visit(start, EntryOf(node))] + (if node.DirNode? then Walk(start, node.children) else []);
    var result: EntryMap := map[];
    var i := 0;
    while i < |visits|
      invariant 0 <= i <= |visits|
      invariant result == Apply(start, map[], visits[..i])
    {
      var v := visits[i];
      if v.path != start {
        var parent := Dir(v.path);
        var siblings := if parent in result then result[parent] else [];
        result := result[parent := siblings + [v.entry]];
        if v.entry.isDir {
          result := result[v.path := []];
        }
      }
      ApplyAppend(start, map[], visits[..i], [v]);
      assert visits[..i + 1] == visits[..i] + [v];
      i := i + 1;
    }
    assert visits[..i] == visits;
    if node.DirNode? {
      RecursiveListingIsFold(start, node.children, EntryOf(node));
    } else {
      assert visits == [Visit(start, EntryOf(node))];
    }
    return Ok(result);
  }

  /**
    `NonRecursiveFiles` (pairtree.go:169-180): the one directory's entries,
    under its own path even when there are none.  `os.ReadDir` fails on a
    missing path and on a file.
   */
  function NonRecursiveFiles(start: Path, at: Option<Node>): (r: Result<EntryMap>)
    ensures at.None? <==> r == Err(NotExist)
    ensures at.Some? && at.value.FileNode? <==> r == Err(NotADirectory)
    ensures r.Ok? ==> r.value.Keys == {start} && r.value[start] == Entries(at.value.children)
  {
    match at
    case None => Err(NotExist)
    case Some(FileNode(_)) => Err(NotADirectory)
    case Some(DirNode(_, cs)) => Ok(map[start := Entries(cs)])
  }

  // ---------------------------------------------------------------------
  // What the recursive listing holds

  /**
    The start path is a key exactly when the directory has a child, and its
    list is then the directory's own entries; every other key lies strictly
    below it.
   */
  lemma RecursiveListingStart(start: Path, cs: seq<Node>)
    ensures start in RecursiveListing(start, cs) <==> cs != []
    ensures cs != [] ==> RecursiveListing(start, cs)[start] == Entries(cs)
    ensures forall k :: k in RecursiveListing(start, cs) ==> start <= k
  {
    BelowKeys(start, cs);
  }

  /**
    The non-recursive listing is the top of the recursive one.  They part
    only on an empty directory: the walk makes the start a key only when
    it has a child, while `ReadDir` lists it with no entries.
   */
  lemma NonRecursiveIsTop(start: Path, cs: seq<Node>)
    ensures cs != [] ==>
      NonRecursiveFiles(start, Some(DirNode(Base(start), cs))).value
        == map[start := RecursiveListing(start, cs)[start]]
    ensures cs == [] ==>
      && NonRecursiveFiles(start, Some(DirNode(Base(start), cs))).value == map[start := []]
      && start !in RecursiveListing(start, cs)
  {
    BelowKeys(start, cs);
  }

  /**
    Below the start, the keys are exactly the subdirectories, each with its
    own entries.
   */
  lemma {:induction false} BelowAt(p: Path, cs: seq<Node>, rel: Path)
    requires WellFormed(cs) && rel != []
    ensures p + rel in Below(p, cs) <==> At(cs, rel).Some? && At(cs, rel).value.DirNode?
    ensures p + rel in Below(p, cs) ==> Below(p, cs)[p + rel] == Entries(At(cs, rel).value.children)
    decreases cs
  {
    if cs != [] {
      var n := cs[0];
      var q := p + [n.name];
      var rest := cs[1..];
      assert WellFormed(rest);
      BelowKeys(p, rest);
      if n.DirNode? {
        BelowKeys(q, n.children);
      }
      if rel[0] == n.name {
        assert Find(cs, rel[0]) == Some(0);
        // no later sibling shares the name, so nothing below `rest` starts with q
        assert p + rel !in Below(p, rest) by {
          if p + rel in Below(p, rest) {
            BelowUnder(p, rest, p + rel);
          }
        }
        if |rel| == 1 {
          assert p + rel == q;
          if n.DirNode? {
            assert q !in Below(q, n.children);
          }
        } else if n.DirNode? {
          assert p + rel == q + rel[1..];
          assert p + rel != q;
          BelowAt(q, n.children, rel[1..]);
        } else {
          assert p + rel !in Below(p, cs);
        }
      } else {
        AtPastFirst(cs, rel);
        assert (p + rel)[..|q|] != q by {
          assert (p + rel)[|p|] == rel[0];
          assert q[|p|] == n.name;
        }
        if n.DirNode? {
          assert p + rel !in map[q := Entries(n.children)] + Below(q, n.children);
        }
        BelowAt(p, rest, rel);
      }
    }
  }

  /** A path whose first component is not the first child's name is looked up among the rest. */
  lemma AtPastFirst(cs: seq<Node>, rel: Path)
    requires cs != [] && rel != [] && rel[0] != cs[0].name
    ensures At(cs, rel) == At(cs[1..], rel)
  {
    var rest := cs[1..];
    assert Find(cs, rel[0]) == match Find(rest, rel[0]) case None => None case Some(i) => Some(i + 1);
    match Find(rest, rel[0])
    case None =>
    case Some(i) =>
      assert cs[i + 1] == rest[i];
  }

  /** A key below `p` names a child of `cs` as its first component past `p`. */
  lemma {:induction false} BelowUnder(p: Path, cs: seq<Node>, k: Path)
    requires k in Below(p, cs)
    ensures p < k && exists j :: 0 <= j < |cs| && cs[j].name == k[|p|]
    decreases cs
  {
    BelowKeys(p, cs);
    var n := cs[0];
    var q := p + [n.name];
    if k in Below(p, cs[1..]) {
      BelowUnder(p, cs[1..], k);
      var j :| 0 <= j < |cs[1..]| && cs[1..][j].name == k[|p|];
      assert cs[j + 1].name == k[|p|];
    } else {
      assert n.DirNode?;
      if k != q {
        BelowKeys(q, n.children);
        assert q <= k;
      }
      assert k[|p|] == n.name;
    }
  }

  /**
    The properties the package's tests check of `RecursiveFiles`, for a
    directory without duplicate names: every node strictly below the start
    is listed under its parent directory's key; every subdirectory, even an
    empty one, has a key; and the start itself is never listed, since every
    listed entry is a node found strictly below it.
   */
  lemma RecursiveListingComplete(start: Path, cs: seq<Node>, rel: Path)
    requires WellFormed(cs) && rel != [] && At(cs, rel).Some?
    ensures var m := RecursiveListing(start, cs);
      var parent := start + rel[..|rel| - 1];
      && parent in m && EntryOf(At(cs, rel).value) in m[parent]
      && (At(cs, rel).value.DirNode? ==> start + rel in m)
  {
    BelowAt(start, cs, rel);
    ListingAt(start, cs, start + rel);
    ParentListed(start, cs, rel);
  }

  /** The entry of a node found below the start is listed under its parent's key. */
  lemma ParentListed(start: Path, cs: seq<Node>, rel: Path)
    requires WellFormed(cs) && rel != [] && At(cs, rel).Some?
    ensures var m := RecursiveListing(start, cs);
      var parent := start + rel[..|rel| - 1];
      parent in m && EntryOf(At(cs, rel).value) in m[parent]
  {
    var parent := start + rel[..|rel| - 1];
    if |rel| == 1 {
      ListingAt(start, cs, parent);
      TopEntryComplete(start, cs, rel);
      assert parent == start && cs != [];
    } else {
      var up, x := rel[..|rel| - 1], rel[|rel| - 1];
      assert rel == up + [x];
      DeeperListed(start, cs, up, x);
    }
  }

  /** The entry of a node below the subdirectory `up` is listed under `up`'s key. */
  lemma DeeperListed(start: Path, cs: seq<Node>, up: Path, x: string)
    requires WellFormed(cs) && up != [] && At(cs, up + [x]).Some?
    ensures var m := RecursiveListing(start, cs);
      start + up in m && EntryOf(At(cs, up + [x]).value) in m[start + up]
  {
    AtSnoc(cs, up, x);
    assert At(cs, up).Some? && At(cs, up).value.DirNode?;
    BelowAt(start, cs, up);
    ListingAt(start, cs, start + up);
    DeeperEntryComplete(cs, up, x);
  }

  /** The listing is the start's own entries, when it has any, laid under everything below it. */
  lemma ListingAt(start: Path, cs: seq<Node>, k: Path)
    ensures k in RecursiveListing(start, cs) <==> (cs != [] && k == start) || k in Below(start, cs)
    ensures k in Below(start, cs) ==> RecursiveListing(start, cs)[k] == Below(start, cs)[k]
    ensures cs != [] && k == start ==> RecursiveListing(start, cs)[k] == Entries(cs)
  {
    BelowKeys(start, cs);
  }

  /** A child of the start is among the start's own entries. */
  lemma TopEntryComplete(start: Path, cs: seq<Node>, rel: Path)
    requires |rel| == 1 && At(cs, rel).Some?
    ensures start + rel[..0] == start && EntryOf(At(cs, rel).value) in Entries(cs)
  {
    assert rel[..0] == [];
    var i := Find(cs, rel[0]).value;
    assert Entries(cs)[i] == EntryOf(At(cs, rel).value);
  }

  /** A node one step below the subdirectory `up` is among that subdirectory's entries. */
  lemma DeeperEntryComplete(cs: seq<Node>, up: Path, x: string)
    requires up != [] && At(cs, up).Some? && At(cs, up).value.DirNode? && At(cs, up + [x]).Some?
    ensures EntryOf(At(cs, up + [x]).value) in Entries(At(cs, up).value.children)
  {
    AtSnoc(cs, up, x);
    var ch := At(cs, up).value.children;
    var j := Find(ch, x).value;
    assert Entries(ch)[j] == EntryOf(ch[j]);
  }

  lemma RecursiveListingSound(start: Path, cs: seq<Node>, k: Path, i: nat)
    requires WellFormed(cs)
    requires k in RecursiveListing(start, cs) && i < |RecursiveListing(start, cs)[k]|
    ensures start <= k
    ensures var e := RecursiveListing(start, cs)[k][i];
      var rel := (k + [e.name])[|start|..];
      rel != [] && At(cs, rel).Some? && EntryOf(At(cs, rel).value) == e
  {
    var m := RecursiveListing(start, cs);
    BelowKeys(start, cs);
    if k == start {
      assert m[k] == Entries(cs);
      TopEntrySound(start, cs, i);
    } else {
      var up := k[|start|..];
      assert k == start + up;
      BelowAt(start, cs, up);
      DeeperEntrySound(start, cs, up, i);
    }
  }

  /** An entry listed under the start is the child of that name. */
  lemma TopEntrySound(start: Path, cs: seq<Node>, i: nat)
    requires WellFormed(cs) && i < |Entries(cs)|
    ensures var e := Entries(cs)[i];
      var rel := (start + [e.name])[|start|..];
      rel != [] && At(cs, rel).Some? && EntryOf(At(cs, rel).value) == e
  {
    var e := Entries(cs)[i];
    assert (start + [e.name])[|start|..] == [cs[i].name];
    FindDistinct(cs, i);
  }

  /** An entry listed under the subdirectory `up` is the node found one step further down. */
  lemma DeeperEntrySound(start: Path, cs: seq<Node>, up: Path, i: nat)
    requires WellFormed(cs) && up != [] && At(cs, up).Some? && At(cs, up).value.DirNode?
    requires i < |Entries(At(cs, up).value.children)|
    ensures var e := Entries(At(cs, up).value.children)[i];
      var rel := (start + up + [e.name])[|start|..];
      rel != [] && At(cs, rel).Some? && EntryOf(At(cs, rel).value) == e
  {
    var ch := At(cs, up).value.children;
    var e := Entries(ch)[i];
    assert e == EntryOf(ch[i]);
    assert (start + up + [e.name])[|start|..] == up + [ch[i].name];
    AtSnoc(cs, up, ch[i].name);
    assert WellFormed(ch) by { AtWellFormed(cs, up); }
    FindDistinct(ch, i);
  }

  /** The children of a directory found by lookup are well formed too. */
  lemma {:induction false} AtWellFormed(cs: seq<Node>, rel: Path)
    requires WellFormed(cs) && rel != [] && At(cs, rel).Some? && At(cs, rel).value.DirNode?
    ensures WellFormed(At(cs, rel).value.children)
    decreases |rel|
  {
    var i := Find(cs, rel[0]).value;
    if |rel| > 1 {
      AtWellFormed(cs[i].children, rel[1..]);
    }
  }
}
