/**
  Paths as sequences of components.  `filepath.Join` becomes concatenation
  and `filepath.Dir` / `filepath.Base` become the prefix and the last
  component.  Raw strings typed by a user are split on '/': empty and "."
  components vanish, as they do under `filepath.Clean`, but `..` is kept as
  a literal component and a leading '/' is not recorded.
 */
module Paths {

  type Path = seq<string>

  /** A component `filepath.Clean` would drop. */
  predicate Vanishes(c: string)
  {
    c == "" || c == "."
  }

  /** Index of the first '/' in `s`, or |s| when there is none. */
  function FirstSep(s: string): (n: nat)
    ensures n <= |s|
    ensures forall i :: 0 <= i < n ==> s[i] != '/'
    ensures n < |s| ==> s[n] == '/'
  {
    if s == [] || s[0] == '/' then 0 else 1 + FirstSep(s[1..])
  }

  /** The components of a raw path string. */
  function SplitPath(s: string): (p: Path)
    ensures forall i :: 0 <= i < |p| ==> !Vanishes(p[i]) && '/' !in p[i]
    decreases |s|
  {
    if s == [] then []
    else if s[0] == '/' then SplitPath(s[1..])
    else
      var n := FirstSep(s);
      var c := s[..n];
      if Vanishes(c) then SplitPath(s[n..]) else [c] + SplitPath(s[n..])
  }

  /** `filepath.Base`: the last component; "." for the empty path. */
  function Base(p: Path): string
  {
    if p == [] then "." else p[|p| - 1]
  }

  /** `filepath.Dir`: everything but the last component. */
  function Dir(p: Path): (d: Path)
    ensures p != [] ==> p == d + [Base(p)]
  {
    if p == [] then [] else p[..|p| - 1]
  }

  /** The components joined with '/', as Go prints the path; "." when empty. */
  function PathString(p: Path): string
  {
    if p == [] then "."
    else if |p| == 1 then p[0]
    else PathString(p[..|p| - 1]) + "/" + p[|p| - 1]
  }

  /** A path as the user typed it: its components, and whether it ended in '/'. */
  datatype Location = Location(path: Path, trailingSep: bool)

  function ParseLocation(s: string): (l: Location)
    ensures l.path == SplitPath(s)
    ensures l.trailingSep <==> |s| > 0 && s[|s| - 1] == '/'
  {
    Location(SplitPath(s), |s| > 0 && s[|s| - 1] == '/')
  }

  /** A component that `SplitPath` can produce: neither vanishing nor containing '/'. */
  predicate Component(c: string)
  {
    !Vanishes(c) && '/' !in c
  }

  lemma {:induction false} FirstSepJoin(a: string, b: string)
    ensures FirstSep(a + "/" + b) == FirstSep(a)
    decreases |a|
  {
    if a != [] && a[0] != '/' {
      assert (a + "/" + b)[1..] == a[1..] + "/" + b;
      FirstSepJoin(a[1..], b);
    }
  }

  /** Splitting two strings joined by '/' splits each of them in turn. */
  lemma {:induction false} SplitPathJoin(a: string, b: string)
    ensures SplitPath(a + "/" + b) == SplitPath(a) + SplitPath(b)
    decreases |a|
  {
    var s := a + "/" + b;
    if a == [] {
      assert s[1..] == b;
    } else if a[0] == '/' {
      assert s[1..] == a[1..] + "/" + b;
      SplitPathJoin(a[1..], b);
    } else {
      FirstSepJoin(a, b);
      var n := FirstSep(a);
      assert s[..n] == a[..n];
      assert s[n..] == a[n..] + "/" + b;
      SplitPathJoin(a[n..], b);
    }
  }

  /** A path printed by `PathString` splits back into the same components. */
  lemma {:induction false} SplitPathString(p: Path)
    requires forall i :: 0 <= i < |p| ==> Component(p[i])
    ensures SplitPath(PathString(p)) == p
  {
    if p == [] {
      assert SplitPath(".") == SplitPath(""[..0]);
    } else if |p| == 1 {
      SplitComponent(p[0]);
    } else {
      var init := p[..|p| - 1];
      SplitPathString(init);
      SplitComponent(p[|p| - 1]);
      SplitPathJoin(PathString(init), p[|p| - 1]);
    }
  }

  lemma SplitComponent(c: string)
    requires Component(c)
    ensures SplitPath(c) == [c]
  {
    assert c[0] in c;
    assert FirstSep(c) == |c|;
    assert c[..|c|] == c && c[|c|..] == [];
  }

  /**
    A printed path reads back as the same location: without a trailing '/'
    as a plain destination, and with one added as a directory destination.
   */
  lemma ParseLocationRoundTrip(p: Path)
    requires forall i :: 0 <= i < |p| ==> Component(p[i])
    ensures ParseLocation(PathString(p)) == Location(p, false)
    ensures p != [] ==> ParseLocation(PathString(p) + "/") == Location(p, true)
  {
    SplitPathString(p);
    var s := PathString(p);
    if p != [] {
      PathStringEnd(p);
      SplitPathJoin(s, "");
      assert s + "/" == s + "/" + "";
    } else {
      assert s == ".";
    }
  }

  /** A printed non-empty path ends in its last component, so not in '/'. */
  lemma PathStringEnd(p: Path)
    requires p != [] && Component(p[|p| - 1])
    ensures var s := PathString(p); |s| > 0 && s[|s| - 1] != '/'
  {
    var last := p[|p| - 1];
    assert last[|last| - 1] in last;
    if |p| > 1 {
      var s := PathString(p);
      assert s == PathString(p[..|p| - 1]) + "/" + last;
      assert s[|s| - 1] == last[|last| - 1];
    }
  }

  /**
    Go's `endsWithDot`: the string is "." or its last element is ".".
    `os.RemoveAll` refuses such a path with EINVAL before touching the disk.
   */
  predicate EndsWithDot(s: string)
  {
    s == "." || (|s| >= 2 && s[|s| - 2] == '/' && s[|s| - 1] == '.')
  }

  /** Neither path lies at or below the other. */
  predicate Apart(p: Path, q: Path)
  {
    !(p <= q) && !(q <= p)
  }
}
