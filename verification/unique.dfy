/**
  `GetUniqueDestination` (pkg/pairtree/pairtree.go:240-268): when a
  destination is taken, try `<stem>.1<ext>`, `<stem>.2<ext>`, … in the same
  directory and return the first free one.  The stem and the extension are
  those of `filepath.Ext`: the extension starts at the last dot of the base
  name.
 */
module Unique {
  import opened Paths
  import opened Disk

  /** Where `filepath.Ext` starts: the last dot, or the end when there is none. */
  function ExtStart(s: string): (i: nat)
    ensures i <= |s|
    ensures i < |s| ==> s[i] == '.' && forall j :: i < j < |s| ==> s[j] != '.'
    ensures i == |s| ==> forall j :: 0 <= j < |s| ==> s[j] != '.'
  {
    if s == [] then 0
    else if s[|s| - 1] == '.' then |s| - 1
    else
      var k := ExtStart(s[..|s| - 1]);
      if k == |s| - 1 then |s| else k
  }

  /** `filepath.Ext`. */
  function Ext(name: string): string
  {
    name[ExtStart(name)..]
  }

  /** `strings.TrimSuffix(name, filepath.Ext(name))`. */
  function Stem(name: string): (s: string)
    ensures s + Ext(name) == name
  {
    name[..ExtStart(name)]
  }

  function Digit(d: nat): (c: char)
    requires d < 10
    ensures '0' <= c <= '9'
  {
    ('0' as int + d) as char
  }

  /** The decimal digits of `n`, as `%d` prints them. */
  function Itoa(n: nat): (s: string)
    ensures |s| >= 1
    ensures forall i :: 0 <= i < |s| ==> '0' <= s[i] <= '9'
  {
    if n < 10 then [Digit(n)] else Itoa(n / 10) + [Digit(n % 10)]
  }

  /** The number a string of decimal digits spells. */
  function Atoi(s: string): nat
  {
    if s == [] then 0
    else
      var d := s[|s| - 1] as int - '0' as int;
      Atoi(s[..|s| - 1]) * 10 + (if 0 <= d then d else 0)
  }

  lemma {:induction false} AtoiItoa(n: nat)
    ensures Atoi(Itoa(n)) == n
  {
    if n >= 10 {
      var s := Itoa(n);
      assert s[..|s| - 1] == Itoa(n / 10);
      AtoiItoa(n / 10);
    }
  }

  /** The `n`-th numbered form of a base name: `<stem>.<n><ext>`. */
  function Numbered(name: string, n: nat): string
  {
    Stem(name) + "." + Itoa(n) + Ext(name)
  }

  /** Different numbers give different names. */
  lemma NumberedInjective(name: string, n1: nat, n2: nat)
    requires Numbered(name, n1) == Numbered(name, n2)
    ensures n1 == n2
  {
    var x := Stem(name) + ".";
    var i1, i2 := Itoa(n1), Itoa(n2);
    var a, b := Numbered(name, n1), Numbered(name, n2);
    assert a == x + i1 + Ext(name) && b == x + i2 + Ext(name);
    assert |i1| == |i2|;
    assert i1 == a[|x|..|x| + |i1|];
    assert i2 == b[|x|..|x| + |i2|];
    AtoiItoa(n1);
    AtoiItoa(n2);
  }

  /** The `n`-th candidate for `dest`, beside it in the same directory. */
  function Candidate(dest: Path, n: nat): (c: Path)
    ensures Dir(c) == Dir(dest)
    ensures Base(c) == Numbered(Base(dest), n)
  {
    Dir(dest) + [Numbered(Base(dest), n)]
  }

  lemma CandidateInjective(dest: Path, n1: nat, n2: nat)
    requires Candidate(dest, n1) == Candidate(dest, n2)
    ensures n1 == n2
  {
    NumberedInjective(Base(dest), n1, n2);
  }

  /** The candidates probed before the `n`-th. */
  function Probed(dest: Path, n: nat): set<Path>
  {
    set i | 1 <= i < n :: Candidate(dest, i)
  }

  /** One more probe adds the candidate just tried. */
  lemma ProbedStep(dest: Path, n: nat)
    requires n >= 1
    ensures Probed(dest, n + 1) == Probed(dest, n) + {Candidate(dest, n)}
  {
  }

  /** The candidate about to be tried has not been tried before. */
  lemma NotYetProbed(dest: Path, n: nat)
    ensures Candidate(dest, n) !in Probed(dest, n)
  {
    if Candidate(dest, n) in Probed(dest, n) {
      var i :| 1 <= i < n && Candidate(dest, i) == Candidate(dest, n);
      CandidateInjective(dest, i, n);
    }
  }

  /** The probed candidates are all different, so there are `n - 1` of them. */
  lemma {:induction false} ProbedCount(dest: Path, n: nat)
    requires n >= 1
    ensures |Probed(dest, n)| == n - 1
  {
    if n > 1 {
      ProbedCount(dest, n - 1);
      ProbedStep(dest, n - 1);
      NotYetProbed(dest, n - 1);
    } else {
      assert Probed(dest, n) == {};
    }
  }

  /**
    The first free candidate from the `n`-th on.  Only finitely many paths
    are taken and every candidate is different, so one is free.
   */
  function FreeSuffix(dest: Path, taken: set<Path>, n: nat): (m: nat)
    requires n >= 1 && Probed(dest, n) <= taken
    ensures m >= n && Candidate(dest, m) !in taken
    ensures forall i :: n <= i < m ==> Candidate(dest, i) in taken
    decreases |taken| + 1 - n
  {
    if Candidate(dest, n) !in taken then n
    else
      ProbedGrows(dest, taken, n);
      FreeSuffix(dest, taken, n + 1)
  }

  /** A taken candidate joins the probed ones, which never outnumber the taken paths. */
  lemma ProbedGrows(dest: Path, taken: set<Path>, n: nat)
    requires n >= 1 && Probed(dest, n) <= taken && Candidate(dest, n) in taken
    ensures Probed(dest, n + 1) <= taken && n <= |taken|
  {
    var after := Probed(dest, n + 1);
    assert after <= taken by {
      ProbedStep(dest, n);
    }
    ProbedCount(dest, n + 1);
    SubsetCard(after, taken);
  }

  lemma SubsetCard<T>(a: set<T>, b: set<T>)
    requires a <= b
    ensures |a| <= |b|
  {
    assert b == a + (b - a);
  }

  /**
    The destination itself when it is free; otherwise the least numbered
    candidate that is free.
   */
  function UniqueDestination(dest: Path, taken: set<Path>): (r: Path)
    ensures r !in taken
    ensures dest !in taken ==> r == dest
    ensures dest in taken ==>
      exists n :: n >= 1 && r == Candidate(dest, n) && forall i :: 1 <= i < n ==> Candidate(dest, i) in taken
  {
    if dest !in taken then dest
    else
      assert Probed(dest, 1) == {};
      Candidate(dest, FreeSuffix(dest, taken, 1))
  }

  /**
    The loop of `GetUniqueDestination`, which asks of each candidate whether
    it is taken.
   */
  method GetUniqueDestination(dest: Path, taken: set<Path>) returns (r: Path)
    ensures r == UniqueDestination(dest, taken)
  {
    if dest !in taken {
      return dest;
    }
    var counter := 1;
    assert Probed(dest, 1) == {};
    ProbedCount(dest, 1);
    while Candidate(dest, counter) in taken
      invariant counter >= 1 && Probed(dest, counter) <= taken
      invariant counter - 1 <= |taken|
      decreases |taken| + 1 - counter
    {
      ProbedStep(dest, counter);
      counter := counter + 1;
      ProbedCount(dest, counter);
      SubsetCard(Probed(dest, counter), taken);
    }
    r := Candidate(dest, counter);
    assert Probed(dest, 1) == {};
    var m := FreeSuffix(dest, taken, 1);
    assert m == counter;
  }

  /** The test of pairtree_test.go:1121-1140: with file.txt, file.1.txt and file.2.txt taken, file.3.txt is next. */
  lemma UniqueDestinationExample()
    ensures UniqueDestination(["d", "file.txt"],
                              {["d", "file.txt"], ["d", "file.1.txt"], ["d", "file.2.txt"]})
         == ["d", "file.3.txt"]
  {
    var dest := ["d", "file.txt"];
    var taken := {["d", "file.txt"], ["d", "file.1.txt"], ["d", "file.2.txt"]};
    FileTxtParts();
    assert Candidate(dest, 1) == ["d", "file.1.txt"];
    assert Candidate(dest, 2) == ["d", "file.2.txt"];
    assert Candidate(dest, 3) == ["d", "file.3.txt"];
    forall i | 1 <= i < 3
      ensures Candidate(dest, i) in taken
    {
      if i == 1 {
        assert Candidate(dest, i) == ["d", "file.1.txt"];
      } else {
        assert Candidate(dest, i) == ["d", "file.2.txt"];
      }
    }
    assert Candidate(dest, 3) !in taken;
    UniqueDestinationIs(dest, taken, 3);
  }

  /** The least free candidate is the one chosen. */
  lemma UniqueDestinationIs(dest: Path, taken: set<Path>, k: nat)
    requires dest in taken && k >= 1 && Candidate(dest, k) !in taken
    requires forall i :: 1 <= i < k ==> Candidate(dest, i) in taken
    ensures UniqueDestination(dest, taken) == Candidate(dest, k)
  {
    var r := UniqueDestination(dest, taken);
    var n :| n >= 1 && r == Candidate(dest, n) && forall i :: 1 <= i < n ==> Candidate(dest, i) in taken;
    assert n == k;
  }

  lemma FileTxtParts()
    ensures Stem("file.txt") == "file" && Ext("file.txt") == ".txt"
    ensures Numbered("file.txt", 1) == "file.1.txt"
    ensures Numbered("file.txt", 2) == "file.2.txt"
    ensures Numbered("file.txt", 3) == "file.3.txt"
  {
    assert ExtStart("file.txt"[..7]) == 4 by {
      assert ExtStart("file.txt"[..6]) == 4 by {
        assert ExtStart("file.txt"[..5]) == 4 by {
          assert "file.txt"[..5][4] == '.';
        }
        assert "file.txt"[..6][..5] == "file.txt"[..5];
      }
      assert "file.txt"[..7][..6] == "file.txt"[..6];
    }
    assert "file.txt"[..8][..7] == "file.txt"[..7];
    assert "file.txt"[..8] == "file.txt";
  }

  // ---------------------------------------------------------------------
  // How the source asks whether a candidate is taken

  // `StatNotExist`, the "not exist" test on the error of `os.Stat`, is defined in Disk.

  /**
    The loop as written stops at the first candidate for which `os.Stat`
    reports "not exist".  When the destination's directory is a file, every
    candidate fails with ENOTDIR instead, and no candidate ever stops the
    loop.
   */
  lemma ProbeNeverStops(e: Entries, dest: Path, n: nat)
    requires Dir(dest) != [] && Dir(dest) in e && !e[Dir(dest)].Directory?
    ensures !StatNotExist(e, dest)
    ensures !StatNotExist(e, Candidate(dest, n))
  {
    var d := Dir(dest);
    var c := Candidate(dest, n);
    assert c[..|d|] == d && Exists(e, c[..|d|]) && !IsDir(e, c[..|d|]);
    assert dest[..|d|] == d && Exists(e, dest[..|d|]) && !IsDir(e, dest[..|d|]);
  }

  /** A file `a.txt` and a destination below it: `a.txt/x`. */
  lemma ProbeNeverStopsExample(n: nat)
    ensures !StatNotExist(map[["a.txt"] := File("")], ["a.txt", "x"])
    ensures !StatNotExist(map[["a.txt"] := File("")], Candidate(["a.txt", "x"], n))
  {
    assert Dir(["a.txt", "x"]) == ["a.txt"];
    ProbeNeverStops(map[["a.txt"] := File("")], ["a.txt", "x"], n);
  }

  /**
    Wherever the loop as written does stop — the destination's directory
    is a directory — asking "does it exist?" gives the same answers, so
    `UniqueDestination` over the existing paths is what the source returns.
   */
  lemma StatAgrees(e: Entries, dest: Path, n: nat)
    requires Tree(e) && IsDir(e, Dir(dest))
    ensures StatNotExist(e, dest) <==> dest !in Taken(e)
    ensures StatNotExist(e, Candidate(dest, n)) <==> Candidate(dest, n) !in Taken(e)
  {
    ParentDirStat(e, dest);
    ParentDirStat(e, Candidate(dest, n));
  }

  lemma ParentDirStat(e: Entries, p: Path)
    requires Tree(e) && IsDir(e, Dir(p))
    ensures StatNotExist(e, p) <==> !Exists(e, p)
  {
    if p != [] {
      forall i | 0 <= i < |p| && Exists(e, p[..i])
        ensures IsDir(e, p[..i])
      {
        var d := Dir(p);
        if i < |d| && i > 0 {
          assert p[..i] == d[..i];
          if d in e {
            assert e[d[..i]].Directory?;
          }
        } else if i == |d| {
          assert p[..i] == d;
        }
      }
    }
  }
}
