/**
  Pairpath construction of pkg/pairtree/pairtree.go: `IsHidden`, the blank
  test of `strings.TrimSpace`, and `CreatePP`, which validates the root, the
  identifier and the prefix, in that order, and then builds
  root/pairtree_root/<shards>/<cleaned id>.
 */
module Pairtree {
  import opened Errors
  import opened Paths
  import opened Pt

  /** The prefix used when a root has no prefix file. */
  const PtPrefix: string := "pt://"

  /** `unicode.IsSpace`, which `strings.TrimSpace` strips from both ends. */
  predicate IsSpace(c: char)
  {
    c in {'\t', '\n', '\U{000B}', '\U{000C}', '\r', ' ', '\U{0085}', '\U{00A0}', '\U{1680}',
          '\U{2028}', '\U{2029}', '\U{202F}', '\U{205F}', '\U{3000}'}
    || '\U{2000}' <= c <= '\U{200A}'
  }

  /** `strings.TrimSpace(s) == ""`: nothing is left once white space is stripped. */
  predicate IsBlank(s: string)
  {
    forall i :: 0 <= i < |s| ==> IsSpace(s[i])
  }

  /** `IsHidden` (pairtree.go:45-47): the name starts with a dot. */
  predicate IsHidden(name: string)
  {
    "." <= name
  }

  /**
    `CreatePP` (pairtree.go:109-134).  The root is checked first, then the
    identifier, then the prefix; each failure returns no path.
   */
  function CreatePP(id: string, ptRoot: string, prefix: string): (r: Result<Path>)
    ensures IsBlank(ptRoot) ==> r == Err(RootEmpty)
    ensures !IsBlank(ptRoot) && IsBlank(id) ==> r == Err(IdEmpty)
    ensures !IsBlank(ptRoot) && !IsBlank(id) && !(prefix <= id) ==> r == Err(IdLacksPrefix)
    ensures r.Ok? <==> !IsBlank(ptRoot) && !IsBlank(id) && prefix <= id
  {
    if IsBlank(ptRoot) then Err(RootEmpty)
    else if IsBlank(id) then Err(IdEmpty)
    else if !(prefix <= id) then Err(IdLacksPrefix)
    else Ok(PairPath(SplitPath(ptRoot), id[|prefix|..]))
  }

  /**
    The shape of a successful pairpath: the root's components, the storage
    directory, shards of at most two characters that spell the cleaned
    identifier, and the cleaned identifier as the final, path-safe component.
   */
  lemma CreatePPShape(id: string, ptRoot: string, prefix: string)
    requires CreatePP(id, ptRoot, prefix).Ok?
    ensures var p := CreatePP(id, ptRoot, prefix).value;
      var enc := EncodeChar(id[|prefix|..]);
      var root := SplitPath(ptRoot) + [RootDir];
      && root <= p
      && (enc == [] ==> p == root)
      && (enc != [] ==>
            && |p| == |root| + |Shards(enc)| + 1
            && Base(p) == enc
            && PathSafe(Base(p))
            && p[|root|..|p| - 1] == Shards(enc)
            && Concat(p[|root|..|p| - 1]) == enc
            && (forall i :: |root| <= i < |p| - 1 ==> 1 <= |p[i]| <= 2))
  {
    var p := CreatePP(id, ptRoot, prefix).value;
    var enc := EncodeChar(id[|prefix|..]);
    var root := SplitPath(ptRoot) + [RootDir];
    if enc != [] {
      assert p == root + Shards(enc) + [enc];
      assert p[|root|..|p| - 1] == Shards(enc);
    } else {
      assert p == root + Shards(enc);
    }
  }

  /**
    Under one root and one prefix, distinct identifiers get distinct
    pairpaths.
   */
  lemma CreatePPInjective(id1: string, id2: string, ptRoot: string, prefix: string)
    requires CreatePP(id1, ptRoot, prefix).Ok? && CreatePP(id2, ptRoot, prefix).Ok?
    requires CreatePP(id1, ptRoot, prefix) == CreatePP(id2, ptRoot, prefix)
    ensures id1 == id2
  {
    var s1, s2 := id1[|prefix|..], id2[|prefix|..];
    var e1, e2 := EncodeChar(s1), EncodeChar(s2);
    var root := SplitPath(ptRoot) + [RootDir];
    var p := CreatePP(id1, ptRoot, prefix).value;
    CreatePPShape(id1, ptRoot, prefix);
    CreatePPShape(id2, ptRoot, prefix);
    if e1 != [] && e2 != [] {
      EncodeCharInjective(s1, s2);
    } else if e1 != [] || e2 != [] {
      // one pairpath would end at the storage directory, the other below it
      assert false;
    }
    assert id1 == prefix + s1 && id2 == prefix + s2;
  }

  lemma SplitRoot()
    ensures SplitPath("root") == ["root"]
  {
    assert FirstSep("root"[4..]) == 0;
    assert FirstSep("root"[3..]) == 1 by { assert "root"[3..][1..] == "root"[4..]; }
    assert FirstSep("root"[2..]) == 2 by { assert "root"[2..][1..] == "root"[3..]; }
    assert FirstSep("root"[1..]) == 3 by { assert "root"[1..][1..] == "root"[2..]; }
    assert FirstSep("root") == 4;
    assert "root"[..4] == "root";
    assert "root"[4..] == [];
  }

  /**
    An identifier whose stripped part needs no cleaning keeps that part as
    its final component, preceded by the part's shards.  This is the case of
    the standard and no-prefix tests (pairtree_test.go:225-232, 241-248).
   */
  lemma CreatePPUnreserved(prefix: string, rest: string, ptRoot: string)
    requires !IsBlank(ptRoot) && rest != [] && !IsSpace(rest[0])
    requires forall i :: 0 <= i < |rest| ==> Unreserved(rest[i])
    ensures CreatePP(prefix + rest, ptRoot, prefix) == Ok(SplitPath(ptRoot) + [RootDir] + Shards(rest) + [rest])
  {
    var id := prefix + rest;
    assert id[|prefix|..] == rest;
    assert !IsSpace(id[|prefix|]);
    EncodeCharUnreserved(rest);
  }

  /**
    A colon between two runs of characters that need no cleaning becomes a
    plus sign, in the shards and in the final component alike.  This is the
    case of the reserved-character test (pairtree_test.go:233-240).
   */
  lemma CreatePPColon(prefix: string, a: string, b: string, ptRoot: string)
    requires !IsBlank(ptRoot) && a != [] && !IsSpace(a[0])
    requires forall i :: 0 <= i < |a| ==> Unreserved(a[i])
    requires forall i :: 0 <= i < |b| ==> Unreserved(b[i])
    ensures var enc := a + "+" + b;
      CreatePP(prefix + (a + ":" + b), ptRoot, prefix) == Ok(SplitPath(ptRoot) + [RootDir] + Shards(enc) + [enc])
  {
    var rest := a + ":" + b;
    var id := prefix + rest;
    assert id[|prefix|..] == rest;
    assert !IsSpace(id[|prefix|]);
    EncodeColon(a, b);
  }

  /** A colon between two runs of unreserved characters becomes a plus sign. */
  lemma EncodeColon(a: string, b: string)
    requires forall i :: 0 <= i < |a| ==> Unreserved(a[i])
    requires forall i :: 0 <= i < |b| ==> Unreserved(b[i])
    ensures EncodeChar(a + ":" + b) == a + "+" + b
  {
    EncodeCharUnreserved(a);
    EncodeCharUnreserved(b);
    EncodeCharAppend(a, ":");
    EncodeCharAppend(a + ":", b);
    EncodeCharTable(':');
  }

  /**
    Six characters make three shards of two (`345621` gives 34/56/21); five
    make two of two and one of one (`34621` gives 34/62/1).
   */
  lemma ShardsOfFiveOrSix(s: string)
    requires |s| == 5 || |s| == 6
    ensures Shards(s) == [s[..2], s[2..4], s[4..]]
  {
    var x, y, z := s[..2], s[2..4], s[4..];
    assert s[2..][..2] == y && s[2..][2..] == z;
    assert Shards(z) == [z];
    assert Shards(s[2..]) == [y] + Shards(z);
  }

  /**
    The failing examples (pairtree_test.go:249-272), and an identifier that is
    nothing but its prefix, which is not rejected: its pairpath is the
    storage directory itself.
   */
  lemma CreatePPEdgeExamples()
    ensures CreatePP("34621", "", "ark:/") == Err(RootEmpty)
    ensures CreatePP("", "root", "") == Err(IdEmpty)
    ensures CreatePP("34621", "root", "ark:/") == Err(IdLacksPrefix)
    ensures CreatePP("ark:/", "root", "ark:/") == Ok(["root", "pairtree_root"])
  {
    SplitRoot();
    assert !IsBlank("root") by { assert !IsSpace("root"[0]); }
    assert !IsBlank("34621") by { assert !IsSpace("34621"[0]); }
    assert !IsBlank("ark:/") by { assert !IsSpace("ark:/"[0]); }
    assert !("ark:/" <= "34621") by { assert "ark:/"[0] != "34621"[0]; }
    assert "ark:/"[5..] == [];
    assert PairPath(["root"], []) == ["root", "pairtree_root"] by {
      assert EncodeChar([]) == [];
      assert Shards([]) == [];
    }
  }

  /**
    pt.go's `CreatePP` agrees with this one whenever the prefix file holds
    the prefix and neither the root nor the identifier is blank.
   */
  lemma LegacyCreatePPAgrees(id: string, ptRoot: string, prefix: string)
    requires prefix != ""
    requires !IsBlank(ptRoot) && !IsBlank(id)
    ensures Pt.CreatePP(id, ptRoot, Markers.Present(prefix)) == CreatePP(id, ptRoot, prefix)
  {
  }
}
