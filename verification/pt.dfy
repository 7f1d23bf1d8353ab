/**
  Identifier cleaning and shard splitting (pkg/pt/pt.go).

  `EncodeChar` is the character substitution table of the Pairtree
  specification (draft-kunze-pairtree-01, section 3, identifier string
  cleaning).  `Shards` is the two-character split that the pairtree library's
  `Encode` applies to a cleaned identifier.  `Decode` is the table read
  backwards; it exists here to prove the table injective.
 */
module Pt {
  import opened Errors
  import opened Paths
  import Markers

  /** The characters written as '^' and two lowercase hex digits. */
  const HexEscaped: set<char> := {' ', '"', '*', '+', ',', '<', '=', '>', '?', '\\', '^', '|'}

  /** A digit of the lowercase hexadecimal that `%02x` writes. */
  predicate IsLowerHex(c: char)
  {
    '0' <= c <= '9' || 'a' <= c <= 'f'
  }

  function HexDigit(d: nat): (c: char)
    requires d < 16
    ensures IsLowerHex(c)
  {
    if d < 10 then ('0' as int + d) as char else ('a' as int + d - 10) as char
  }

  /** The value of a lowercase hex digit; 0 for any other character. */
  function HexValue(c: char): (v: nat)
    ensures v < 16
  {
    if '0' <= c <= '9' then (c as int - '0' as int)
    else if 'a' <= c <= 'f' then (c as int - 'a' as int + 10)
    else 0
  }

  lemma HexValueOfDigit(d: nat)
    requires d < 16
    ensures HexValue(HexDigit(d)) == d
  {
  }

  /** One character through the table (the body of the loop at pt.go:105-121). */
  function EncodeRune(c: char): (r: string)
    ensures c in HexEscaped ==>
      |r| == 3 && r[0] == '^' && IsLowerHex(r[1]) && IsLowerHex(r[2])
      && 16 * HexValue(r[1]) + HexValue(r[2]) == c as int
    ensures c == '/' ==> r == "="
    ensures c == ':' ==> r == "+"
    ensures c == '.' ==> r == ","
    ensures c !in HexEscaped && c !in {'/', ':', '.'} ==> r == [c]
  {
    if c in HexEscaped then
      HexValueOfDigit(c as int / 16);
      HexValueOfDigit(c as int % 16);
      ['^', HexDigit(c as int / 16), HexDigit(c as int % 16)]
    else if c == '/' then "="
    else if c == ':' then "+"
    else if c == '.' then ","
    else [c]
  }

  /** No character a path or a pairtree path treats specially. */
  predicate PathSafe(s: string)
  {
    forall i :: 0 <= i < |s| ==> s[i] != '/' && s[i] != ':' && s[i] != '.'
  }

  /** `EncodeChar` (pt.go:102-124): clean an identifier character by character. */
  function EncodeChar(id: string): (r: string)
    ensures |id| <= |r| <= 3 * |id|
    ensures PathSafe(r)
    ensures r == [] <==> id == []
  {
    if id == [] then []
    else
      var head, tail := EncodeRune(id[0]), EncodeChar(id[1..]);
      RuneSafe(id[0]);
      SafeConcat(head, tail);
      head + tail
  }

  lemma RuneSafe(c: char)
    ensures 1 <= |EncodeRune(c)| <= 3 && PathSafe(EncodeRune(c))
  {
  }

  lemma SafeConcat(a: string, b: string)
    requires PathSafe(a) && PathSafe(b)
    ensures PathSafe(a + b)
  {
    forall i | 0 <= i < |a + b|
      ensures (a + b)[i] != '/' && (a + b)[i] != ':' && (a + b)[i] != '.'
    {
      if i >= |a| {
        assert (a + b)[i] == b[i - |a|];
      }
    }
  }

  /** The table read backwards: '=' '+' ',' and "^hh" go back to what produced them. */
  function Decode(s: string): string
    decreases |s|
  {
    if s == [] then []
    else if s[0] == '^' && |s| >= 3 then
      [(16 * HexValue(s[1]) + HexValue(s[2])) as char] + Decode(s[3..])
    else
      [UnmapSingle(s[0])] + Decode(s[1..])
  }

  function UnmapSingle(c: char): char
  {
    if c == '=' then '/' else if c == '+' then ':' else if c == ',' then '.' else c
  }

  lemma DecodeRune(c: char, rest: string)
    ensures Decode(EncodeRune(c) + rest) == [c] + Decode(rest)
  {
    var e := EncodeRune(c);
    if c in HexEscaped {
      assert (e + rest)[3..] == rest;
    } else {
      assert (e + rest)[1..] == rest;
    }
  }

  /** Decoding undoes cleaning. */
  lemma {:induction false} DecodeEncode(s: string)
    ensures Decode(EncodeChar(s)) == s
  {
    if s != [] {
      DecodeRune(s[0], EncodeChar(s[1..]));
      DecodeEncode(s[1..]);
    }
  }

  /** The table is injective: distinct identifiers clean to distinct strings. */
  lemma EncodeCharInjective(a: string, b: string)
    requires EncodeChar(a) == EncodeChar(b)
    ensures a == b
  {
    DecodeEncode(a);
    DecodeEncode(b);
  }

  /** Cleaning works character by character. */
  lemma {:induction false} EncodeCharAppend(a: string, b: string)
    ensures EncodeChar(a + b) == EncodeChar(a) + EncodeChar(b)
  {
    if a == [] {
      assert a + b == b;
    } else {
      assert (a + b)[0] == a[0];
      assert (a + b)[1..] == a[1..] + b;
      EncodeCharAppend(a[1..], b);
    }
  }

  /** A character the table leaves alone. */
  predicate Unreserved(c: char)
  {
    c !in HexEscaped && c !in {'/', ':', '.'}
  }

  /** A string of characters the table leaves alone cleans to itself. */
  lemma {:induction false} EncodeCharUnreserved(s: string)
    requires forall i :: 0 <= i < |s| ==> Unreserved(s[i])
    ensures EncodeChar(s) == s
  {
    if s != [] {
      EncodeCharUnreserved(s[1..]);
      assert s == [s[0]] + s[1..];
    }
  }

  /** The table, one character at a time: three characters for an escape, one otherwise. */
  lemma EncodeCharTable(c: char)
    ensures c in HexEscaped ==>
      var r := EncodeChar([c]);
      |r| == 3 && r[0] == '^' && IsLowerHex(r[1]) && IsLowerHex(r[2])
      && 16 * HexValue(r[1]) + HexValue(r[2]) == c as int
    ensures c == '/' ==> EncodeChar([c]) == "="
    ensures c == ':' ==> EncodeChar([c]) == "+"
    ensures c == '.' ==> EncodeChar([c]) == ","
    ensures c !in HexEscaped && c !in {'/', ':', '.'} ==> EncodeChar([c]) == [c]
    ensures |EncodeChar([c])| == 1 || |EncodeChar([c])| == 3
  {
    assert EncodeChar([c]) == EncodeRune(c) + EncodeChar([]);
  }

  /** The strings of `ss` written one after the other. */
  function Concat(ss: seq<string>): string
  {
    if ss == [] then [] else ss[0] + Concat(ss[1..])
  }

  /** The shard directories: groups of two characters, the last one of one or two. */
  function Shards(s: string): (r: seq<string>)
    ensures Concat(r) == s
    ensures forall i :: 0 <= i < |r| ==> 1 <= |r[i]| <= 2
    ensures forall i :: 0 <= i < |r| - 1 ==> |r[i]| == 2
    decreases |s|
  {
    if s == [] then []
    else if |s| <= 2 then [s]
    else
      var rest := Shards(s[2..]);
      assert s == s[..2] + s[2..];
      [s[..2]] + rest
  }

  /** Name of the storage directory under a pairtree root. */
  const RootDir: string := "pairtree_root"

  /**
    The object directory of a stripped identifier under a root: the storage
    directory, the shards of the cleaned identifier, then the cleaned
    identifier itself.  An empty identifier contributes nothing, as
    `filepath.Join` drops empty elements.
   */
  function PairPath(root: Path, stripped: string): Path
  {
    var enc := EncodeChar(stripped);
    root + [RootDir] + Shards(enc) + (if enc == [] then [] else [enc])
  }

  /**
    `CreatePP` of pt.go (pt.go:127-148): reads the prefix file of the root,
    rejects an identifier that does not start with that prefix, and builds
    the pairpath of what remains.  Unlike its pkg/pairtree twin it checks
    neither the root nor the identifier for blankness.
   */
  function CreatePP(id: string, ptRoot: string, prefixFile: Markers.MarkerFile): (r: Result<Path>)
    ensures Markers.GetPrefix(prefixFile).Err? ==> r == Err(Markers.GetPrefix(prefixFile).error)
    ensures Markers.GetPrefix(prefixFile).Ok? ==>
      var prefix := Markers.GetPrefix(prefixFile).value;
      (r.Ok? <==> prefix <= id)
      && (r.Ok? ==>
            var enc := EncodeChar(id[|prefix|..]);
            SplitPath(ptRoot) + [RootDir] <= r.value
            && (enc != [] ==> Base(r.value) == enc && PathSafe(Base(r.value))))
  {
    match Markers.GetPrefix(prefixFile)
    case Err(e) => Err(e)
    case Ok(prefix) =>
      if prefix <= id then Ok(PairPath(SplitPath(ptRoot), id[|prefix|..]))
      else Err(IdLacksPrefix)
  }
}
