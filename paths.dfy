/** Paths as `pathlib` sees them: a path is the sequence of its parts. */
module Paths {
  /** A path relative to the project root, or an absolute path below `/`,
      written as its parts. */
  type Path = seq<string>

  /** pathlib's `name`: the final part; the empty path has the empty name. */
  function Name(p: Path): string {
    if |p| == 0 then "" else p[|p| - 1]
  }

  /** pathlib's `parent`; the parent of the root is the root. */
  function Parent(p: Path): Path {
    if |p| == 0 then [] else p[..|p| - 1]
  }

  /** Python's `str.rfind`: the index of the last `c` in `s`, or -1. */
  function RFind(s: string, c: char): (i: int)
    ensures -1 <= i < |s|
    ensures 0 <= i ==> s[i] == c
    ensures forall j :: i < j < |s| ==> s[j] != c
  {
    if |s| == 0 then -1
    else if s[|s| - 1] == c then |s| - 1
    else RFind(s[..|s| - 1], c)
  }

  /** The contract of `RFind` determines its result. */
  lemma RFindAt(s: string, c: char, k: int)
    requires -1 <= k < |s|
    requires 0 <= k ==> s[k] == c
    requires forall j :: k < j < |s| ==> s[j] != c
    ensures RFind(s, c) == k
  {
  }

  /** pathlib's `suffix` of a name: from its last dot on, provided that dot
      is neither the first nor the last character; otherwise empty. */
  function Suffix(name: string): (r: string)
    ensures |r| <= |name| && name[|name| - |r|..] == r
    ensures r != "" ==> 2 <= |r| < |name| && r[0] == '.'
    ensures forall j :: 0 < j < |r| ==> r[j] != '.'
  {
    var i := RFind(name, '.');
    if 0 < i < |name| - 1 then name[i..] else ""
  }

  /** The name without its suffix. */
  function Stem(name: string): string {
    name[..|name| - |Suffix(name)|]
  }

  /** A name cut at its suffix: the stem is non-empty whenever the suffix is. */
  lemma StemAndSuffix(name: string)
    ensures Stem(name) + Suffix(name) == name
    ensures Suffix(name) != "" ==> Stem(name) != ""
  {
  }

  /** An extension appended to a non-empty stem is the suffix of the result,
      whatever dots the stem holds. */
  lemma SuffixOfAppended(stem: string, ext: string)
    requires stem != ""
    requires |ext| >= 2 && ext[0] == '.'
    requires forall j :: 0 < j < |ext| ==> ext[j] != '.'
    ensures Suffix(stem + ext) == ext
  {
    var s := stem + ext;
    var i := RFind(s, '.');
    assert s[|stem|] == '.';
    assert i == |stem| by {
      assert i >= |stem|;
      assert forall j :: |stem| < j < |s| ==> s[j] == ext[j - |stem|];
    }
    assert s[i..] == ext;
  }

  /** `PurePath.as_posix` of a relative path: its parts joined by `/`. */
  function Posix(p: Path): string {
    if |p| == 0 then ""
    else if |p| == 1 then p[0]
    else p[0] + "/" + Posix(p[1..])
  }

  /** A path of more than one part has a `/` right after its first part. */
  lemma PosixSlash(p: Path)
    requires |p| >= 2
    ensures |p[0]| < |Posix(p)| && Posix(p)[|p[0]|] == '/'
    ensures Posix(p)[..|p[0]|] == p[0] && Posix(p)[|p[0]| + 1..] == Posix(p[1..])
  {
  }

  predicate NoSlash(s: string) {
    forall k :: 0 <= k < |s| ==> s[k] != '/'
  }

  /** A part the filesystem can produce: non-empty, without a separator. */
  predicate WellFormedPart(s: string) {
    s != "" && NoSlash(s)
  }

  /** A path of a file below the root: at least one part, each well formed. */
  predicate WellFormedPath(p: Path) {
    |p| >= 1 && forall i :: 0 <= i < |p| ==> WellFormedPart(p[i])
  }

  /** A single part is exactly the POSIX string of a one-part path, and any
      longer path has a `/` in its string. */
  lemma PosixOfNoSlash(p: Path, s: string)
    requires NoSlash(s) && Posix(p) == s
    ensures |p| <= 1
  {
    if |p| >= 2 {
      PosixSlash(p);
    }
  }

  /** Two well-formed paths with the same POSIX string are the same path. */
  lemma {:induction false} PosixInjective(p: Path, q: Path)
    requires WellFormedPath(p) && WellFormedPath(q)
    requires Posix(p) == Posix(q)
    ensures p == q
  {
    var s := Posix(p);
    if |p| == 1 && |q| == 1 {
    } else if |p| == 1 {
      assert NoSlash(p[0]);
      PosixOfNoSlash(q, p[0]);
    } else if |q| == 1 {
      assert NoSlash(q[0]);
      PosixOfNoSlash(p, q[0]);
    } else {
      PosixSlash(p);
      PosixSlash(q);
      var a, b := p[0], q[0];
      assert WellFormedPart(a) && WellFormedPart(b);
      assert a == b;
      assert WellFormedPath(p[1..]) by {
        forall i | 0 <= i < |p[1..]| ensures WellFormedPart(p[1..][i]) {
          assert p[1..][i] == p[i + 1];
        }
      }
      assert WellFormedPath(q[1..]) by {
        forall i | 0 <= i < |q[1..]| ensures WellFormedPart(q[1..][i]) {
          assert q[1..][i] == q[i + 1];
        }
      }
      PosixInjective(p[1..], q[1..]);
      assert p == [p[0]] + p[1..];
      assert q == [q[0]] + q[1..];
    }
  }
}
