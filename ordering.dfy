/** Python's ordering of `str` values and the stable `sorted` the script
    applies to the selected files, keyed by their POSIX relative path. */
module Ordering {
  import opened Paths

  /** Python's `a < b` on `str`: lexicographic by code point, a proper
      prefix coming first. */
  predicate LexLess(a: string, b: string) {
    if |a| == 0 then |b| > 0
    else if |b| == 0 then false
    else if a[0] != b[0] then a[0] < b[0]
    else LexLess(a[1..], b[1..])
  }

  lemma {:induction false} LexLessIrreflexive(a: string)
    ensures !LexLess(a, a)
  {
    if |a| > 0 {
      LexLessIrreflexive(a[1..]);
    }
  }

  lemma {:induction false} LexLessTransitive(a: string, b: string, c: string)
    ensures LexLess(a, b) && LexLess(b, c) ==> LexLess(a, c)
  {
    if LexLess(a, b) && LexLess(b, c) && |a| > 0 && a[0] == b[0] && b[0] == c[0] {
      LexLessTransitive(a[1..], b[1..], c[1..]);
    }
  }

  /** Any two different strings are ordered one way or the other. */
  lemma {:induction false} LexLessTotal(a: string, b: string)
    ensures a == b || LexLess(a, b) || LexLess(b, a)
  {
    if |a| > 0 && |b| > 0 && a[0] == b[0] {
      LexLessTotal(a[1..], b[1..]);
      if a[1..] == b[1..] {
        assert a == [a[0]] + a[1..] && b == [b[0]] + b[1..];
      }
    }
  }

  lemma LexLessAsymmetric(a: string, b: string)
    requires LexLess(a, b)
    ensures !LexLess(b, a)
  {
  }

  /** The sort key of `iter_project_files`: the POSIX relative path. */
  predicate PathLess(p: Path, q: Path) {
    LexLess(Posix(p), Posix(q))
  }

  /** Ascending by key; equal keys may sit in either order. */
  predicate Sorted(s: seq<Path>) {
    forall i, j :: 0 <= i < j < |s| ==> !PathLess(s[j], s[i])
  }

  /** Strictly ascending by key, so in particular no key twice. */
  predicate StrictlySorted(s: seq<Path>) {
    forall i, j :: 0 <= i < j < |s| ==> PathLess(s[i], s[j])
  }

  predicate Distinct(s: seq<Path>) {
    forall i, j :: 0 <= i < j < |s| ==> s[i] != s[j]
  }

  /** Places `p` before the first element whose key is not below its own,
      so that `p` stays ahead of the elements with an equal key. */
  function Insert(p: Path, s: seq<Path>): seq<Path> {
    if s == [] then [p]
    else if PathLess(s[0], p) then [s[0]] + Insert(p, s[1..])
    else [p] + s
  }

  /** Python's stable `sorted` with the POSIX relative path as key. */
  function SortByKey(s: seq<Path>): seq<Path> {
    if s == [] then [] else Insert(s[0], SortByKey(s[1..]))
  }

  lemma {:induction false} InsertPermutes(p: Path, s: seq<Path>)
    ensures multiset(Insert(p, s)) == multiset(s) + multiset{p}
  {
    if s != [] && PathLess(s[0], p) {
      InsertPermutes(p, s[1..]);
      assert s == [s[0]] + s[1..];
    }
  }

  /** A path no later element sorts below, put in front of a sorted sequence. */
  lemma SortedCons(x: Path, r: seq<Path>)
    requires Sorted(r)
    requires forall y :: y in r ==> !PathLess(y, x)
    ensures Sorted([x] + r)
  {
  }

  lemma {:induction false} InsertSorted(p: Path, s: seq<Path>)
    requires Sorted(s)
    ensures Sorted(Insert(p, s))
  {
    if s == [] {
    } else if PathLess(s[0], p) {
      var t := s[1..];
      InsertSorted(p, t);
      InsertPermutes(p, t);
      var r := Insert(p, t);
      forall y | y in r ensures !PathLess(y, s[0]) {
        assert y in multiset(r);
        if y == p {
          LexLessAsymmetric(Posix(s[0]), Posix(p));
        } else {
          assert y in t;
        }
      }
      SortedCons(s[0], r);
    } else {
      // p's key is at most that of s[0], which is at most every later key
      LexLessTotal(Posix(s[0]), Posix(p));
      forall y | y in s ensures !PathLess(y, p) {
        LexLessTransitive(Posix(y), Posix(p), Posix(s[0]));
      }
      SortedCons(p, s);
    }
  }

  /** The head of a sequence without repeats is not in its tail, which has
      no repeats either. */
  lemma DistinctTail(s: seq<Path>)
    requires Distinct(s) && s != []
    ensures s[0] !in s[1..] && Distinct(s[1..])
  {
  }

  lemma DistinctCons(x: Path, r: seq<Path>)
    requires Distinct(r) && x !in r
    ensures Distinct([x] + r)
  {
  }

  lemma DistinctSnoc(f: seq<Path>, x: Path)
    requires Distinct(f) && x !in f
    ensures Distinct(f + [x])
  {
  }

  lemma {:induction false} InsertDistinct(p: Path, s: seq<Path>)
    requires Distinct(s) && p !in s
    ensures Distinct(Insert(p, s))
  {
    if s != [] && PathLess(s[0], p) {
      var t := s[1..];
      DistinctTail(s);
      assert p !in t;
      InsertDistinct(p, t);
      InsertPermutes(p, t);
      assert s[0] !in multiset(Insert(p, t));
      DistinctCons(s[0], Insert(p, t));
    } else {
      DistinctCons(p, s);
    }
  }

  /** `SortByKey` returns a permutation of its input, in ascending order. */
  lemma {:induction false} SortByKeyCorrect(s: seq<Path>)
    ensures multiset(SortByKey(s)) == multiset(s)
    ensures Sorted(SortByKey(s))
  {
    if s != [] {
      var t := SortByKey(s[1..]);
      SortByKeyCorrect(s[1..]);
      InsertPermutes(s[0], t);
      InsertSorted(s[0], t);
      assert s == [s[0]] + s[1..];
    }
  }

  /** Sorting an input without repeats gives an output without repeats. */
  lemma {:induction false} SortByKeyDistinct(s: seq<Path>)
    requires Distinct(s)
    ensures Distinct(SortByKey(s))
  {
    if s != [] {
      var t := SortByKey(s[1..]);
      DistinctTail(s);
      SortByKeyDistinct(s[1..]);
      SortByKeyCorrect(s[1..]);
      assert s[0] !in multiset(t);
      InsertDistinct(s[0], t);
    }
  }

  /** A sorted sequence whose keys are pairwise different is strictly sorted. */
  lemma SortedDistinctKeys(s: seq<Path>)
    requires Sorted(s)
    requires forall i, j :: 0 <= i < j < |s| ==> Posix(s[i]) != Posix(s[j])
    ensures StrictlySorted(s)
  {
    forall i, j | 0 <= i < j < |s| ensures PathLess(s[i], s[j]) {
      LexLessTotal(Posix(s[i]), Posix(s[j]));
    }
  }

  lemma SameElementsEmpty(a: seq<Path>, b: seq<Path>)
    requires forall x :: x in a <==> x in b
    ensures a == [] <==> b == []
  {
    if a != [] {
      assert a[0] in b;
    }
    if b != [] {
      assert b[0] in a;
    }
  }

  /** Two strictly sorted sequences with the same elements are equal: a
      strictly sorted order is determined by its elements alone. */
  lemma {:induction false} StrictlySortedUnique(a: seq<Path>, b: seq<Path>)
    requires StrictlySorted(a) && StrictlySorted(b)
    requires forall x :: x in a <==> x in b
    ensures a == b
  {
    SameElementsEmpty(a, b);
    if a != [] {
      assert a[0] in b && b[0] in a;
      assert a[0] == b[0] by {
        if a[0] != b[0] {
          var i :| 0 <= i < |a| && a[i] == b[0];
          var j :| 0 <= j < |b| && b[j] == a[0];
          assert PathLess(a[0], b[0]);
          assert PathLess(b[0], a[0]);
          LexLessAsymmetric(Posix(a[0]), Posix(b[0]));
        }
      }
      forall x ensures x in a[1..] <==> x in b[1..] {
        if x in a[1..] {
          var i :| 0 <= i < |a[1..]| && a[1..][i] == x;
          assert PathLess(a[0], a[i + 1]);
          LexLessIrreflexive(Posix(a[0]));
          assert x in b;
        }
        if x in b[1..] {
          var i :| 0 <= i < |b[1..]| && b[1..][i] == x;
          assert PathLess(b[0], b[i + 1]);
          LexLessIrreflexive(Posix(b[0]));
          assert x in a;
        }
      }
      StrictlySortedUnique(a[1..], b[1..]);
      assert a == [a[0]] + a[1..] && b == [b[0]] + b[1..];
    }
  }
}
