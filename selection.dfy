/** Which project files go into the package, and in which order
    (`should_include` and `iter_project_files`). */
module Selection {
  import opened Paths
  import opened Ordering

  /** Directory names that exclude a file when they occur as any part of
      its relative path, its own name included. */
  const ExcludedDirs: set<string> :=
    {".git", ".idea", ".mypy_cache", ".pytest_cache", ".vscode", "__pycache__", "dist"}

  /** Base names that are never packaged. */
  const ExcludedFiles: set<string> := {".DS_Store", "manifest.json", "package_addon.py"}

  /** Suffixes that are never packaged. */
  const ExcludedSuffixes: set<string> := {".ankiaddon", ".log", ".pyc", ".pyo", ".swp", ".tmp"}

  /** An entry found by the recursive walk of the project root: its path
      relative to the root, and whether it is a regular file. */
  datatype Candidate = Candidate(parts: Path, isFile: bool)

  /** The generator `any(part in ExcludedDirs for part in parts)`, scanning
      the parts from the left. */
  predicate AnyExcludedPart(parts: Path) {
    |parts| > 0 && (parts[0] in ExcludedDirs || AnyExcludedPart(parts[1..]))
  }

  /** `should_include`: the three exclusion tests, in the source's order. */
  predicate ShouldInclude(parts: Path) {
    if AnyExcludedPart(parts) then false
    else if Name(parts) in ExcludedFiles then false
    else if Suffix(Name(parts)) in ExcludedSuffixes then false
    else true
  }

  lemma {:induction false} AnyExcludedPartIff(parts: Path)
    ensures AnyExcludedPart(parts) <==> exists i :: 0 <= i < |parts| && parts[i] in ExcludedDirs
  {
    if |parts| > 0 {
      AnyExcludedPartIff(parts[1..]);
      if parts[0] !in ExcludedDirs {
        if exists i :: 0 <= i < |parts| && parts[i] in ExcludedDirs {
          var i :| 0 <= i < |parts| && parts[i] in ExcludedDirs;
          assert parts[1..][i - 1] == parts[i];
        }
      }
    }
  }

  /** A path is included exactly when no part is an excluded directory name,
      its name is not an excluded file name and its suffix is not an
      excluded suffix. */
  lemma ShouldIncludeIff(parts: Path)
    ensures ShouldInclude(parts) <==>
      (forall i :: 0 <= i < |parts| ==> parts[i] !in ExcludedDirs) &&
      Name(parts) !in ExcludedFiles &&
      Suffix(Name(parts)) !in ExcludedSuffixes
  {
    AnyExcludedPartIff(parts);
  }

  /** The test of the loop in `iter_project_files`. */
  predicate Keep(c: Candidate) {
    c.isFile && ShouldInclude(c.parts)
  }

  /** The `candidates` list after the loop has seen `walk`, in walk order. */
  function Filtered(walk: seq<Candidate>): seq<Path> {
    if walk == [] then []
    else Filtered(walk[..|walk| - 1]) + (if Keep(walk[|walk| - 1]) then [walk[|walk| - 1].parts] else [])
  }

  /** What `iter_project_files` returns for a walk. */
  function Selected(walk: seq<Candidate>): seq<Path> {
    SortByKey(Filtered(walk))
  }

  /** What a walk of a real directory tree yields: every path well formed,
      and no path reported twice. */
  predicate WellFormedWalk(walk: seq<Candidate>) {
    (forall i :: 0 <= i < |walk| ==> WellFormedPath(walk[i].parts)) &&
    (forall i, j :: 0 <= i < j < |walk| ==> walk[i].parts != walk[j].parts)
  }

  lemma {:induction false} FilteredMembers(walk: seq<Candidate>)
    ensures forall p :: p in Filtered(walk) <==> exists c :: c in walk && Keep(c) && c.parts == p
  {
    if walk != [] {
      var init, last := walk[..|walk| - 1], walk[|walk| - 1];
      FilteredMembers(init);
      assert walk == init + [last];
      forall p ensures p in Filtered(walk) <==> exists c :: c in walk && Keep(c) && c.parts == p {
        if p in Filtered(walk) && p !in Filtered(init) {
          assert Keep(last) && last.parts == p && last in walk;
        }
        if exists c :: c in walk && Keep(c) && c.parts == p {
          var c :| c in walk && Keep(c) && c.parts == p;
          if c != last {
            assert c in init;
          }
        }
      }
    }
  }

  /** On a well-formed walk every kept path is well formed and none is kept twice. */
  lemma {:induction false} FilteredDistinct(walk: seq<Candidate>)
    requires WellFormedWalk(walk)
    ensures Distinct(Filtered(walk))
    ensures forall p :: p in Filtered(walk) ==> WellFormedPath(p)
  {
    FilteredMembers(walk);
    if walk != [] {
      var init, last := walk[..|walk| - 1], walk[|walk| - 1];
      assert WellFormedWalk(init);
      FilteredDistinct(init);
      if Keep(last) {
        var f := Filtered(init);
        FilteredMembers(init);
        forall q | q in f ensures q != last.parts {
          var c :| c in init && Keep(c) && c.parts == q;
          var i :| 0 <= i < |init| && init[i] == c;
          assert walk[i] == c;
        }
        DistinctSnoc(f, last.parts);
      }
    }
  }

  /** The selection holds exactly the walked files that pass `should_include`,
      each once, in ascending order of their POSIX relative path. */
  lemma SelectedCorrect(walk: seq<Candidate>)
    ensures forall p :: p in Selected(walk) <==> exists c :: c in walk && Keep(c) && c.parts == p
    ensures Sorted(Selected(walk))
    ensures WellFormedWalk(walk) ==> StrictlySorted(Selected(walk))
  {
    var f := Filtered(walk);
    FilteredMembers(walk);
    SortByKeyCorrect(f);
    var s := SortByKey(f);
    assert forall p :: p in s <==> p in f by {
      forall p ensures p in s <==> p in f {
        assert p in s <==> p in multiset(s);
      }
    }
    if WellFormedWalk(walk) {
      FilteredDistinct(walk);
      SortByKeyDistinct(f);
      forall i, j | 0 <= i < j < |s| ensures Posix(s[i]) != Posix(s[j]) {
        assert s[i] in f && s[j] in f;
        if Posix(s[i]) == Posix(s[j]) {
          PosixInjective(s[i], s[j]);
        }
      }
      SortedDistinctKeys(s);
    }
  }

  /** The enumeration order of the filesystem does not matter: two walks that
      report the same entries give the same selection. */
  lemma SelectedPermutationInvariant(w1: seq<Candidate>, w2: seq<Candidate>)
    requires WellFormedWalk(w1) && WellFormedWalk(w2)
    requires multiset(w1) == multiset(w2)
    ensures Selected(w1) == Selected(w2)
  {
    SelectedCorrect(w1);
    SelectedCorrect(w2);
    forall c ensures c in w1 <==> c in w2 {
      assert c in w1 <==> c in multiset(w1);
      assert c in w2 <==> c in multiset(w2);
    }
    StrictlySortedUnique(Selected(w1), Selected(w2));
  }

  lemma ManifestNameNoSlash()
    ensures NoSlash("manifest.json")
  {
  }

  /** No selected file is named `manifest.json`, at any depth, and so no
      selected POSIX path is `manifest.json`. */
  lemma NoManifestSelected(walk: seq<Candidate>)
    ensures forall p :: p in Selected(walk) ==> Name(p) != "manifest.json" && Posix(p) != "manifest.json"
  {
    SelectedCorrect(walk);
    forall p | p in Selected(walk) ensures Name(p) != "manifest.json" && Posix(p) != "manifest.json" {
      var c :| c in walk && Keep(c) && c.parts == p;
      if Posix(p) == "manifest.json" {
        ManifestNameNoSlash();
        PosixOfNoSlash(p, "manifest.json");
      }
    }
  }

  /** `iter_project_files`: collect the walked files that pass the predicate,
      then sort them by POSIX relative path. */
  method IterProjectFiles(walk: seq<Candidate>) returns (files: seq<Path>)
    ensures files == Selected(walk)
    ensures forall p :: p in files <==> exists c :: c in walk && Keep(c) && c.parts == p
    ensures Sorted(files)
    ensures WellFormedWalk(walk) ==> StrictlySorted(files)
  {
    var candidates: seq<Path> := [];
    for i := 0 to |walk|
      invariant candidates == Filtered(walk[..i])
    {
      assert walk[..i + 1][..i] == walk[..i];
      if walk[i].isFile && ShouldInclude(walk[i].parts) {
        candidates := candidates + [walk[i].parts];
      }
    }
    assert walk[..|walk|] == walk;
    files := SortByKey(candidates);
    SelectedCorrect(walk);
  }

  /** `.DS_Store` has no suffix; it is excluded by its name alone. */
  lemma DotFileHasNoSuffix()
    ensures Suffix(".DS_Store") == ""
    ensures forall p: Path :: Name(p) == ".DS_Store" ==> !ShouldInclude(p)
  {
  }

  /** The exclusion rule behind each file of a small tree: `a.py` passes,
      `dist/old.ankiaddon` and `.git/config` fall to the directory rule and
      `notes.log` to the suffix rule. */
  lemma SmallTreeRules()
    ensures ShouldInclude(["a.py"])
    ensures AnyExcludedPart(["dist", "old.ankiaddon"])
    ensures AnyExcludedPart([".git", "config"])
    ensures !AnyExcludedPart(["notes.log"]) && Suffix("notes.log") in ExcludedSuffixes
  {
    RFindAt("a.py", '.', 1);
    RFindAt("notes.log", '.', 5);
  }

  /** Walking that tree (and the `dist` directory itself) selects `a.py` alone. */
  lemma SmallTreeExample()
    ensures Selected([
      Candidate(["a.py"], true), Candidate(["dist", "old.ankiaddon"], true),
      Candidate([".git", "config"], true), Candidate(["notes.log"], true),
      Candidate(["dist"], false)]) == [["a.py"]]
  {
    SmallTreeRules();
    var w := [
      Candidate(["a.py"], true), Candidate(["dist", "old.ankiaddon"], true),
      Candidate([".git", "config"], true), Candidate(["notes.log"], true),
      Candidate(["dist"], false)];
    assert Filtered(w[..1]) == [["a.py"]] by {
      assert w[..1][..0] == [];
    }
    assert Filtered(w[..2]) == [["a.py"]] by {
      assert w[..2][..1] == w[..1];
    }
    assert Filtered(w[..3]) == [["a.py"]] by {
      assert w[..3][..2] == w[..2];
    }
    assert Filtered(w[..4]) == [["a.py"]] by {
      assert w[..4][..3] == w[..3];
    }
    assert Filtered(w) == [["a.py"]] by {
      assert w[..4] == w[..|w| - 1];
    }
  }
}
