/** The run as `main` performs it: force the package suffix onto the output
    path, load the manifest, then package. */
module Addon {
  import opened Wrappers
  import opened Errors
  import opened Paths
  import opened Selection
  import opened Manifest
  import opened Archive

  /** The suffix every package carries. */
  const PackageSuffix := ".ankiaddon"

  /** pathlib's `with_suffix(PackageSuffix)`: replace the name's suffix, or
      append when there is none; a path with an empty name is refused. */
  function WithPackageSuffix(p: Path): (r: Result<Path, Error>)
    ensures r.Err? <==> Name(p) == ""
    ensures r.Err? ==> r.error == EmptyName
    ensures r.Ok? ==> |r.value| == |p| && Parent(r.value) == Parent(p)
    ensures r.Ok? ==> Name(r.value) == Stem(Name(p)) + PackageSuffix && Suffix(Name(r.value)) == PackageSuffix
  {
    var name := Name(p);
    if name == "" then Err(EmptyName)
    else
      var old_suffix := Suffix(name);
      var newName := if old_suffix == "" then name + PackageSuffix
                     else name[..|name| - |old_suffix|] + PackageSuffix;
      StemAndSuffix(name);
      SuffixOfAppended(Stem(name), PackageSuffix);
      Ok(Parent(p) + [newName])
  }

  /** The suffix step of `main`: a path whose suffix is already the package
      suffix is kept, any other is given it. */
  function ForceSuffix(p: Path): (r: Result<Path, Error>)
    ensures r.Err? <==> Name(p) == ""
    ensures r.Err? ==> r.error == EmptyName
    ensures Suffix(Name(p)) == PackageSuffix ==> r == Ok(p)
    ensures r.Ok? ==> |r.value| == |p| && Parent(r.value) == Parent(p) && Suffix(Name(r.value)) == PackageSuffix
    ensures r.Ok? && Suffix(Name(p)) != PackageSuffix ==> Name(r.value) == Stem(Name(p)) + PackageSuffix
  {
    if Suffix(Name(p)) != PackageSuffix then WithPackageSuffix(p) else Ok(p)
  }

  /** Forcing the suffix a second time changes nothing. */
  lemma ForceSuffixIdempotent(p: Path)
    requires Name(p) != ""
    ensures ForceSuffix(ForceSuffix(p).value) == ForceSuffix(p)
  {
  }

  /** Forcing the suffix touches the name only: it is kept when it already
      has the package suffix, and otherwise its stem is given that suffix. */
  lemma ForceSuffixOf(dir: Path, name: string)
    requires name != ""
    ensures ForceSuffix(dir + [name]) ==
      Ok(dir + [if Suffix(name) == PackageSuffix then name else Stem(name) + PackageSuffix])
  {
  }

  /** A foreign suffix is replaced. */
  lemma ForceSuffixReplaces()
    ensures ForceSuffix(["out", "pkg.zip"]) == Ok(["out", "pkg.ankiaddon"])
  {
    RFindAt("pkg.zip", '.', 3);
    assert Suffix("pkg.zip") == ".zip";
    assert Suffix("pkg.zip") != PackageSuffix;
    assert Stem("pkg.zip") == "pkg";
    ForceSuffixOf(["out"], "pkg.zip");
    assert ForceSuffix(["out"] + ["pkg.zip"]) == Ok(["out"] + ["pkg" + PackageSuffix]);
    assert ["out"] + ["pkg.zip"] == ["out", "pkg.zip"];
    assert "pkg" + PackageSuffix == "pkg.ankiaddon" by {
      var a, b := "pkg" + PackageSuffix, "pkg.ankiaddon";
      assert |a| == |b|;
      forall k | 0 <= k < |a| ensures a[k] == b[k] {
      }
    }
    assert ["out"] + ["pkg" + PackageSuffix] == ["out", "pkg.ankiaddon"];
  }

  /** A name without a suffix has the suffix appended. */
  lemma ForceSuffixAppends()
    ensures ForceSuffix(["out", "pkg"]) == Ok(["out", "pkg.ankiaddon"])
  {
    RFindAt("pkg", '.', -1);
    assert Suffix("pkg") == "" && Stem("pkg") == "pkg";
    ForceSuffixOf(["out"], "pkg");
    assert ["out"] + ["pkg"] == ["out", "pkg"];
    assert "pkg" + PackageSuffix == "pkg.ankiaddon";
    assert ["out"] + ["pkg" + PackageSuffix] == ["out", "pkg.ankiaddon"];
  }

  /** A name ending in a dot has no suffix either, so the suffix follows the dot. */
  lemma ForceSuffixAfterDot()
    ensures ForceSuffix(["out", "pkg."]) == Ok(["out", "pkg..ankiaddon"])
  {
    RFindAt("pkg.", '.', 3);
    assert Suffix("pkg.") == "" && Stem("pkg.") == "pkg.";
    ForceSuffixOf(["out"], "pkg.");
    assert ["out"] + ["pkg."] == ["out", "pkg."];
    assert "pkg." + PackageSuffix == "pkg..ankiaddon";
    assert ["out"] + ["pkg." + PackageSuffix] == ["out", "pkg..ankiaddon"];
  }

  /** The name `.ankiaddon` has no suffix in pathlib's reading, so it is
      given a second one; the root, whose name is empty, is refused. */
  lemma ForceSuffixEdgeCases()
    ensures ForceSuffix(["out", ".ankiaddon"]) == Ok(["out", ".ankiaddon.ankiaddon"])
    ensures ForceSuffix([]) == Err(EmptyName)
  {
    RFindAt(".ankiaddon", '.', 0);
    assert Suffix(".ankiaddon") == "" && Stem(".ankiaddon") == ".ankiaddon";
    ForceSuffixOf(["out"], ".ankiaddon");
    assert ["out"] + [".ankiaddon"] == ["out", ".ankiaddon"];
    assert ".ankiaddon" + PackageSuffix == ".ankiaddon.ankiaddon";
    assert ["out"] + [".ankiaddon" + PackageSuffix] == ["out", ".ankiaddon.ankiaddon"];
  }

  /** `main` without argument parsing and printing. `output` is the resolved
      `--output` path, `manifestFound` and `parsed` what the filesystem and
      the JSON parser report for `--manifest`, `now` the clock, `version`
      the `--version` option and `walk` the recursive listing of the root. */
  method BuildAddon(output: Path, manifestPath: string, manifestFound: bool, parsed: Option<JsonValue>,
                    now: int, version: Option<string>, walk: seq<Candidate>)
    returns (r: Result<Package, Error>)
    requires manifestFound && parsed.Some? && parsed.value.JObject? ==> DistinctKeys(parsed.value.fields)
    ensures Name(output) == "" ==> r == Err(EmptyName)
    ensures Name(output) != "" && !manifestFound ==> r == Err(ManifestNotFound(manifestPath))
    ensures r.Ok? <==> Name(output) != "" && manifestFound && parsed.Some? && parsed.value.JObject?
    ensures r.Ok? ==> r.value.path == ForceSuffix(output).value && Suffix(Name(r.value.path)) == PackageSuffix
    ensures r.Ok? ==> r.value.directory == Parent(output)
    ensures r.Ok? ==> r.value.entries == Layout(Selected(walk), Mutated(parsed.value.fields, now, version))
  {
    var path := ForceSuffix(output);
    if path.Err? {
      return Err(path.error);
    }
    var manifest := LoadManifest(manifestPath, manifestFound, parsed, now, version);
    if manifest.Err? {
      return Err(manifest.error);
    }
    var pkg := PackageAddon(path.value, manifest.value, walk);
    return Ok(pkg);
  }
}
