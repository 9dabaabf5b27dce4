/** The archive step, `package_addon`: every selected file under its POSIX
    relative path, then the mutated manifest under `manifest.json`. */
module Archive {
  import opened Paths
  import opened Ordering
  import opened Selection
  import opened Manifest

  /** The entry name the mutated manifest is written under. */
  const ManifestEntryName := "manifest.json"

  /** What an entry holds: the bytes of a project file, named by its path,
      or the serialised manifest object. */
  datatype Content = FileBytes(source: Path) | ManifestBytes(manifest: Fields)

  datatype Entry = Entry(name: string, content: Content)

  /** The outcome of one packaging run: the archive path, the directory made
      sure to exist for it, and the archive's entries in the order written. */
  datatype Package = Package(path: Path, directory: Path, entries: seq<Entry>)

  /** A `ZipFile` opened for writing: the entries written so far, in order. */
  class ZipArchive {
    var entries: seq<Entry>

    constructor ()
      ensures entries == []
    {
      entries := [];
    }

    /** `archive.write(source, arcname=name)`. */
    method Write(source: Path, name: string)
      modifies this
      ensures entries == old(entries) + [Entry(name, FileBytes(source))]
    {
      entries := entries + [Entry(name, FileBytes(source))];
    }

    /** `archive.writestr(name, manifest_bytes)`. */
    method WriteStr(name: string, manifest: Fields)
      modifies this
      ensures entries == old(entries) + [Entry(name, ManifestBytes(manifest))]
    {
      entries := entries + [Entry(name, ManifestBytes(manifest))];
    }
  }

  /** The entries the loop of `package_addon` writes for `files`. */
  function FileEntries(files: seq<Path>): seq<Entry> {
    if files == [] then []
    else FileEntries(files[..|files| - 1]) + [Entry(Posix(files[|files| - 1]), FileBytes(files[|files| - 1]))]
  }

  /** The whole archive: the file entries, then the manifest entry. */
  function Layout(files: seq<Path>, manifest: Fields): seq<Entry> {
    FileEntries(files) + [Entry(ManifestEntryName, ManifestBytes(manifest))]
  }

  /** Entry `i` of the archive is file `i` under its POSIX path; one entry
      more, the last, holds the manifest. */
  lemma {:induction false} LayoutAt(files: seq<Path>, manifest: Fields)
    ensures |Layout(files, manifest)| == |files| + 1
    ensures Layout(files, manifest)[|files|] == Entry(ManifestEntryName, ManifestBytes(manifest))
    ensures forall i :: 0 <= i < |files| ==> Layout(files, manifest)[i] == Entry(Posix(files[i]), FileBytes(files[i]))
  {
    if files != [] {
      var init := files[..|files| - 1];
      LayoutAt(init, manifest);
      assert FileEntries(init) == Layout(init, manifest)[..|init|];
    }
  }

  predicate UniqueNames(entries: seq<Entry>) {
    forall i, j :: 0 <= i < j < |entries| ==> entries[i].name != entries[j].name
  }

  /** For any walk, `manifest.json` names the last entry and no other; on a
      well-formed walk no name occurs twice and the file entries are in
      ascending name order. */
  lemma LayoutOfSelection(walk: seq<Candidate>, manifest: Fields)
    ensures var e := Layout(Selected(walk), manifest);
      e[|e| - 1] == Entry(ManifestEntryName, ManifestBytes(manifest)) &&
      forall i :: 0 <= i < |e| && e[i].name == ManifestEntryName ==> i == |e| - 1
    ensures var e := Layout(Selected(walk), manifest);
      WellFormedWalk(walk) ==>
        UniqueNames(e) && forall i, j :: 0 <= i < j < |e| - 1 ==> LexLess(e[i].name, e[j].name)
  {
    var files := Selected(walk);
    var e := Layout(files, manifest);
    LayoutAt(files, manifest);
    NoManifestSelected(walk);
    forall i | 0 <= i < |files| ensures e[i].name != ManifestEntryName {
      assert files[i] in files;
    }
    if WellFormedWalk(walk) {
      SelectedCorrect(walk);
      forall i, j | 0 <= i < j < |e| ensures e[i].name != e[j].name {
        if j < |files| {
          assert PathLess(files[i], files[j]);
          LexLessIrreflexive(Posix(files[i]));
        }
      }
    }
  }

  /** `package_addon`: select the files, make sure the output's directory
      exists, write each file under its POSIX relative path, then the
      manifest last. */
  method PackageAddon(output: Path, manifest: Fields, walk: seq<Candidate>) returns (pkg: Package)
    ensures pkg.path == output && pkg.directory == Parent(output)
    ensures pkg.entries == Layout(Selected(walk), manifest)
    ensures |pkg.entries| == |Selected(walk)| + 1
    ensures pkg.entries[|pkg.entries| - 1] == Entry(ManifestEntryName, ManifestBytes(manifest))
    ensures forall i :: 0 <= i < |pkg.entries| && pkg.entries[i].name == ManifestEntryName ==> i == |pkg.entries| - 1
    ensures WellFormedWalk(walk) ==> UniqueNames(pkg.entries)
  {
    var files := IterProjectFiles(walk);
    var directory := Parent(output);
    var archive := new ZipArchive();
    for i := 0 to |files|
      invariant archive.entries == FileEntries(files[..i])
    {
      assert files[..i + 1][..i] == files[..i];
      archive.Write(files[i], Posix(files[i]));
    }
    assert files[..|files|] == files;
    archive.WriteStr(ManifestEntryName, manifest);
    pkg := Package(output, directory, archive.entries);
    LayoutAt(files, manifest);
    LayoutOfSelection(walk, manifest);
  }
}
