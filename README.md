# FieldReporter packaging script, modelled in Dafny

`package_addon.py` packs the FieldReporter plugin into an Anki `.ankiaddon`
ZIP archive. This project models its decision logic:

- **File selection** (`should_include`, `iter_project_files`): three fixed
  exclusion sets (directory names tested against every relative path part,
  exact base names, suffixes under pathlib's suffix rule), then a stable sort
  by the `/`-joined relative path in code-point order. The filesystem walk is
  an input sequence of candidates, each a relative path (its parts) with an
  `isFile` flag. The collecting loop is a `method` with a loop invariant.
  The `sorted` call is the functional insertion sort `Ordering.SortByKey`,
  which is stable like Python's. It is proved to return a permutation in
  ascending order.
- **Manifest mutation** (`load_manifest`): the parsed JSON object is an
  insertion-ordered association list held by a `Dict` class. The class is
  updated in place with Python's `d[k] = v` rule: a present key keeps its
  position, a new key is appended. `mod` is set to the timestamp. `version`
  is set only for a truthy override. A missing file, text that does not
  parse and a non-object document are errors.
- **Archive layout** (`package_addon`): a `ZipArchive` class is filled entry
  by entry in a loop: every selected file under its POSIX relative path,
  then one last `manifest.json` entry.
- **Output suffix forcing and the run order of `main`**: the output name is
  given the `.ankiaddon` suffix, and a path with an empty name is refused,
  as pathlib's `with_suffix` refuses it. This happens before the manifest is
  loaded. A run that fails produces no package.

Modules: `Wrappers` and `Errors` (wrappers.dfy), `Paths` (paths.dfy),
`Ordering` (ordering.dfy), `Selection` (selection.dfy), `Manifest`
(manifest.dfy), `Archive` (archive.dfy), `Addon` (addon.dfy).

Behaviour of the script worth noting:
- An empty `--version` leaves `version` alone, because the override is
  applied only when it is truthy (package_addon.py:81).
- `with_suffix` appends the suffix to a name that has none, and replaces
  the suffix of a name that has one (package_addon.py:134).
- The excluded directory names are tested against the file's own name too,
  so a file named `dist` is excluded (package_addon.py:48-50).
- pathlib gives the name `.ankiaddon` no suffix, since its only dot is its
  first character, so the output `out/.ankiaddon` becomes
  `out/.ankiaddon.ankiaddon` (package_addon.py:133-134,
  `Addon.ForceSuffixEdgeCases`).

## Model

| member | source | states |
|---|---|---|
| `Paths.RFind` | package_addon.py:56 | the index is -1 or holds the searched character, and no later index holds it (the `rfind` inside pathlib's `suffix`) |
| `Paths.Suffix` | package_addon.py:56 | the suffix is empty or a proper tail of the name of length at least 2, starting with its only dot |
| `Paths.StemAndSuffix` | package_addon.py:56 | a name is its stem followed by its suffix, and a non-empty suffix leaves a non-empty stem |
| `Paths.SuffixOfAppended` | package_addon.py:133-134 | an extension with one leading dot appended to any non-empty stem is the suffix of the result |
| `Paths.PosixInjective` | package_addon.py:69 | two relative paths whose parts are non-empty and free of `/` have the same POSIX string only when they are the same path |
| `Paths.PosixOfNoSlash` | package_addon.py:69 | a path whose POSIX string has no `/` has at most one part |
| `Ordering.LexLessIrreflexive` | package_addon.py:68-70 | no string sorts before itself |
| `Ordering.LexLessTransitive` | package_addon.py:68-70 | the string order of the sort key is transitive |
| `Ordering.LexLessTotal` | package_addon.py:68-70 | any two different strings are ordered one way or the other |
| `Ordering.LexLessAsymmetric` | package_addon.py:68-70 | of two strings at most one sorts before the other |
| `Ordering.InsertPermutes` | package_addon.py:68-70 | one insertion step adds exactly the inserted path to the multiset of elements |
| `Ordering.InsertSorted` | package_addon.py:68-70 | one insertion step keeps a sorted sequence sorted |
| `Ordering.InsertDistinct` | package_addon.py:68-70 | inserting a new path into a sequence without repeats gives a sequence without repeats |
| `Ordering.SortByKeyCorrect` | package_addon.py:68-70 | `sorted` by POSIX path returns a permutation of its input, in ascending key order |
| `Ordering.SortByKeyDistinct` | package_addon.py:68-70 | sorting an input without repeats gives an output without repeats |
| `Ordering.SortedDistinctKeys` | package_addon.py:68-70 | a sorted sequence whose keys differ pairwise is strictly ascending |
| `Ordering.SameElementsEmpty` | package_addon.py:68-70 | two sequences with the same elements are empty together |
| `Ordering.StrictlySortedUnique` | package_addon.py:68-70 | two strictly ascending sequences with the same elements are equal |
| `Selection.AnyExcludedPartIff` | package_addon.py:50 | the left-to-right `any` scan finds an excluded directory name exactly when some part is one |
| `Selection.ShouldIncludeIff` | package_addon.py:46-59 | a path is included exactly when no part (its own name included) is an excluded directory, its name is not an excluded file and its suffix is not an excluded suffix |
| `Selection.FilteredMembers` | package_addon.py:64-67 | the collected candidates are exactly the walked entries that are files and pass `should_include` |
| `Selection.FilteredDistinct` | package_addon.py:64-67 | on a walk that repeats no path, no candidate is collected twice and every collected path is well formed |
| `Selection.SelectedCorrect` | package_addon.py:62-70 | the selection holds exactly the included files, each once, in ascending POSIX path order |
| `Selection.SelectedPermutationInvariant` | package_addon.py:62-70 | two walks that list the same entries in any order give the identical selection |
| `Selection.NoManifestSelected` | package_addon.py:32 | no selected file is named `manifest.json` at any depth, and no selected POSIX path is `manifest.json` |
| `Selection.IterProjectFiles` | package_addon.py:62-70 | the loop plus the sort returns exactly the included files, sorted, strictly ascending on a real walk |
| `Selection.DotFileHasNoSuffix` | package_addon.py:31 | `.DS_Store` has no suffix, and every path whose name is `.DS_Store` is excluded, at any depth |
| `Selection.SmallTreeRules` | package_addon.py:46-59 | `a.py` passes; `dist/old.ankiaddon` and `.git/config` fail the directory rule; `notes.log` fails the suffix rule |
| `Selection.SmallTreeExample` | package_addon.py:62-70 | walking `a.py`, `dist/old.ankiaddon`, `.git/config`, `notes.log` and `dist` selects `a.py` alone |
| `Manifest.Assign` | package_addon.py:79-82 | `d[k] = v` keeps the key order and appends an absent key; afterwards `k` maps to `v` and every other key to its old value; distinct keys stay distinct |
| `Manifest.Mutated` | package_addon.py:79-82 | `mod` maps to the timestamp; `version` maps to a truthy override or else to its old value; every other key keeps its value; absent `mod` then `version` are appended at the end |
| `Manifest.Dict.SetItem` | package_addon.py:79 | the dictionary's new member list is the old one updated by `d[k] = v`, with keys still distinct |
| `Manifest.LoadManifest` | package_addon.py:73-85 | a missing manifest gives the not-found error; unparsable text and a non-object document give errors; otherwise the result is the mutated object, with `mod` set to the timestamp |
| `Manifest.VersionUntouched` | package_addon.py:81-82 | a missing or empty override leaves `version` as in the template, or absent if it was absent |
| `Manifest.AssignPresent` | package_addon.py:79-82 | assigning a key the value it already has changes nothing |
| `Manifest.MutatedIdempotent` | package_addon.py:79-82 | mutating again with the same timestamp and override changes nothing more |
| `Manifest.TemplateExample` | package_addon.py:79-82 | the template `{"name":"X","version":"1.0","mod":0}` with override `2.0` becomes `{"name":"X","version":"2.0","mod":now}` in the same key order |
| `Archive.ZipArchive.Write` | package_addon.py:96-99 | one file entry is appended under the given name |
| `Archive.ZipArchive.WriteStr` | package_addon.py:100 | one manifest entry is appended under the given name |
| `Archive.LayoutAt` | package_addon.py:94-100 | entry `i` is file `i` under its POSIX path, and exactly one more entry, the last, holds the manifest |
| `Archive.LayoutOfSelection` | package_addon.py:94-100 | `manifest.json` names the last entry and no other; on a real walk no entry name occurs twice and the file entries ascend by name |
| `Archive.PackageAddon` | package_addon.py:88-102 | the archive holds the selected files in sorted order under their POSIX paths, then the manifest as the only `manifest.json` entry; the output's parent is the directory made to exist |
| `Addon.WithPackageSuffix` | package_addon.py:134 | an empty name is refused; otherwise only the name changes, to its stem plus `.ankiaddon`, whose suffix is then `.ankiaddon` |
| `Addon.ForceSuffix` | package_addon.py:133-134 | the result's suffix is `.ankiaddon`; a name with that suffix is unchanged; any other name becomes its stem plus `.ankiaddon`; the directory is kept; only an empty name fails |
| `Addon.ForceSuffixOf` | package_addon.py:133-134 | forcing changes the name alone: kept with the package suffix, otherwise stem plus `.ankiaddon` |
| `Addon.ForceSuffixIdempotent` | package_addon.py:133-134 | forcing the suffix twice gives the same path as forcing it once |
| `Addon.ForceSuffixReplaces` | package_addon.py:133-134 | `out/pkg.zip` becomes `out/pkg.ankiaddon` |
| `Addon.ForceSuffixAppends` | package_addon.py:133-134 | `out/pkg` becomes `out/pkg.ankiaddon` |
| `Addon.ForceSuffixAfterDot` | package_addon.py:133-134 | `out/pkg.` becomes `out/pkg..ankiaddon` |
| `Addon.ForceSuffixEdgeCases` | package_addon.py:133-134 | `out/.ankiaddon` becomes `out/.ankiaddon.ankiaddon`; the root path is refused |
| `Addon.BuildAddon` | package_addon.py:129-138 | an empty output name fails first; then a missing manifest fails with no package made; otherwise the package is at the forced path, its directory is the output's parent, and its entries are the sorted selection followed by the mutated manifest |

## Left out

- Filesystem traversal and queries (`rglob`, `is_file`, `exists`, `relative_to`): the walk, the existence answer and the file kinds are inputs. The walk is assumed to report relative paths whose parts are non-empty and contain no `/`, each path once (`Selection.WellFormedWalk`), as any real walk does.
- `expanduser` and `resolve`: the output path is taken already resolved, as its parts.
- `mkdir`: it is recorded as the directory the package reports, with no filesystem behind it.
- ZIP and DEFLATE encoding, and reading file contents: an entry holds the source path of a file, or the manifest object, in place of bytes.
- JSON text parsing, `json.dumps` (indentation, `ensure_ascii=False`) and UTF-8 encoding are left out. The parser's answer is an input: `None` when the text is not JSON, otherwise a value whose top-level keys are distinct, as a Python `dict`'s are. JSON numbers are modelled as integers; floats are not modelled.
- `time.time()` and its truncation by `int`: the timestamp is an integer parameter. Whether it grows from run to run depends on the clock and is not modelled.
- `argparse`, `print`, and the default paths built from `__file__` are not modelled. The version option is an `Option<string>` parameter.
- Write failures (disk full, permission denied), a truncated archive after a failure, and overwriting an existing output file are not modelled.
- `with_suffix` also validates its argument; `main` always passes the valid constant `.ankiaddon`, so only the empty-name refusal is modelled.
- Selection.IterProjectFiles: strict ascending order (hence no repeated entry name) is stated only for well-formed walks. A part containing `/` could make two paths share a sort key; the filesystem never produces such a part.
