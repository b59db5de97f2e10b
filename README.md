# mdbook-readme-summary, modelled in Dafny

An mdBook preprocessor that fills in tables of contents inside README files.
Before the book is rendered, `generate_readme_links` walks every directory
below the book's `src` directory. A directory qualifies when it is not `src`
itself, it has a `README.md`, and that README contains the literal
placeholder `{{TOC}}`. For a qualifying directory, the generator lists the
directory's immediate children. For every child that is a directory with its
own `README.md`, it emits one line `- [<name>](./<path-relative-to-src>/)`,
in listing order. If that link tree is non-empty, every placeholder in the
README is replaced by it and the file is written back. An I/O error from
reading or writing a README, listing a directory, or a child's `file_type()`
stops the whole pass.

The model is split into four modules:

- `Io` (io.dfy): paths, the I/O calls that can fail, and `io::Result`.
- `Text` (text.dfy): `is_readme`, the `{{TOC}}` substring test, and
  `str::replace` with that pattern, together with their lemmas.
- `Links` (links.dfy): one directory's listing, its link tree, and the child
  loop as the method `BuildLinkTree`.
- `ReadmeSummary` (readme_summary.dfy): the per-directory step `Visit`, the
  whole pass `Walk`, and the class `SourceTree`. The method
  `SourceTree.GenerateReadmeLinks` is the outer loop that updates the README
  map. It is proved equal to `Walk`.

The filesystem is abstract:

- The walk is a sequence of `WalkItem`s. Each item is a walk error, or a
  walked entry with its path relative to `src`, a directory flag, and its
  `read_dir` listing.
- A listing is either a listing error or a sequence of `Child`ren. A child
  is an unreadable entry, or an `Entry` with a name, a path relative to
  `src`, a file kind (`Directory`, `NotDirectory`, or `KindError` when
  `file_type()` fails), and a flag saying whether `<child>/README.md` exists.
- README contents are a `map<Path, string>` keyed by the directory's path.
  "README.md exists" means the key is present.
- The READMEs whose read or write fails are given as two sets of paths
  (`Faults`).

What the generator does and does not do:

- Only subdirectories are listed. Plain files such as `C.md` never get a
  line, and there is no draft filtering.
- When no child qualifies, the README is not rewritten, so its placeholder
  stays in place. It is not replaced by an empty string.
- The link text is the child's bare name with no trailing `/`. The target is
  the child's path relative to `src`, not to the README's own directory.
- An I/O error on one directory aborts the whole pass. Directories after it
  are left as they were. Walk errors and unreadable child entries, by
  contrast, are silently skipped. `exists()` reports a README it cannot
  stat as absent, so such a directory is skipped (its path is not in the
  README map) and such a child gets no line (its `hasReadme` is false).

## Model

| member | source | states |
|---|---|---|
| `Text.IsReadme` | src/readme_summary/mod.rs:79-83 | a file name is a README exactly when it spells `readme.md` or `readme.html` ignoring letter case |
| `Text.IsReadmeIgnoresCase` | src/readme_summary/mod.rs:79-83 | two names that differ only in letter case are both READMEs or both not |
| `Text.HasMarker` | src/readme_summary/mod.rs:94 | detecting the marker implies the content is at least as long as `{{TOC}}`; `HasMarkerIff` characterises it fully |
| `Text.HasMarkerIff` | src/readme_summary/mod.rs:94 | marker detection holds exactly when `{{TOC}}` occurs at some index of the content (both directions) |
| `Text.ShortHasNoMarker` | src/readme_summary/mod.rs:94 | content shorter than the marker, the empty string included, has no marker |
| `Text.HasMarkerSpliced` | src/readme_summary/mod.rs:94 | any content with `{{TOC}}` spliced into it is detected as marked |
| `Text.BraceFreePrefix` | src/readme_summary/mod.rs:94 | a prefix without `{` neither creates nor hides a marker occurrence |
| `Text.ReplaceAll` | src/readme_summary/mod.rs:141 | replacing in content without a marker returns the content unchanged; `ReplaceAllFirst` and `ReplaceAllEveryMarker` say what happens to each marker |
| `Text.ReplaceAllFirst` | src/readme_summary/mod.rs:141 | the leftmost non-overlapped marker becomes the snippet, and the text before it is copied unchanged |
| `Text.ReplaceAllEveryMarker` | src/readme_summary/mod.rs:141 | text made of `{`-free pieces separated by markers becomes the same pieces separated by the snippet, so every marker receives the identical snippet |
| `Text.ReplaceAllRemovesMarker` | src/readme_summary/mod.rs:139-141 | with a non-empty snippet that has no `{` and does not start with a marker character, no marker is left after replacement |
| `Text.ReplaceAllIdempotent` | src/readme_summary/mod.rs:139-141 | with such a snippet, replacing a second time changes nothing |
| `Text.ReplaceAllChanges` | src/readme_summary/mod.rs:141 | content that carries a marker is always changed by a non-empty snippet not starting with `{` |
| `Links.FirstTypeError` | src/readme_summary/mod.rs:119-121 | there is no error exactly when every readable child's file type can be read; otherwise the error names the first child whose type cannot be read |
| `Links.FirstTypeErrorAppend` | src/readme_summary/mod.rs:119-121 | the first type error of a concatenation is that of the first part, failing that that of the second |
| `Links.LinkTreeAppend` | src/readme_summary/mod.rs:117-136 | the link tree of `xs + ys` is the tree of `xs` followed by the tree of `ys` (enumeration order is kept) |
| `Links.LinkTreeEmptyIff` | src/readme_summary/mod.rs:120-125 | the link tree is empty exactly when no child is a directory containing README.md |
| `Links.QualifyingAppend` | src/readme_summary/mod.rs:119-125 | filtering `xs + ys` keeps the qualifying children of `xs` then of `ys`, in listing order and with repeats |
| `Links.QualifyingSingle` | src/readme_summary/mod.rs:120-125 | filtering keeps one child exactly when it is a directory with a README.md |
| `Links.Qualifying` | src/readme_summary/mod.rs:120-125 | the qualifying children are exactly the listed children that are directories with a README.md |
| `Links.LinkTreeIsLines` | src/readme_summary/mod.rs:117-136 | the link tree is the lines `- [name](./relpath/)` of exactly the qualifying children, in listing order |
| `Links.LinkTreeLines` | src/readme_summary/mod.rs:129-133 | with single-line names and paths, the tree has exactly one line per qualifying child |
| `Links.LinkLine` | src/readme_summary/mod.rs:129-133 | a child's line contains `{`, the marker's first character, exactly when the child's name or path does |
| `Links.LinkLineChars` | src/readme_summary/mod.rs:129-133 | apart from the characters of `- [`, `](./` and `/)` plus newline, a line's characters are exactly those of the name and the path |
| `Links.LinkTree` | src/readme_summary/mod.rs:117-136 | a non-empty link tree starts with `-` and ends with a newline |
| `Links.LinkTreeSingle` | src/readme_summary/mod.rs:120-133 | one child contributes its line when it is a directory with a README.md, and nothing otherwise |
| `Links.Scan` | src/readme_summary/mod.rs:119-137 | the child loop fails exactly when some readable child's file type cannot be read, with a file-type error; otherwise it yields the link tree |
| `Links.LinkTreeAvoids` | src/readme_summary/mod.rs:129-133 | a character outside the link syntax appears in the tree only if some child's name or path contains it |
| `Links.ExampleListing` | src/readme_summary/mod.rs:119-136 | a directory with a README, a directory without one, a file, an unreadable entry and README.md itself yield the single line of the first |
| `Links.BuildLinkTree` | src/readme_summary/mod.rs:117-137 | the child loop returns the file-type error of the first child whose type cannot be read, else the link tree of the listing |
| `ReadmeSummary.Visit` | src/readme_summary/mod.rs:104-143 | only the visited README can change; a failed visit writes nothing; non-candidates and unmarked READMEs are skipped; each error names the failing call and its conditions. Conversely: an unreadable README, a listing error, a child file-type error and a write error each produce their error, an empty link tree leaves the README alone, and otherwise the README becomes its old content with every marker replaced by the link tree |
| `ReadmeSummary.Walk` | src/readme_summary/mod.rs:97-147 | the pass never adds or removes a README, and READMEs of directories it does not walk are unchanged |
| `ReadmeSummary.WalkAppend` | src/readme_summary/mod.rs:98-103 | walking `xs + ys` is walking `xs` and then, unless that failed, `ys` |
| `ReadmeSummary.WalkStopsAtFailure` | src/readme_summary/mod.rs:113-142 | a failed pass fails at one directory: all before it succeeded, it reports the error, and nothing after it is touched |
| `ReadmeSummary.WalkFailsAt` | src/readme_summary/mod.rs:113-142 | a failing visit that the pass reaches ends the whole pass with that error, and the directories after it are left untouched |
| `ReadmeSummary.VisitLocal` | src/readme_summary/mod.rs:112-142 | a visit depends only on its own directory's README |
| `ReadmeSummary.WalkIsPerDirectory` | src/readme_summary/mod.rs:98-144 | when no directory is walked twice, a successful pass leaves each README as a visit of its directory alone would |
| `ReadmeSummary.WalkRewritesMarked` | src/readme_summary/mod.rs:112-143 | in a successful pass with no directory walked twice, every marked README whose link tree is non-empty ends as its old content with every marker replaced by that tree |
| `ReadmeSummary.RewrittenHasNoMarker` | src/readme_summary/mod.rs:139-142 | with `{`-free child names and paths, a README that was rewritten no longer carries a marker |
| `ReadmeSummary.VisitSettles` | src/readme_summary/mod.rs:104-143 | when the directory's child names and paths are free of `{`, after a successful visit, visiting the same directory again changes nothing |
| `ReadmeSummary.SettledAfterVisit` | src/readme_summary/mod.rs:104-143 | a directory whose visit changes nothing stays so after another successful visit |
| `ReadmeSummary.SettledAfterWalk` | src/readme_summary/mod.rs:98-144 | such a directory stays so after a successful pass |
| `ReadmeSummary.WalkSettles` | src/readme_summary/mod.rs:98-144 | when every listing's child names and paths are free of `{`, after a successful pass, visiting any walked directory again changes nothing |
| `ReadmeSummary.WalkOverSettled` | src/readme_summary/mod.rs:98-144 | a pass over such directories succeeds and changes nothing |
| `ReadmeSummary.SecondPassChangesNothing` | src/readme_summary/mod.rs:97-147 | when every listing's child names and paths are free of `{`, running the generator a second time over the same tree succeeds and leaves every README as the first run left it |
| `ReadmeSummary.SourceTree.GenerateReadmeLinks` | src/readme_summary/mod.rs:97-147 | the outer loop's result and final README map are those of `Walk` on the old map, and the set of READMEs is unchanged |

## Left out

- `Preprocessor::run` (src/readme_summary/mod.rs:27-47) is host plumbing: it looks up config, fails on `blow-up`, reloads the book with `MDBook::load`, and panics on a load error.
- `name` and `supports_renderer` (src/readme_summary/mod.rs:23-25, 49-51) are constants with nothing to prove.
- `is_directory` (src/readme_summary/mod.rs:85-87) is the `isDir` flag of a walked item. The walk's directory filter sits inside `Visit` (`Candidate`).
- Real filesystem access is not modelled. `WalkDir`'s traversal and its order, `read_dir`, `exists`, `File::open`, `read_to_string` and `fs::write` are given as abstract inputs: the walk sequence, the listings, the README map and the fault sets.
- Path manipulation is not modelled. Names and relative paths are given strings, so the panic of `to_str().unwrap()` on a non-UTF-8 name does not arise. `strip_prefix(..).unwrap()` and `file_name().unwrap()` cannot fail here: every walked path lies under `src`, and every `read_dir` entry has a file name. The root check "zero path components" becomes "empty relative path".
- The second read of a README (src/readme_summary/mod.rs:140) returns the same content as the first read at line 113. It cannot fail on its own, since nothing runs concurrently in the model.
- A failed `fs::write` leaves the README as it was. A partial write is not modelled.
- Text.IsReadme: lower-casing is ASCII-only. Rust's Unicode `to_lowercase` maps no other character to the letters of `readme.md` or `readme.html`, so the answer agrees. `is_readme` has no caller in the source, and the model does not call it either.
- Text.ReplaceAllRemovesMarker: needs a snippet free of `{`. A snippet that itself contains `{{TOC}}` leaves a marker behind.
- Text.ReplaceAllIdempotent: needs the same `{`-free snippet, for the same reason.
- ReadmeSummary.RewrittenHasNoMarker: needs child names and paths free of `{`. A child directory named `{{TOC}}` carries a marker into the rewritten README.
- ReadmeSummary.VisitSettles: needs the same `{`-free children, since such a carried marker is replaced again on the next visit.
- ReadmeSummary.WalkSettles: needs `{`-free children in every listing, for the same reason.
- ReadmeSummary.SecondPassChangesNothing: needs `{`-free children in every listing, for the same reason.
- The commented-out earlier generator (src/readme_summary/mod.rs:54-77) is dead code.
