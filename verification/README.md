# Repository summary generator, modelled in Dafny

`generate_repo_summary.py` writes one text report about a repository. The
report has two sections:

1. **Structure.** A header, then a `tree`-like drawing of every entry below
   the repository path, with the entries of each directory sorted by name.
   Each entry line reads `prefix + connector + name`, where the connector is
   `└── ` for the last entry and `├── ` otherwise. A subdirectory is drawn
   below its own line with the prefix extended by `    ` (after a last entry)
   or by `│   ` (otherwise). A directory that cannot be listed shows
   `[Permission Denied]`. This section is not filtered.
2. **Contents.** A second header, then a top-down walk of the repository.
   Before the walk descends into a directory, the directory's subdirectory
   list is pruned of every subdirectory whose own path is excluded. Each
   file is dumped unless its own path is excluded. A dump is:
   - a line of twenty dashes
   - `# File: <path>`
   - another line of twenty dashes
   - the file's text, or a `# [...]` placeholder line when the file cannot be
     read
   - two line breaks

A path is excluded when one of the patterns occurs literally anywhere in its
absolute path. The patterns are the output filename followed by nine fixed
ones: `.git`, `node_modules`, `__pycache__`, `build`, `dist`, `.log`, `.tmp`,
`.swp` and `.DS_Store`.

The model works as follows:

- **The filesystem** is a value (`FileTree.Node`). A file carries what reading
  it gives (`FileTree.ReadOutcome`). A directory carries its entries in the
  order the host lists them. An unlistable directory is its own case.
- **The report file** is a class (`Output.Sink`). It records the argument of
  every `write` call, and its field only grows.
- **The three functions and `main`** are methods in the source's own form:
  - the recursive renderer with its loop (`TreeRender.PrintDirectoryStructure`,
    `TreeRender.PrintEntry`)
  - the five writes of a dump (`ContentDump.PrintFileContents`)
  - the early-return scan over the patterns (`Exclusion.ShouldExclude`)
  - the in-place pruning and the two loops of the walk (`Summary.PruneDirs`,
    `Summary.DumpFiles`, `Summary.Walk`)
  - `main` itself (`Summary.Summarize`)

  Each method is proved against a specification function
  (`TreeLines`, `FileDump`, `Excluded`, `Kept`, `WalkVisits`, `Report`).
  Lemmas then state what those functions promise:
  - the line count and layout of the drawing, and the shape of every line
  - that sorting yields a sorted permutation
  - that a dump parses back to its path and body
  - that the walk dumps exactly the reachable files whose own path is not
    excluded
  - that nothing at or below an excluded path is dumped
  - that no file whose absolute path contains the output-filename string is
    dumped (the report itself is dumped when the output name as given does
    not occur in the report's absolute path, e.g. `-o ./out.txt`: see
    `Summary.RelativeOutputNameDumped`)
  - that an excluded entry still appears in the tree section

A tree is well formed (`FileTree.WellFormed`) when, below the root, every
entry name is non-empty, free of `/` and neither `.` nor `..`, and no directory holds two entries
of the same name, as a filesystem guarantees. `Summary.Summarize` and the
renderer require it. With unique names, sorting by name leaves no choice,
so the renderer's insertion sort computes exactly `TreeRender.Items`, the
sorted listing that the drawing is specified by.

Two behaviours of the script are over-broad by design and are modelled as
written:
- The exclusion test is a substring test on the whole absolute path, so it
  also matches the names of ancestor directories (`ExcludedRootDumpsNothing`).
- The tree section ignores exclusions (`TreeListsEveryRootEntry`).

## Model

| member | source | states |
|---|---|---|
| Strings.IsSubstring | generate_repo_summary.py:44 | Python's `pattern in abs_path` on strings: some literal, contiguous occurrence |
| Strings.Join | generate_repo_summary.py:13 | `os.path.join` with the POSIX separator: an absolute name replaces the directory, otherwise one separator is inserted unless the directory is empty or ends with one |
| Strings.JoinShape | generate_repo_summary.py:13 | `os.path.join`: the result ends with the name, inserts at most one separator, and starts with the directory unless the name is absolute |
| Strings.SubstringOfPrefix | generate_repo_summary.py:44 | a pattern that occurs in a string occurs in every extension of it |
| Strings.CharMissing | generate_repo_summary.py:44 | a pattern holding a character the path lacks does not occur in it |
| Strings.FirstCharMissing | generate_repo_summary.py:44 | a pattern whose first character starts no long enough suffix of the path does not occur in it |
| Strings.StrLe | generate_repo_summary.py:7 | Python's `<=` on `str`, which `sorted` uses: lexicographic by code point, a proper prefix first |
| Strings.StrLeReflexive | generate_repo_summary.py:7 | string order, as used by `sorted`, is reflexive |
| Strings.StrLeTotal | generate_repo_summary.py:7 | any two names are comparable |
| Strings.StrLeTransitive | generate_repo_summary.py:7 | string order is transitive |
| Strings.StrLeAntisymmetric | generate_repo_summary.py:7 | two names each ordered before the other are equal |
| Strings.Concat | generate_repo_summary.py:56-59 | the text a run of `write` calls leaves in the report: the written strings, one after another |
| Strings.ConcatAppend | generate_repo_summary.py:56-59 | the file text left by two runs of writes is the text of the first followed by that of the second |
| Strings.LineEnd | generate_repo_summary.py:25 | the index found is that of the first line break, or the length when there is none |
| Strings.LineEndAt | generate_repo_summary.py:25 | a path without a line break ends at the line break written after it |
| FileTree.IsDirectory | generate_repo_summary.py:18 | `os.path.isdir`: a listable or an unlistable directory |
| FileTree.UniqueNamesDetermine | generate_repo_summary.py:7 | in a listing whose names are pairwise distinct, a name determines the entry |
| FileTree.Insert | generate_repo_summary.py:7 | inserting into a sorted listing keeps it sorted and adds exactly that entry |
| FileTree.SortedCons | generate_repo_summary.py:7 | an entry no larger than any entry of a sorted listing can be put in front of it |
| FileTree.InsertedFrom | generate_repo_summary.py:7 | after an insertion, every entry is the inserted one or one that was there before |
| FileTree.SortByName | generate_repo_summary.py:7 | `sorted(os.listdir(...))`: the result is sorted by name and is a permutation of the listing |
| FileTree.SortedUnique | generate_repo_summary.py:7 | with unique names, two sorted permutations of one listing are equal: `sorted` leaves no choice |
| FileTree.SortedHeads | generate_repo_summary.py:7 | two sorted permutations of a listing with unique names start with the same entry |
| FileTree.TailMultiset | generate_repo_summary.py:7 | removing the same first entry from two permutations leaves two permutations |
| Output.Sink.constructor | generate_repo_summary.py:56 | opening the report with mode `'w'` starts it empty |
| Output.Sink.Write | generate_repo_summary.py:57 | `write` appends its argument to the writes so far and changes nothing else |
| Exclusion.ExcludePatterns | generate_repo_summary.py:50-54 | the pattern list has ten entries, holds the output filename and every fixed pattern |
| Exclusion.Excluded | generate_repo_summary.py:39-46 | the specification of `should_exclude` on an absolute path: some pattern of the list occurs in it |
| Exclusion.ShouldExclude | generate_repo_summary.py:39-46 | returns true exactly when some pattern occurs literally in the absolute path |
| Exclusion.ExcludedMonotone | generate_repo_summary.py:42-45 | adding patterns never lets an excluded path through |
| Exclusion.ExcludedIgnoresOrder | generate_repo_summary.py:42-46 | the verdict depends only on which patterns are present, not on their order or repeats |
| Exclusion.ExcludedExtends | generate_repo_summary.py:41-45 | every path that extends an excluded path is excluded, so everything below an excluded directory is |
| Exclusion.OutputFilenameExcluded | generate_repo_summary.py:50-51 | a path containing the output filename is excluded by `main`'s list |
| TreeRender.Items | generate_repo_summary.py:7 | the entries the renderer iterates over: sorted by name and a permutation of the directory's listing |
| TreeRender.ItemMember | generate_repo_summary.py:7-12 | every entry of the sorted listing is an entry of the directory |
| TreeRender.ItemsAreSorted | generate_repo_summary.py:7 | with unique names, the insertion sort computes exactly that sorted listing |
| TreeRender.TreeLines | generate_repo_summary.py:4-20 | every `write` of `print_directory_structure(d, _, prefix)`: the permission marker, or the blocks of all sorted entries |
| TreeRender.Blocks | generate_repo_summary.py:12-20 | the writes of the first `k` passes of the loop over the sorted entries |
| TreeRender.EntryBlock | generate_repo_summary.py:13-20 | the writes of one pass: the connector line, then the subtree of a directory under the extended prefix |
| TreeRender.PrintDirectoryStructure | generate_repo_summary.py:4-20 | writes exactly `TreeLines(d, prefix)`: the permission marker for an unlistable directory, otherwise one block per entry in sorted order |
| TreeRender.PrintEntry | generate_repo_summary.py:13-20 | one loop pass writes the entry's connector line, then, for a directory, its subtree with the extended prefix |
| TreeRender.TotalLinesAppend | generate_repo_summary.py:12-20 | the lines accounted for by two runs of entries add up |
| TreeRender.TotalLinesPermutation | generate_repo_summary.py:7 | how many lines a listing takes does not depend on its order, so sorting does not change it |
| TreeRender.TotalLinesRemove | generate_repo_summary.py:12-20 | taking one entry out of a listing takes away exactly its own lines |
| TreeRender.EntryLines | generate_repo_summary.py:8-20 | a reference line count, independent of sorting: one line for the entry, plus the lines of its subtree for a directory, or the marker line for an unlistable one |
| TreeRender.TotalLines | generate_repo_summary.py:8-20 | the reference line count of a listing, summed over its entries in the listing's own order |
| TreeRender.TreeLinesCount | generate_repo_summary.py:8-20 | an unlistable directory writes only its marker line; a listable one makes one write per entry (one line of text when the name has no line break), plus those of its subdirectories, recursively |
| TreeRender.BlocksCount | generate_repo_summary.py:12-20 | after `k` loop passes, the lines written equal those accounted for by the first `k` sorted entries |
| TreeRender.EntryBlockCount | generate_repo_summary.py:16-20 | one entry writes its line, plus the marker or its subtree when it is a directory |
| TreeRender.BlocksGrow | generate_repo_summary.py:12-16 | later loop passes only append lines |
| TreeRender.EntryLayout | generate_repo_summary.py:12-20 | the `j`-th sorted entry's block sits, contiguous, right after the lines of the entries sorted before it |
| TreeRender.EntryBlockLayout | generate_repo_summary.py:14-20 | an entry's line carries `└── ` exactly when it is the last entry; a directory's subtree follows that line directly, drawn with the prefix extended by `    ` after a last entry and by `│   ` otherwise |
| TreeRender.EveryEntryListed | generate_repo_summary.py:12-16 | every entry of a listable directory gets its own line, whatever its position |
| TreeRender.SiblingOrder | generate_repo_summary.py:7-16 | of two sorted siblings, the one with the lesser name has its connector line drawn above the other's, and only the later one can carry `└── ` |
| TreeRender.TreeLinesShape | generate_repo_summary.py:9-20 | every line starts with the caller's prefix, continues with four-character indentation units and a connector or the marker, and ends with a line break |
| TreeRender.BlocksShape | generate_repo_summary.py:12-20 | every line the loop writes has that shape |
| TreeRender.EntryBlockShape | generate_repo_summary.py:16-20 | every line of one entry's block has that shape |
| TreeRender.EntryLineShaped | generate_repo_summary.py:15-16 | an entry line is the prefix, a connector, the name and a line break |
| TreeRender.IndentedLineShaped | generate_repo_summary.py:19-20 | a line drawn under an extended prefix is well shaped under the original prefix |
| TreeRender.ExampleLastEntry | generate_repo_summary.py:14-20 | a last directory entry is drawn with `└── `, its contents indented by four blanks |
| TreeRender.ExampleListing | generate_repo_summary.py:4-20 | the complete drawing of `a.txt`, `b.txt`, `c/d.txt` |
| ContentDump.Body | generate_repo_summary.py:27-36 | what is written between the framing: the text read, the fixed placeholder for a decoding or permission error, or the error placeholder with the exception text |
| ContentDump.FileDump | generate_repo_summary.py:24-37 | the five writes of one dump, in order |
| ContentDump.PrintFileContents | generate_repo_summary.py:22-37 | writes the separator, the path label, the separator, the text or the matching placeholder, then two line breaks |
| ContentDump.ConcatFive | generate_repo_summary.py:24-37 | the text of five writes is their concatenation |
| ContentDump.DumpFraming | generate_repo_summary.py:24-37 | whatever reading gives, a dump is the same framing around the body |
| ContentDump.ParseDump | generate_repo_summary.py:24-37 | reads a dump back: the separator, the `# File: ` label up to the first line break, the separator again, and the body before the final two line breaks |
| ContentDump.ParseFramedByRoundTrip | generate_repo_summary.py:24-37 | a framing with any separator and marker parses back to its path and body when the path has no line break |
| ContentDump.ParseFramed | generate_repo_summary.py:24-37 | the framing of the script parses back to its path and body when the path has no line break |
| ContentDump.DumpRoundTrip | generate_repo_summary.py:22-37 | a dump parses back to the file's path and exactly its text, or its placeholder |
| ContentDump.SeparatorLineShape | generate_repo_summary.py:24 | the separator is twenty dashes and a line break |
| ContentDump.CommentLineShape | generate_repo_summary.py:34-36 | a placeholder is a single `# [...]` line when its message has no line break |
| ContentDump.UnreadableMessageOneLine | generate_repo_summary.py:34 | the message for an undecodable or forbidden file has no line break |
| ContentDump.PlaceholderIsOneLine | generate_repo_summary.py:32-36 | for a read that fails, the body written is one `# [...]` line when the error text has no line break |
| Summary.VisitOf | generate_repo_summary.py:66 | a file found in a directory, with the display path `os.path.join(root, file)` and its absolute path |
| Summary.SubDirs | generate_repo_summary.py:61 | every entry of a walk step's `dirs` is a directory entry of the listing |
| Summary.SubDirsComplete | generate_repo_summary.py:61 | every directory entry of the listing is in `dirs` |
| Summary.Files | generate_repo_summary.py:61 | every entry of a walk step's `files` is a file entry of the listing |
| Summary.FilesComplete | generate_repo_summary.py:61 | every file entry of the listing is in `files` |
| Summary.Kept | generate_repo_summary.py:63 | every subdirectory kept by the filter is one of `dirs` |
| Summary.KeptSound | generate_repo_summary.py:63 | a kept subdirectory's own absolute path is not excluded |
| Summary.KeptComplete | generate_repo_summary.py:63 | every subdirectory whose own absolute path is not excluded is kept |
| Summary.PruneDirs | generate_repo_summary.py:63 | the in-place filter leaves exactly `Kept`, in the listing's order |
| Summary.FileVisits | generate_repo_summary.py:65-68 | the files of one directory that pass their own check, in listing order |
| Summary.WalkVisits | generate_repo_summary.py:61-69 | every file the walk dumps below a directory, in order: its own files, then each kept subdirectory in turn; nothing for an unlistable directory |
| Summary.SubWalkVisits | generate_repo_summary.py:61-63 | the files dumped below a run of kept subdirectories, one walk after another |
| Summary.DumpChunks | generate_repo_summary.py:65-69 | the writes of the dumps of a run of files, in order |
| Summary.DumpChunksAppend | generate_repo_summary.py:65-69 | the dumps of two runs of files are the dumps of the first followed by those of the second |
| Summary.DumpChunksCount | generate_repo_summary.py:69 | every dumped file accounts for exactly five writes |
| Summary.DumpFiles | generate_repo_summary.py:65-69 | the inner loop dumps exactly the directory's files whose own path is not excluded, in order |
| Summary.SubWalkStep | generate_repo_summary.py:61-63 | descending into one more kept subdirectory adds exactly what the walk below it dumps |
| Summary.Walk | generate_repo_summary.py:61-69 | the walk writes the dumps of `WalkVisits`: the directory's own files, then each kept subdirectory in turn |
| Summary.Report | generate_repo_summary.py:56-69 | everything `main` writes: the structure header, the drawing, the contents header and the dumps |
| Summary.Summarize | generate_repo_summary.py:48-69 | `main` writes the structure header, the unfiltered drawing, the contents header and the filtered dumps, into a freshly opened report |
| Summary.Reachable | generate_repo_summary.py:61 | reference definition, independent of the filter: every file reachable through directories that can be listed |
| Summary.ReachableUnder | generate_repo_summary.py:61-66 | every file reachable from a directory lies under that directory's absolute path |
| Summary.ReachableInUnder | generate_repo_summary.py:61-66 | the same for the entries of a listing |
| Summary.ReachableInSound | generate_repo_summary.py:61 | a file reachable through a listing is reachable through one of its entries |
| Summary.ReachableInComplete | generate_repo_summary.py:61 | a file reachable through an entry is reachable through the listing |
| Summary.FileVisitsSound | generate_repo_summary.py:65-69 | a file the inner loop dumps is one of the directory's files and its own path is not excluded |
| Summary.FileVisitsComplete | generate_repo_summary.py:65-69 | every file of the directory whose own path is not excluded is dumped |
| Summary.SubWalkSound | generate_repo_summary.py:61-63 | a file dumped below a directory is dumped by the walk of one of its kept subdirectories |
| Summary.SubWalkComplete | generate_repo_summary.py:61-63 | whatever the walk of a kept subdirectory dumps is dumped |
| Summary.WalkedIsReachable | generate_repo_summary.py:61-69 | a dumped file is reachable through listable directories and its own path is not excluded |
| Summary.ReachableIsWalked | generate_repo_summary.py:61-69 | a reachable file whose own path is not excluded is dumped: pruning never skips a directory above such a file, since that directory's path would already exclude it |
| Summary.WalkVisitsExact | generate_repo_summary.py:61-69 | a file is dumped exactly when it is reachable through listable directories and its own path is not excluded: pruning never loses a file that would pass its own check |
| Summary.NothingDumpedUnderExcludedPath | generate_repo_summary.py:63-69 | no leading part of a dumped file's absolute path, such as the path of a containing directory, is excluded |
| Summary.ExcludedSubdirectoryPruned | generate_repo_summary.py:63 | nothing below an excluded subdirectory is dumped |
| Summary.OutputFileNeverDumped | generate_repo_summary.py:50-51 | no dumped file's absolute path contains the output filename |
| Summary.RelativeOutputNameDumped | generate_repo_summary.py:50-51 | with the output filename given as `./out.txt` for the repository `.` at `/u`, the report file `/u/out.txt` is dumped: the report is excluded only when the output name as given occurs in its absolute path |
| Summary.ReportPathNotExcluded | generate_repo_summary.py:50-54 | `/u/out.txt` contains none of the ten patterns built for `./out.txt` |
| Summary.SelfExcluded | generate_repo_summary.py:50-51 | a root file named like the report is not dumped |
| Summary.ExcludedRootDumpsNothing | generate_repo_summary.py:41-44 | when the repository's own absolute path holds a pattern, the content section is empty |
| Summary.TreeLineInReport | generate_repo_summary.py:56-59 | every line of the drawing is in the report |
| Summary.TreeListsEveryRootEntry | generate_repo_summary.py:58 | every root entry, excluded ones included, has its line in the report |

## Left out

- Command-line parsing and the `__main__` block (generate_repo_summary.py:73-79) are not modelled. `Summary.Summarize` takes the repository path and output filename as parameters.
- The closing console message (generate_repo_summary.py:71) is not modelled, since it is output to the terminal rather than to the report.
- Real file I/O is not modelled. The filesystem is a value, and a file's content, or the error reading it raises, is part of that value.
- `os.path.abspath` is not modelled as path normalisation. The absolute path of the repository is a parameter (`absRoot`), and the absolute path of an entry is `Join` of its directory's absolute path and its name. That is what `abspath` gives for entry names that contain no separator and are neither `.` nor `..`, below an already normalised root; `os.listdir` never returns those two, and `FileTree.ValidName` excludes them.
- UTF-8 decoding and universal-newline translation are not modelled. `ReadOutcome.Text` holds the already decoded text, and any decoding failure is `DecodeOrPermissionError`.
- The text of an exception (`{e}`) is an opaque string, the `description` of `OtherError`.
- Symbolic links are not modelled. `os.path.isdir` follows them and `os.walk` does not descend into linked directories by default, so the tree pass and the content pass can differ on them.
- Listing failures other than `PermissionError` are not modelled. A directory that cannot be listed is `Unreadable`. The tree pass shows it as `[Permission Denied]`, and the walk yields nothing for it, as `os.walk` does when it ignores listing errors.
- A repository path that is a regular file makes `os.listdir` raise `NotADirectoryError`, and one that does not exist makes it raise `FileNotFoundError` (generate_repo_summary.py:7). The script catches neither. The model has no node for a missing path, and `Summary.Summarize` requires the root to be a directory.
- The order in which `os.walk` lists entries is the host's. `Summary.WalkVisits` follows the listing order, and no property of that order is stated beyond "the directory's files first, then its kept subdirectories in turn".
- The report as an entry of the repository is not modelled. `main` creates the report (generate_repo_summary.py:56) before both passes, so when it lies in the repository it is an entry of the drawing and of the walk, and reading it gives a prefix of this run's report. The model takes the tree as given and leaves that entry and its read outcome to the caller.
- Summary.OutputFileNeverDumped: promises that no dumped path contains the output-filename string, not that the report is never dumped. The filter compares strings, so the report is dumped into itself when the output name, as given, does not occur in the report's absolute path (`./x`, `../x`, an absolute path through a link), as `Summary.RelativeOutputNameDumped` shows. A bare name such as `out.txt` does occur there, and `Summary.SelfExcluded` shows that report excluded. The model follows the script.
- Entry names that are not valid text are not modelled. On POSIX, `os.listdir` keeps undecodable bytes of a name as surrogate escapes. Writing such a name to the report, which is opened as strict UTF-8, raises `UnicodeEncodeError` at the tree line (generate_repo_summary.py:16) or the path label (generate_repo_summary.py:25). Nothing catches it, and the run stops with a partial report. A Dafny `string` cannot hold such a name, so `Output.Sink.Write` always succeeds.
- Only the POSIX path separator is modelled. `Strings.Join` and the absolute paths use `/`, while the script itself also runs with the separators of other platforms.
- ContentDump.DumpRoundTrip: requires a path without a line break. POSIX file names may contain one, and the `# File: ` label written at generate_repo_summary.py:25 is then ambiguous: a reader cannot tell where the path ends. This is a property of the script's output format.
