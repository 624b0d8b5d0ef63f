# GraphNotes vault indexer and search, modelled in Dafny

GraphNotes keeps a vault of markdown notes in a directory. Its Rust back end
answers four questions about that directory: the entries of one folder
(`list_directory`), every note in the vault as a flat list
(`list_markdown_files`), the vault as a tree for the file browser
(`get_file_tree` with its inner `build_tree`), and a text search over all
notes (`grep_search`). This project models those four commands as pure
functions over an abstract filesystem and proves what they promise.

The filesystem is an inductive value: `Dir(name, readable, children)` or
`File(name, content)`. A directory with `readable = false` is one whose
`read_dir` fails. A file with `content = None` is one that cannot be read as
text. The order of `children` is the order in which `read_dir` yields them.
A path is a sequence of names. It is rendered as text by joining the names
with one separator constant, which stands for the host's separator.

The parts of the model:

- `Names`: the admission rule. A name starting with `'.'` is hidden. The
  listings and the tree keep `.graphnotes` anyway; the search keeps no hidden
  name. It also holds `Path::extension` and the `md`/`markdown` test.
- `Strings` and `Sorting`: string order, ASCII lowercasing, and Rust's stable
  `sort_by` as a stable insertion sort keyed by a string.
- `Entries`: the `FileEntry` record, the error kinds and the two sort orders.
  The directory comparator (directories first, then lowercased name) is the
  key `'0'`/`'1'` followed by the lowercased name.
- `Fs`: lookup of a path, and the pre-order walk that `walkdir` performs with
  `filter_entry`.
- `Listing`, `Tree` and `Search`: the four commands. `LineSplit` is
  `str::lines`. `Matching` is the pattern compiler with its literal fallback.
- `Scenarios`: worked examples on small vaults.

The regex engine is abstract. A compiled regex is a `Finder`: a function from
a line to an optional match span, constrained only by `start <= end <= |line|`.
The escaped-literal fallback is a concrete leftmost-substring matcher.

Where the code and the documented behaviour disagree, the model follows the
code:

- `get_file_tree` on a path that is a file is not rejected up front. It fails
  when `read_dir` fails, so the model reports `ReadDirFailed`, not
  `NotADirectory`.
- A match may be empty. An empty pattern matches every line at offset 0, so
  `match_start == match_end` is possible.
- `list_directory` returns the full path of each entry, not a path relative to
  the vault.
- `list_markdown_files` and `grep_search` accept a file as their root. The
  walk then yields that file alone, with an empty relative path.
- `filter_entry` also applies to the walk root. A root whose own name is
  hidden yields no notes and no matches.
- Paths use the host separator. No particular separator is promised.
- The error messages of the code do not always name a path. The model's
  errors always carry the path they concern.

## Model

| member | source | states |
|---|---|---|
| `Names.SearchAdmitsLess` | src-tauri/src/commands/search.rs:39-43 | The search keeps only non-hidden names. Every name it keeps is kept by the listings too. The two rules differ on `.graphnotes` alone. |
| `Names.Extension` | src-tauri/src/commands/files.rs:188-189 | `Path::extension`: present iff the name is not ".." and has a dot after position 0. It is then the dot-free text after the last dot. |
| `Names.IsMarkdownBySuffix` | src-tauri/src/commands/files.rs:241-250 | A name passes the markdown filter iff it ends in ".md" or ".markdown" with at least one character before that suffix. Names like ".md" and "notes" fail. |
| `Sorting.SortBy` | src-tauri/src/commands/files.rs:152-158 | The sort returns a permutation of its input in non-decreasing key order. |
| `Sorting.SortStable` | src-tauri/src/commands/files.rs:152-158 | The sort is stable: elements with equal keys keep their input order. |
| `Entries.EntryKeyOrder` | src-tauri/src/commands/files.rs:273-279 | Ordering by the encoded key is exactly the comparator: directories before files, then lowercased names non-decreasing. |
| `Entries.SortEntries` | src-tauri/src/commands/files.rs:152-158 | The sorted entries are a permutation of the input. Directories come first, and within one kind lowercased names do not decrease. |
| `Fs.Lookup` | src-tauri/src/commands/files.rs:116-120 | `PathBuf::from(path).exists()`: the empty path names the root itself, and a node that is found carries the last name of the path. |
| `Fs.LookupChild` | src-tauri/src/commands/files.rs:116-120 | A path one name longer than an existing directory's path exists exactly when that directory has a child of that name, and then names that child. Below a file or a missing path, nothing exists. |
| `Fs.LookupParent` | src-tauri/src/commands/files.rs:116-120 | A path exists only if its parent path exists and is a directory. |
| `Fs.WalkStaysAdmitted` | src-tauri/src/commands/files.rs:174-181 | A walk whose root is rejected yields nothing. Every item of a walk lies below its root, and every name added on the way is admitted. |
| `Fs.WalkReaches` | src-tauri/src/commands/search.rs:36-43 | The converse of `WalkStaysAdmitted`: the walk visits, at its relative path, every node reached from the root through readable directories by admitted names. |
| `Fs.WalkErrorIff` | src-tauri/src/commands/files.rs:183 | The walk yields an error iff an admitted, unreadable directory can be reached through admitted directories. |
| `Listing.ListDirectory` | src-tauri/src/commands/files.rs:115-161 | Errors: NotFound iff the path does not exist; NotADirectory iff it is a file; ReadDirFailed iff the directory cannot be read. On success the entries are ordered directories first, then by lowercased name. |
| `Listing.ListDirectoryContents` | src-tauri/src/commands/files.rs:130-149 | No extension filter: there are exactly as many entries as admitted children, every admitted child has an entry, and every entry is the entry of an admitted child. |
| `Listing.ListDirectoryPaths` | src-tauri/src/commands/files.rs:143-148 | Each listed entry has no children, and its path is the full path: the directory's path joined with the entry's name. |
| `Listing.CollectNotes` | src-tauri/src/commands/files.rs:174-210 | The walk loop fails iff the walk has an error, and then with the path of one of its errors. On success every note the walk reached has an entry, and every entry is the entry of such a note. Each is a non-directory markdown entry without children. |
| `Listing.CollectNotesCount` | src-tauri/src/commands/files.rs:186-207 | A successful walk loop yields exactly as many entries as the walk has notes. |
| `Listing.ListMarkdownFiles` | src-tauri/src/commands/files.rs:165-216 | NotFound iff the path does not exist. On success there are as many entries as the walk has notes, every entry is a markdown file without children, and lowercased paths do not decrease. |
| `Listing.ListMarkdownAllOrNothing` | src-tauri/src/commands/files.rs:183 | For an existing path, the listing fails iff an admitted unreadable directory is reachable. A failure returns no entries. |
| `Listing.ListMarkdownAdmitted` | src-tauri/src/commands/files.rs:177-181 | Every listed entry is the entry of a note the walk reached, with that note's relative path, and every name on that path is admitted. Nothing under a pruned hidden directory appears. |
| `Listing.ListMarkdownComplete` | src-tauri/src/commands/files.rs:186-207 | Every markdown file the walk reaches is listed, with its relative path and no children. |
| `Listing.WalkEnteredName` | src-tauri/src/commands/files.rs:190-193 | The name of an entry the walk reaches is admitted. It is the last name of its relative path, or the root's own name at depth 0. |
| `Tree.BuildTree` | src-tauri/src/commands/files.rs:221-282 | All or nothing: `build_tree` fails iff the node or an included subdirectory cannot be read, and a failure carries no tree. A success is well-formed at every level: sorted, admitted names, paths relative to the vault, directories with subtrees, markdown files without children. A success also mirrors the children: it is a reordering of one entry per included child, with that child's name, kind and path, and a directory's entry mirrors its own children. |
| `Tree.ChildEntry` | src-tauri/src/commands/files.rs:239-269 | An included child becomes an entry that mirrors it: same name, kind and path. A file has no children. A directory holds the mirror of its own children, even an empty one, and fails only if that subtree fails. |
| `Tree.BuildLevel` | src-tauri/src/commands/files.rs:226-270 | One level fails iff an included subdirectory fails. On success the level holds, in `read_dir` order, one mirroring entry per included child and nothing else, and all entries are well-formed. |
| `Tree.GetFileTree` | src-tauri/src/commands/files.rs:220-291 | NotFound iff the path does not exist. Otherwise the call fails iff the tree cannot be built, and a success is well-formed with paths relative to the given path and mirrors the children of the node there. |
| `Tree.MirrorsMeaning` | src-tauri/src/commands/files.rs:226-270 | A mirroring level has exactly as many entries as included children. Every included child has a mirroring entry, and every entry mirrors an included child. |
| `LineSplit.Lines` | src-tauri/src/commands/search.rs:79 | `str::lines`: no line contains '\n', and there are no lines exactly when the text is empty. |
| `LineSplit.LinesOfTerminated` | src-tauri/src/commands/search.rs:79 | Round trip: lines without '\n' and without a final '\r', each ended by "\n", split back into the same lines. |
| `LineSplit.LinesOfCrlfTerminated` | src-tauri/src/commands/search.rs:79 | Round trip: any lines without '\n', each ended by "\r\n", split back into the same lines. |
| `LineSplit.FinalNewlineIgnored` | src-tauri/src/commands/search.rs:79 | A final newline adds no empty last line. |
| `Matching.FindLiteral` | src-tauri/src/commands/search.rs:29-32 | The escaped-literal matcher finds the leftmost occurrence of the pattern text. It finds none iff the text does not occur. |
| `Matching.Compile` | src-tauri/src/commands/search.rs:29-32 | The regex library's compiled form is used whenever the library accepts the pattern. Otherwise the literal fallback is used, carrying the pattern text. |
| `Matching.Find` | src-tauri/src/commands/search.rs:84 | A match always lies within its line: start <= end <= length. |
| `Matching.LiteralFallback` | src-tauri/src/commands/search.rs:29-32 | A rejected pattern matches a line iff the line contains it as text. The match covers exactly the text, at its leftmost occurrence. |
| `Matching.UnbalancedGroupIsLiteral` | src-tauri/src/commands/search.rs:29-32 | With "a(b" rejected by the regex library, searching "x a(b y" finds the text at offsets 2..5 and does not fail. |
| `Search.LineHitsSound` | src-tauri/src/commands/search.rs:84-91 | Every hit of a file has that file's path, a 1-based line number, that line's text, and the first match on that line within bounds. |
| `Search.LineHitsIncreasing` | src-tauri/src/commands/search.rs:79-91 | Within one file, line numbers strictly increase, so each line yields at most one hit. |
| `Search.LineHitsComplete` | src-tauri/src/commands/search.rs:79-91 | Every line on which the pattern matches yields a hit. |
| `Search.ScanLines` | src-tauri/src/commands/search.rs:79-93 | The line loop with its cap check holds the first `max` of the earlier hits followed by this file's hits. |
| `Search.ScanItem` | src-tauri/src/commands/search.rs:49-93 | One walk item: a note adds its hits to those held, up to the cap; a walk error, a directory, another file or an unreadable note adds nothing. |
| `Search.ScanWalk` | src-tauri/src/commands/search.rs:36-94 | The walk loop, with its cap check before each item, holds exactly the first `max` hits of the whole walk, in walk order. |
| `Search.GrepSearch` | src-tauri/src/commands/search.rs:20-97 | Fails, with NotFound, iff the root does not exist. Otherwise it returns the first `max` hits of the uncapped walk-ordered scan (default 100), so at most `max` results. |
| `Search.SearchCap` | src-tauri/src/commands/search.rs:45-47 | Cap 0 gives no results. A missing cap means at most 100. A smaller cap gives a prefix of a larger cap's results. A result below its cap is already complete: a larger cap adds nothing. |
| `Search.HitProvenance` | src-tauri/src/commands/search.rs:57-91 | Every hit comes from a scanned note of the walk and agrees with that note's lines and the first match on its line. |
| `Search.SearchHitsAdmitted` | src-tauri/src/commands/search.rs:36-70 | Search results come only from readable markdown files whose relative path has no hidden name, and only when the root's own name is not hidden. Every result has start <= end <= line length. |
| `Search.SkippedItemsInvisible` | src-tauri/src/commands/search.rs:49-70 | A walk error, an unreadable file, a directory or a non-note can be dropped from the walk without changing the results. Such items are skipped, never reported. |
| `Scenarios.HelloSearch` | src-tauri/src/commands/search.rs:79-91 | In a vault with `a.md` ("hello world") and `sub/b.md` ("say hello"), searching "hello" with cap 10 returns exactly two matches: (a.md, 1, 0..5) and (sub/b.md, 1, 4..9). This holds for any regex library that rejects "hello" or compiles it to a matcher that agrees with the literal one on those two lines. |
| `Scenarios.GitNotesHidden` | src-tauri/src/commands/files.rs:177-181 | `.git/notes.md` is absent from the flat listing and from the results of every search, whatever the pattern, cap and regex library. |
| `Scenarios.LockedTreeFails` | src-tauri/src/commands/files.rs:224 | One unreadable subdirectory makes `get_file_tree` fail, while `list_directory` of the same folder succeeds. |

## Left out

- `read_file`, `write_file`, `delete_file`, `rename_file`, `create_directory` and `path_exists` (files.rs:26-111) are left out. They are one-call I/O wrappers.
- `init_vault`, `is_vault` and `chrono_now` (files.rs:295-357) are left out. They do directory creation, config serialisation, UUID generation and clock reads.
- src-tauri/src/lib.rs is left out. It is Tauri builder and command-dispatch glue.
- Symbolic links and `follow_links(true)` are not modelled. An inductive filesystem has no links and no cycles.
- Per-entry errors inside a `read_dir` iteration are not modelled separately. A directory is either readable or not.
- A failing `is_dir()` / `is_file()` is not modelled. Both are total on the model's nodes.
- `Lookup` ignores directory permissions. Existence in the model does not depend on `readable`.
- The walk root's name is the node's own name. `walkdir` takes it from the path text instead, so a root given as "." is not modelled.
- `to_string_lossy`, OS separators and the `strip_prefix` fallback are not modelled. Every entry lies under the root, so the fallback is never taken.
- `Strings.Lower`: lowercases ASCII letters only. Rust's `to_lowercase` also folds non-ASCII letters.
- Strings are sequences of characters, each standing for one byte of the UTF-8 text. Match offsets are counted in those units. Content that is not valid UTF-8 is a file whose `content` is None.
- `Matching.Find`: for a compiled regex, the only fact used is that the match lies within the line. Regex semantics belong to the regex library.
- The `InvalidPattern` error is not modelled. The escaped literal is taken to compile, which holds within the regex library's size limit. The code returns `InvalidPattern` for an escaped pattern beyond that limit, and the model does not.
- Integer widths are not modelled. `usize` counts and line numbers cannot overflow for real inputs.
- Listing.ListDirectoryContents: gives the entry count and membership in both directions. That fixes how often each entry occurs only when no two admitted children share a name and kind, which holds on a real filesystem because sibling names are unique.
- Listing.CollectNotesCount: with `CollectNotes`, gives the entry count and membership in both directions. That fixes how often each entry occurs only when no two notes of the walk share a relative path, which holds on a real filesystem because sibling names are unique.
- Unique paths within a tree are not proved. The model does not assume that sibling names are distinct.
- Idempotence of repeated searches holds trivially, because every command is a pure function of the filesystem value. Concurrent changes to the filesystem during a walk are not modelled.
