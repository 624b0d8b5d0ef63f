/** The `FileEntry` record the listing commands return, the error kinds, and
    the two sort orders the commands apply to entries. */
module Entries {

  import opened Strings
  import opened Sorting
  import opened Fs

  /** One node as seen by the file browser. `children` is present for a
      directory built by the tree and absent otherwise. */
  datatype FileEntry = FileEntry(name: string, path: string, isDirectory: bool, children: Children)

  /** The optional child list of an entry (`Option<Vec<FileEntry>>`), as its
      own datatype so that recursion over a tree of entries terminates. */
  datatype Children = Absent | Present(entries: seq<FileEntry>)

  /** Why a command failed, with the path it failed on. */
  datatype Error =
    | NotFound(path: Path)
    | NotADirectory(path: Path)
    | ReadDirFailed(path: Path)

  /** Sort key of the directory comparator: directories ('0') before files
      ('1'), then the lowercased name. Comparing keys lexicographically is
      exactly that comparator. */
  function EntryKey(e: FileEntry): string {
    [if e.isDirectory then '0' else '1'] + Lower(e.name)
  }

  /** Sort key of the flat listing: the lowercased path. */
  function PathKey(e: FileEntry): string {
    Lower(e.path)
  }

  /** Directories precede files, and entries of one kind have non-decreasing
      lowercased names. */
  ghost predicate DirsFirstByName(s: seq<FileEntry>) {
    forall i, j :: 0 <= i < j < |s| ==>
      (s[i].isDirectory || !s[j].isDirectory)
      && (s[i].isDirectory == s[j].isDirectory ==> LexLe(Lower(s[i].name), Lower(s[j].name)))
  }

  /** Sorting by EntryKey is sorting with the directory comparator. */
  lemma EntryKeyOrder(s: seq<FileEntry>)
    ensures SortedBy(s, EntryKey) <==> DirsFirstByName(s)
  {
    forall i, j | 0 <= i < j < |s|
      ensures LexLe(EntryKey(s[i]), EntryKey(s[j])) <==>
                (s[i].isDirectory || !s[j].isDirectory)
                && (s[i].isDirectory == s[j].isDirectory ==> LexLe(Lower(s[i].name), Lower(s[j].name)))
    {
      LexLeCons(if s[i].isDirectory then '0' else '1', if s[j].isDirectory then '0' else '1',
                Lower(s[i].name), Lower(s[j].name));
    }
  }

  /** `sort_by` with the directory comparator. */
  function SortEntries(s: seq<FileEntry>): (r: seq<FileEntry>)
    ensures DirsFirstByName(r)
    ensures multiset(r) == multiset(s)
  {
    var r := SortBy(s, EntryKey);
    EntryKeyOrder(r);
    r
  }
}
