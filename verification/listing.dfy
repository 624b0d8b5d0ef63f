/** `list_directory` (one level, every admitted entry) and
    `list_markdown_files` (flattened walk of the notes, sorted by path). */
module Listing {

  import opened Wrappers
  import opened Names
  import opened Sorting
  import opened Fs
  import opened Entries

  /** The entry `list_directory` builds for child `c` of the directory at
      `base`: the full path of the child and no children. */
  function ShallowEntry(c: Node, base: Path): FileEntry {
    FileEntry(c.name, Render(base + [c.name]), c.Dir?, Absent)
  }

  /** How many of `cs` `list_directory` admits. */
  function AdmittedCount(cs: seq<Node>): nat {
    if |cs| == 0 then 0
    else (if Admits(Listing, cs[0].name) then 1 else 0) + AdmittedCount(cs[1..])
  }

  /** The admitted children of a directory as entries, in `read_dir` order. */
  function ShallowEntries(cs: seq<Node>, base: Path): (r: seq<FileEntry>)
    ensures |r| == AdmittedCount(cs)
    ensures forall e :: e in r ==> e.children.Absent? && e.path == Render(base + [e.name])
    ensures forall e :: e in r ==> exists c :: c in cs && Admits(Listing, c.name) && e == ShallowEntry(c, base)
    ensures forall c :: c in cs && Admits(Listing, c.name) ==> ShallowEntry(c, base) in r
  {
    if |cs| == 0 then []
    else
      var rest := ShallowEntries(cs[1..], base);
      assert forall c :: c in cs ==> c == cs[0] || c in cs[1..];
      if Admits(Listing, cs[0].name) then [ShallowEntry(cs[0], base)] + rest else rest
  }

  /** `list_directory(path)`: fails when the path does not exist, then when it
      is not a directory, then when it cannot be read; otherwise lists its
      admitted children, directories first and by lowercased name. */
  function ListDirectory(root: Node, path: Path): (r: Result<seq<FileEntry>, Error>)
    ensures Lookup(root, path).None? <==> r == Failure(NotFound(path))
    ensures r == Failure(NotADirectory(path)) <==> Lookup(root, path).Some? && Lookup(root, path).value.File?
    ensures r == Failure(ReadDirFailed(path)) <==>
              Lookup(root, path).Some? && Lookup(root, path).value.Dir? && !Lookup(root, path).value.readable
    ensures r.Success? ==> DirsFirstByName(r.value)
  {
    match Lookup(root, path)
    case None => Failure(NotFound(path))
    case Some(File(_, _)) => Failure(NotADirectory(path))
    case Some(Dir(_, readable, cs)) =>
      if !readable then Failure(ReadDirFailed(path))
      else Success(SortEntries(ShallowEntries(cs, path)))
  }

  /** `list_directory` applies no extension filter: there is one entry per
      admitted child and no other. */
  lemma ListDirectoryContents(root: Node, path: Path)
    requires ListDirectory(root, path).Success?
    ensures Lookup(root, path).Some? && Lookup(root, path).value.Dir?
    ensures var dir := Lookup(root, path).value;
            var es := ListDirectory(root, path).value;
            && |es| == AdmittedCount(dir.children)
            && (forall c :: c in dir.children && Admits(Listing, c.name) ==> ShallowEntry(c, path) in es)
            && (forall e :: e in es ==> exists c :: c in dir.children && Admits(Listing, c.name) && e == ShallowEntry(c, path))
  {
    var dir := Lookup(root, path).value;
    var flat := ShallowEntries(dir.children, path);
    var es := ListDirectory(root, path).value;
    SameMembers(es, flat);
    SameLength(es, flat);
  }

  /** Each listed entry has no children and the full path of the child (not
      a path relative to a vault root): the directory's path joined with the
      entry's name. */
  lemma ListDirectoryPaths(root: Node, path: Path)
    ensures ListDirectory(root, path).Success? ==>
              forall e :: e in ListDirectory(root, path).value ==>
                && e.children.Absent?
                && e.path == Render(path + [e.name])
                && e.path == (if path == [] then e.name else Render(path) + [Separator] + e.name)
  {
    if ListDirectory(root, path).Success? {
      var flat := ShallowEntries(Lookup(root, path).value.children, path);
      forall e | e in ListDirectory(root, path).value
        ensures e.children.Absent? && e.path == Render(path + [e.name])
        ensures e.path == (if path == [] then e.name else Render(path) + [Separator] + e.name)
      {
        SameMembers(ListDirectory(root, path).value, flat);
        RenderChild(path, e.name);
      }
    }
  }

  /** The entry `list_markdown_files` builds for a note reached at `rel`. */
  function NoteEntry(n: Node, rel: Path): FileEntry {
    FileEntry(n.name, Render(rel), false, Absent)
  }

  /** The walk item is a note: a file with a markdown extension. */
  predicate IsNoteVisit(v: Visit) {
    v.Entered? && v.node.File? && IsMarkdown(v.node.name)
  }

  /** How many of the walk items `vs` are notes. */
  function NoteCount(vs: seq<Visit>): nat {
    if |vs| == 0 then 0
    else (if IsNoteVisit(vs[0]) then 1 else 0) + NoteCount(vs[1..])
  }

  /** The loop of `list_markdown_files` over the walk: the first walk error
      aborts the whole listing; otherwise every note becomes an entry. */
  function CollectNotes(vs: seq<Visit>, base: Path): (r: Result<seq<FileEntry>, Error>)
    ensures r.Failure? <==> HasError(vs)
    ensures r.Failure? ==> exists i :: 0 <= i < |vs| && vs[i].WalkError? && r.error == ReadDirFailed(base + vs[i].rel)
    ensures r.Failure? ==> r.error.ReadDirFailed?
    ensures r.Success? ==> forall e :: e in r.value ==> !e.isDirectory && e.children.Absent? && IsMarkdown(e.name)
    ensures r.Success? ==> forall e :: e in r.value ==>
              exists v :: v in vs && IsNoteVisit(v) && e == NoteEntry(v.node, v.rel)
    ensures r.Success? ==> forall v :: v in vs && IsNoteVisit(v) ==> NoteEntry(v.node, v.rel) in r.value
  {
    if |vs| == 0 then Success([])
    else
      HasErrorAppend([vs[0]], vs[1..]);
      assert vs == [vs[0]] + vs[1..];
      assert forall v :: v in vs ==> v == vs[0] || v in vs[1..];
      match vs[0]
      case WalkError(rel) => Failure(ReadDirFailed(base + rel))
      case Entered(node, rel) =>
        var rest := CollectNotes(vs[1..], base);
        if rest.Failure? then
          assert exists i :: 0 <= i < |vs| && vs[i].WalkError? && rest.error == ReadDirFailed(base + vs[i].rel) by {
            var i :| 0 <= i < |vs[1..]| && vs[1..][i].WalkError? && rest.error == ReadDirFailed(base + vs[1..][i].rel);
            assert vs[i + 1] == vs[1..][i];
          }
          Failure(rest.error)
        else if node.File? && IsMarkdown(node.name) then Success([NoteEntry(node, rel)] + rest.value)
        else rest
  }

  /** A successful loop yields one entry per note of the walk. */
  lemma {:induction false} CollectNotesCount(vs: seq<Visit>, base: Path)
    ensures CollectNotes(vs, base).Success? ==> |CollectNotes(vs, base).value| == NoteCount(vs)
  {
    if |vs| > 0 && vs[0].Entered? {
      CollectNotesCount(vs[1..], base);
    }
  }

  /** `list_markdown_files(path)`: fails when the path does not exist or when
      the walk meets an unreadable directory; otherwise the notes of the
      walk, sorted by lowercased path. */
  function ListMarkdownFiles(root: Node, path: Path): (r: Result<seq<FileEntry>, Error>)
    ensures Lookup(root, path).None? <==> r == Failure(NotFound(path))
    ensures r.Success? ==> SortedBy(r.value, PathKey)
    ensures r.Success? ==> forall e :: e in r.value ==> !e.isDirectory && e.children.Absent? && IsMarkdown(e.name)
    ensures r.Success? ==> |r.value| == NoteCount(Walk(Lookup(root, path).value, [], Listing))
  {
    match Lookup(root, path)
    case None => Failure(NotFound(path))
    case Some(n) =>
      var notes := CollectNotes(Walk(n, [], Listing), path);
      if notes.Failure? then Failure(notes.error)
      else
        var r := SortBy(notes.value, PathKey);
        SameMembers(r, notes.value);
        CollectNotesCount(Walk(n, [], Listing), path);
        SameLength(r, notes.value);
        Success(r)
  }

  /** All or nothing: once the path exists, the listing fails exactly when an
      admitted directory that cannot be read is reachable through admitted
      directories, and then no entries are returned at all. */
  lemma ListMarkdownAllOrNothing(root: Node, path: Path)
    requires Lookup(root, path).Some?
    ensures ListMarkdownFiles(root, path).Failure? <==> HasUnreadableDir(Lookup(root, path).value, Listing)
    ensures ListMarkdownFiles(root, path).Failure? ==> ListMarkdownFiles(root, path).error.ReadDirFailed?
  {
    var n := Lookup(root, path).value;
    WalkErrorIff(n, [], Listing);
  }

  /** Every listed note is a note the walk reached, and every name on its
      relative path is admitted: nothing under a pruned hidden directory
      appears. */
  lemma ListMarkdownAdmitted(root: Node, path: Path)
    ensures ListMarkdownFiles(root, path).Success? ==>
              forall e :: e in ListMarkdownFiles(root, path).value ==>
                exists v :: && v in Walk(Lookup(root, path).value, [], Listing)
                            && IsNoteVisit(v)
                            && e == NoteEntry(v.node, v.rel)
                            && AdmittedPath(v.rel, Listing)
  {
    if ListMarkdownFiles(root, path).Success? {
      var n := Lookup(root, path).value;
      var walk := Walk(n, [], Listing);
      SameMembers(ListMarkdownFiles(root, path).value, CollectNotes(walk, path).value);
      forall e | e in ListMarkdownFiles(root, path).value
        ensures exists v :: v in walk && IsNoteVisit(v) && e == NoteEntry(v.node, v.rel) && AdmittedPath(v.rel, Listing)
      {
        var v :| v in walk && IsNoteVisit(v) && e == NoteEntry(v.node, v.rel);
        NoteVisitAdmitted(n, v);
      }
    }
  }

  /** A walk item's relative path consists of admitted names, the last of
      which is the item's own name. */
  lemma NoteVisitAdmitted(n: Node, v: Visit)
    requires v in Walk(n, [], Listing) && v.Entered?
    ensures AdmittedPath(v.rel, Listing)
    ensures Admits(Listing, v.node.name)
    ensures v.rel != [] ==> v.node.name == v.rel[|v.rel| - 1]
  {
    WalkItemAdmitted(n, Listing, v);
    WalkEnteredName(n, [], Listing, v);
  }

  /** Every note the walk reaches is listed. */
  lemma ListMarkdownComplete(root: Node, path: Path)
    ensures ListMarkdownFiles(root, path).Success? ==>
              forall v :: v in Walk(Lookup(root, path).value, [], Listing) && IsNoteVisit(v) ==>
                NoteEntry(v.node, v.rel) in ListMarkdownFiles(root, path).value
  {
    if ListMarkdownFiles(root, path).Success? {
      var n := Lookup(root, path).value;
      var notes := CollectNotes(Walk(n, [], Listing), path).value;
      SameMembers(ListMarkdownFiles(root, path).value, notes);
    }
  }

  /** An entered node's name is the last name of its relative path, or the
      walk root's own name when the path is empty; either way it is admitted. */
  lemma {:induction false} WalkEnteredName(n: Node, rel: Path, mode: Admission, v: Visit)
    requires v in Walk(n, rel, mode) && v.Entered?
    ensures Admits(mode, v.node.name)
    ensures |v.rel| > |rel| ==> v.node.name == v.rel[|v.rel| - 1]
    ensures |v.rel| <= |rel| ==> v.node == n
    decreases n, 1
  {
    if v != Entered(n, rel) {
      assert v in WalkChildren(n.children, rel, mode);
      WalkChildrenEnteredName(n.children, rel, mode, v);
    }
  }

  lemma {:induction false} WalkChildrenEnteredName(cs: seq<Node>, rel: Path, mode: Admission, v: Visit)
    requires v in WalkChildren(cs, rel, mode) && v.Entered?
    ensures Admits(mode, v.node.name)
    ensures |v.rel| > |rel| && v.node.name == v.rel[|v.rel| - 1]
    decreases cs, 0
  {
    var c := cs[0];
    var head := Walk(c, rel + [c.name], mode);
    var tail := WalkChildren(cs[1..], rel, mode);
    assert WalkChildren(cs, rel, mode) == head + tail;
    if v in head {
      WalkEnteredName(c, rel + [c.name], mode, v);
      WalkStaysAdmitted(c, rel + [c.name], mode);
      var i :| 0 <= i < |head| && head[i] == v;
      assert AdmittedBelow(v.rel, rel + [c.name], mode);
      if |v.rel| <= |rel| + 1 {
        assert v.rel == rel + [c.name];
      }
    } else {
      WalkChildrenEnteredName(cs[1..], rel, mode, v);
    }
  }
}
