/** `get_file_tree` and its inner `build_tree`: the recursive, per-level
    sorted index of a vault, which fails as a whole on any unreadable
    directory. */
module Tree {

  import opened Wrappers
  import opened Names
  import opened Sorting
  import opened Fs
  import opened Entries

  /** A child that `build_tree` keeps: an admitted directory, or an admitted
      file with a markdown extension. */
  predicate Included(c: Node) {
    Admits(Listing, c.name) && (c.Dir? || IsMarkdown(c.name))
  }

  /** `build_tree` cannot complete on `n`: `n` is not a readable directory, or
      some included subdirectory cannot be completed. */
  ghost predicate TreeFails(n: Node)
    decreases n
  {
    n.File? || !n.readable
    || exists i :: 0 <= i < |n.children| && Included(n.children[i]) && n.children[i].Dir? && TreeFails(n.children[i])
  }

  /** Every entry at this level is admitted, has the path `rel` joined with its
      name, is a directory with a well-formed subtree or a markdown file with
      no children, and the level is ordered directories first, then by name. */
  ghost predicate WellFormedLevel(es: seq<FileEntry>, rel: Path)
    decreases es
  {
    DirsFirstByName(es) && forall i :: 0 <= i < |es| ==> WellFormedEntry(es[i], rel)
  }

  ghost predicate WellFormedEntry(e: FileEntry, rel: Path)
    decreases e
  {
    && Admits(Listing, e.name)
    && e.path == Render(rel + [e.name])
    && match e.children
       case Present(sub) => e.isDirectory && WellFormedLevel(sub, rel + [e.name])
       case Absent => !e.isDirectory && IsMarkdown(e.name)
  }

  /** How many of `cs` `build_tree` keeps. */
  function IncludedCount(cs: seq<Node>): nat {
    if |cs| == 0 then 0
    else (if Included(cs[0]) then 1 else 0) + IncludedCount(cs[1..])
  }

  /** The level `es` mirrors the children `cs` of the directory at `rel`: it is
      a reordering of one mirroring entry per included child, in any order. */
  ghost predicate Mirrors(es: seq<FileEntry>, cs: seq<Node>, rel: Path)
    decreases cs, 2
  {
    exists us {:trigger MirrorsInOrder(us, cs, rel)} :: MirrorsInOrder(us, cs, rel) && multiset(us) == multiset(es)
  }

  /** `us` holds, in the order of `cs`, one mirroring entry for each included
      child and nothing for the others. */
  ghost predicate MirrorsInOrder(us: seq<FileEntry>, cs: seq<Node>, rel: Path)
    decreases cs, 1
  {
    if |cs| == 0 then us == []
    else if !Included(cs[0]) then MirrorsInOrder(us, cs[1..], rel)
    else |us| > 0 && MirrorsChild(us[0], cs[0], rel) && MirrorsInOrder(us[1..], cs[1..], rel)
  }

  /** The entry `e` mirrors the child `c` of the directory at `rel`: same name
      and kind, the path of `c`, no children for a file and a mirror of its
      own children for a directory. */
  ghost predicate MirrorsChild(e: FileEntry, c: Node, rel: Path)
    decreases c, 0
  {
    && e.name == c.name
    && e.isDirectory == c.Dir?
    && e.path == Render(rel + [c.name])
    && match c
       case File(_, _) => e.children.Absent?
       case Dir(_, _, sub) => e.children.Present? && Mirrors(e.children.entries, sub, rel + [c.name])
  }

  /** What mirroring means for the level: exactly as many entries as included
      children, every included child has a mirroring entry, and every entry
      mirrors some included child. */
  lemma MirrorsMeaning(es: seq<FileEntry>, cs: seq<Node>, rel: Path)
    requires Mirrors(es, cs, rel)
    ensures |es| == IncludedCount(cs)
    ensures forall c :: c in cs && Included(c) ==> exists e :: e in es && MirrorsChild(e, c, rel)
    ensures forall e :: e in es ==> exists c :: c in cs && Included(c) && MirrorsChild(e, c, rel)
  {
    var us :| MirrorsInOrder(us, cs, rel) && multiset(us) == multiset(es);
    InOrderMeaning(us, cs, rel);
    SameMembers(us, es);
    SameLength(es, us);
  }

  lemma {:induction false} InOrderMeaning(us: seq<FileEntry>, cs: seq<Node>, rel: Path)
    requires MirrorsInOrder(us, cs, rel)
    ensures |us| == IncludedCount(cs)
    ensures forall c :: c in cs && Included(c) ==> exists e :: e in us && MirrorsChild(e, c, rel)
    ensures forall e :: e in us ==> exists c :: c in cs && Included(c) && MirrorsChild(e, c, rel)
  {
    InOrderCount(us, cs, rel);
    forall c | c in cs && Included(c)
      ensures exists e :: e in us && MirrorsChild(e, c, rel)
    {
      InOrderCovers(us, cs, rel, c);
    }
    forall e | e in us
      ensures exists c :: c in cs && Included(c) && MirrorsChild(e, c, rel)
    {
      InOrderFrom(us, cs, rel, e);
    }
  }

  lemma {:induction false} InOrderCount(us: seq<FileEntry>, cs: seq<Node>, rel: Path)
    requires MirrorsInOrder(us, cs, rel)
    ensures |us| == IncludedCount(cs)
    decreases cs
  {
    if |cs| > 0 {
      if Included(cs[0]) {
        InOrderCount(us[1..], cs[1..], rel);
      } else {
        InOrderCount(us, cs[1..], rel);
      }
    }
  }

  lemma {:induction false} InOrderCovers(us: seq<FileEntry>, cs: seq<Node>, rel: Path, c: Node)
    requires MirrorsInOrder(us, cs, rel) && c in cs && Included(c)
    ensures exists e :: e in us && MirrorsChild(e, c, rel)
    decreases cs
  {
    if Included(cs[0]) {
      if c == cs[0] {
        assert us[0] in us;
      } else {
        assert c in cs[1..];
        InOrderCovers(us[1..], cs[1..], rel, c);
        var e :| e in us[1..] && MirrorsChild(e, c, rel);
        assert e in us;
      }
    } else {
      assert c in cs[1..];
      InOrderCovers(us, cs[1..], rel, c);
    }
  }

  lemma {:induction false} InOrderFrom(us: seq<FileEntry>, cs: seq<Node>, rel: Path, e: FileEntry)
    requires MirrorsInOrder(us, cs, rel) && e in us
    ensures exists c :: c in cs && Included(c) && MirrorsChild(e, c, rel)
    decreases cs
  {
    if Included(cs[0]) {
      if e == us[0] {
        assert cs[0] in cs;
      } else {
        assert e in us[1..];
        InOrderFrom(us[1..], cs[1..], rel, e);
        var c :| c in cs[1..] && Included(c) && MirrorsChild(e, c, rel);
        assert c in cs;
      }
    } else {
      InOrderFrom(us, cs[1..], rel, e);
      var c :| c in cs[1..] && Included(c) && MirrorsChild(e, c, rel);
      assert c in cs;
    }
  }

  /** `build_tree(path, base)` for the node `n` at `rel` below the vault root
      `base`. Reading a file as a directory fails, as `read_dir` does. */
  function BuildTree(n: Node, base: Path, rel: Path): (r: Result<seq<FileEntry>, Error>)
    ensures r.Failure? <==> TreeFails(n)
    ensures r.Failure? ==> r.error.ReadDirFailed?
    ensures r.Success? ==> WellFormedLevel(r.value, rel)
    ensures r.Success? ==> Mirrors(r.value, n.children, rel)
    decreases n, 0
  {
    match n
    case File(_, _) => Failure(ReadDirFailed(base + rel))
    case Dir(_, readable, cs) =>
      if !readable then Failure(ReadDirFailed(base + rel))
      else
        var level := BuildLevel(cs, base, rel);
        if level.Failure? then
          Failure(level.error)
        else
          var r := SortEntries(level.value);
          SameMembers(r, level.value);
          assert MirrorsInOrder(level.value, cs, rel);
          assert forall i :: 0 <= i < |r| ==> r[i] in level.value;
          Success(r)
  }

  /** The entry for an included child at `rel`; a directory carries its
      whole subtree, which may be empty. */
  function ChildEntry(c: Node, base: Path, rel: Path): (r: Result<FileEntry, Error>)
    requires Included(c)
    ensures r.Failure? <==> c.Dir? && TreeFails(c)
    ensures r.Failure? ==> r.error.ReadDirFailed?
    ensures r.Success? ==> WellFormedEntry(r.value, rel)
    ensures r.Success? ==> MirrorsChild(r.value, c, rel)
    decreases c, 1
  {
    var path := rel + [c.name];
    if c.File? then Success(FileEntry(c.name, Render(path), false, Absent))
    else
      var sub := BuildTree(c, base, path);
      if sub.Failure? then Failure(sub.error)
      else Success(FileEntry(c.name, Render(path), true, Present(sub.value)))
  }

  /** The loop of `build_tree` over one directory's children, in `read_dir`
      order: skipped children contribute nothing, and the first failure of
      an included child is the failure of the whole level. */
  function BuildLevel(cs: seq<Node>, base: Path, rel: Path): (r: Result<seq<FileEntry>, Error>)
    ensures r.Failure? <==> exists i :: 0 <= i < |cs| && Included(cs[i]) && cs[i].Dir? && TreeFails(cs[i])
    ensures r.Failure? ==> r.error.ReadDirFailed?
    ensures r.Success? ==> forall e :: e in r.value ==> WellFormedEntry(e, rel)
    ensures r.Success? ==> forall e :: e in r.value ==>
              exists c :: c in cs && Included(c) && ChildEntry(c, base, rel) == Success(e)
    ensures r.Success? ==> forall c :: c in cs && Included(c) ==>
              ChildEntry(c, base, rel).Success? && ChildEntry(c, base, rel).value in r.value
    ensures r.Success? ==> MirrorsInOrder(r.value, cs, rel)
    decreases cs, 0
  {
    if |cs| == 0 then Success([])
    else
      var c := cs[0];
      assert forall x :: x in cs ==> x == c || x in cs[1..];
      assert forall i :: 1 <= i < |cs| ==> cs[i] == cs[1..][i - 1];
      if !Included(c) then
        var rest := BuildLevel(cs[1..], base, rel);
        rest
      else
        var e := ChildEntry(c, base, rel);
        if e.Failure? then Failure(e.error)
        else
          var rest := BuildLevel(cs[1..], base, rel);
          if rest.Failure? then Failure(rest.error)
          else
            Success([e.value] + rest.value)
  }

  /** `get_file_tree(path)`: fails when the path does not exist; otherwise
      builds the tree of the node there with paths relative to it. */
  function GetFileTree(root: Node, path: Path): (r: Result<seq<FileEntry>, Error>)
    ensures Lookup(root, path).None? <==> r == Failure(NotFound(path))
    ensures Lookup(root, path).Some? ==> (r.Failure? <==> TreeFails(Lookup(root, path).value))
    ensures r.Success? ==> WellFormedLevel(r.value, [])
    ensures r.Success? ==> Mirrors(r.value, Lookup(root, path).value.children, [])
  {
    match Lookup(root, path)
    case None => Failure(NotFound(path))
    case Some(n) => BuildTree(n, path, [])
  }
}
