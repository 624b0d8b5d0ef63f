/** An abstract, inductive filesystem and the pre-order walk that `walkdir`
    performs over it with a `filter_entry` predicate. */
module Fs {

  import opened Wrappers
  import opened Names

  /** A node of the filesystem. `readable` is false when `read_dir` on the
      directory fails; `content` is None when reading the file as text fails.
      The order of `children` is the order in which `read_dir` yields them. */
  datatype Node =
    | Dir(name: string, readable: bool, children: seq<Node>)
    | File(name: string, content: Option<string>)

  /** A path is the sequence of names leading to a node. */
  type Path = seq<string>

  /** Stands for the host's path separator when a path is rendered as text. */
  const Separator: char := '/'

  /** A path as text: the names joined by the separator. */
  function Render(p: Path): (r: string)
    ensures |p| == 1 ==> r == p[0]
    ensures |p| == 0 ==> r == ""
  {
    if |p| == 0 then ""
    else if |p| == 1 then p[0]
    else Render(p[..|p| - 1]) + [Separator] + p[|p| - 1]
  }

  /** The rendered path of an entry is its parent's rendered path joined with
      its name. */
  lemma RenderChild(p: Path, name: string)
    ensures Render(p + [name]) == if p == [] then name else Render(p) + [Separator] + name
  {
    assert (p + [name])[..|p|] == p;
  }

  /** The first child called `name`. */
  function FindChild(cs: seq<Node>, name: string): (r: Option<Node>)
    ensures r.Some? ==> r.value in cs && r.value.name == name
    ensures r.None? ==> forall i :: 0 <= i < |cs| ==> cs[i].name != name
  {
    if |cs| == 0 then None
    else if cs[0].name == name then Some(cs[0])
    else FindChild(cs[1..], name)
  }

  /** `FindChild` returns the first child called `name`. */
  lemma {:induction false} FindChildFirst(cs: seq<Node>, name: string)
    requires FindChild(cs, name).Some?
    ensures exists i :: && 0 <= i < |cs| && cs[i] == FindChild(cs, name).value
                        && forall k :: 0 <= k < i ==> cs[k].name != name
  {
    if cs[0].name != name {
      FindChildFirst(cs[1..], name);
      var i :| 0 <= i < |cs[1..]| && cs[1..][i] == FindChild(cs, name).value
               && forall k :: 0 <= k < i ==> cs[1..][k].name != name;
      assert cs[i + 1] == cs[1..][i];
    }
  }

  /** The node a path names, starting from `root`; None when it does not exist.
      Existence does not depend on whether a directory can be listed. */
  function Lookup(root: Node, p: Path): (r: Option<Node>)
    ensures p == [] ==> r == Some(root)
    ensures r.Some? && p != [] ==> r.value.name == p[|p| - 1]
    decreases |p|
  {
    if p == [] then Some(root)
    else match root
      case File(_, _) => None
      case Dir(_, _, cs) =>
        match FindChild(cs, p[0])
        case None => None
        case Some(c) => Lookup(c, p[1..])
  }

  /** A path exists only if its parent path exists and is a directory. */
  lemma {:induction false} LookupParent(root: Node, p: Path)
    requires Lookup(root, p).Some? && p != []
    ensures Lookup(root, p[..|p| - 1]).Some? && Lookup(root, p[..|p| - 1]).value.Dir?
    decreases |p|
  {
    var c := FindChild(root.children, p[0]).value;
    if |p| > 1 {
      LookupParent(c, p[1..]);
      assert p[..|p| - 1][0] == p[0] && p[..|p| - 1][1..] == p[1..][..|p| - 2];
    }
  }

  /** Extending a path by one name finds the first child with that name in
      the directory the path names, and nothing when the path names a file
      or nothing. */
  lemma {:induction false} LookupChild(root: Node, p: Path, x: string)
    ensures Lookup(root, p + [x]) ==
              if Lookup(root, p).Some? && Lookup(root, p).value.Dir?
              then FindChild(Lookup(root, p).value.children, x)
              else None
    decreases |p|
  {
    if p != [] && root.Dir? && FindChild(root.children, p[0]).Some? {
      assert (p + [x])[1..] == p[1..] + [x];
      LookupChild(FindChild(root.children, p[0]).value, p[1..], x);
    }
  }

  /** One item produced by the walk: an entry and its path relative to the
      walk's root, or the error reported for a directory that cannot be read. */
  datatype Visit = Entered(node: Node, rel: Path) | WalkError(rel: Path)

  /** `WalkDir::new(root).into_iter().filter_entry(admit)` over `n`, whose path
      relative to the walk root is `rel`. A rejected entry is dropped and,
      when it is a directory, not read; an admitted directory is yielded
      before its contents, and one that cannot be read is followed by an error. */
  function Walk(n: Node, rel: Path, mode: Admission): seq<Visit>
    decreases n, 1
  {
    if !Admits(mode, n.name) then []
    else
      [Entered(n, rel)] +
      match n
      case File(_, _) => []
      case Dir(_, readable, cs) => if readable then WalkChildren(cs, rel, mode) else [WalkError(rel)]
  }

  function WalkChildren(cs: seq<Node>, rel: Path, mode: Admission): seq<Visit>
    decreases cs, 0
  {
    if |cs| == 0 then []
    else Walk(cs[0], rel + [cs[0].name], mode) + WalkChildren(cs[1..], rel, mode)
  }

  /** Every name on `p` is admitted. */
  ghost predicate AdmittedPath(p: Path, mode: Admission) {
    forall k :: 0 <= k < |p| ==> Admits(mode, p[k])
  }

  /** `p` lies under `base`, and every name it adds to `base` is admitted. */
  ghost predicate AdmittedBelow(p: Path, base: Path, mode: Admission) {
    |base| <= |p| && p[..|base|] == base
    && forall k :: |base| <= k < |p| ==> Admits(mode, p[k])
  }

  /** The walk yields nothing when the root itself is rejected, and never
      yields anything under a rejected directory. */
  lemma {:induction false} WalkStaysAdmitted(n: Node, rel: Path, mode: Admission)
    ensures Walk(n, rel, mode) != [] ==> Admits(mode, n.name)
    ensures forall i :: 0 <= i < |Walk(n, rel, mode)| ==> AdmittedBelow(Walk(n, rel, mode)[i].rel, rel, mode)
    decreases n, 1
  {
    if Admits(mode, n.name) && n.Dir? && n.readable {
      WalkChildrenStayAdmitted(n.children, rel, mode);
    }
  }

  lemma {:induction false} WalkChildrenStayAdmitted(cs: seq<Node>, rel: Path, mode: Admission)
    ensures forall i :: 0 <= i < |WalkChildren(cs, rel, mode)| ==>
              AdmittedBelow(WalkChildren(cs, rel, mode)[i].rel, rel, mode)
    decreases cs, 0
  {
    if |cs| > 0 {
      var c := cs[0];
      var head := Walk(c, rel + [c.name], mode);
      var tail := WalkChildren(cs[1..], rel, mode);
      WalkStaysAdmitted(c, rel + [c.name], mode);
      WalkChildrenStayAdmitted(cs[1..], rel, mode);
      forall i | 0 <= i < |head|
        ensures AdmittedBelow(head[i].rel, rel, mode)
      {
        var p := head[i].rel;
        assert AdmittedBelow(p, rel + [c.name], mode);
        assert p[..|rel| + 1][..|rel|] == p[..|rel|];
        assert p[|rel|] == (rel + [c.name])[|rel|];
      }
      assert WalkChildren(cs, rel, mode) == head + tail;
    }
  }

  /** From `n`, the path `p` goes only through readable directories, and the
      walk admits the name of `n` and every name on `p`. Each step goes to the
      first child with the next name, as `Lookup` does. */
  ghost predicate OpenPath(n: Node, p: Path, mode: Admission)
    decreases |p|
  {
    && Admits(mode, n.name)
    && (p != [] ==> && n.Dir? && n.readable && FindChild(n.children, p[0]).Some?
                    && OpenPath(FindChild(n.children, p[0]).value, p[1..], mode))
  }

  /** The converse of `WalkStaysAdmitted`: the walk reaches the node at the
      end of every open path, at that path. */
  lemma {:induction false} WalkReaches(n: Node, rel: Path, p: Path, mode: Admission)
    requires OpenPath(n, p, mode)
    ensures Lookup(n, p).Some? && Entered(Lookup(n, p).value, rel + p) in Walk(n, rel, mode)
    decreases |p|
  {
    if p == [] {
      assert rel + p == rel;
    } else {
      var c := FindChild(n.children, p[0]).value;
      WalkReaches(c, rel + [c.name], p[1..], mode);
      assert rel + [c.name] + p[1..] == rel + p;
      WalkChildrenContains(n.children, rel, mode, c, Entered(Lookup(n, p).value, rel + p));
    }
  }

  lemma {:induction false} WalkChildrenContains(cs: seq<Node>, rel: Path, mode: Admission, c: Node, v: Visit)
    requires c in cs && v in Walk(c, rel + [c.name], mode)
    ensures v in WalkChildren(cs, rel, mode)
    decreases cs
  {
    assert WalkChildren(cs, rel, mode) == Walk(cs[0], rel + [cs[0].name], mode) + WalkChildren(cs[1..], rel, mode);
    if c != cs[0] {
      assert c in cs[1..];
      WalkChildrenContains(cs[1..], rel, mode, c, v);
    }
  }

  /** An item of a walk from the root: every name on its path is admitted,
      and so is the root's own name. */
  lemma WalkItemAdmitted(n: Node, mode: Admission, v: Visit)
    requires v in Walk(n, [], mode)
    ensures AdmittedPath(v.rel, mode) && Admits(mode, n.name)
  {
    var walk := Walk(n, [], mode);
    var i :| 0 <= i < |walk| && walk[i] == v;
    WalkStaysAdmitted(n, [], mode);
    assert AdmittedBelow(walk[i].rel, [], mode);
  }

  /** Some item of the walk is an error. */
  predicate HasError(vs: seq<Visit>) {
    exists i :: 0 <= i < |vs| && vs[i].WalkError?
  }

  lemma HasErrorAppend(a: seq<Visit>, b: seq<Visit>)
    ensures HasError(a + b) <==> HasError(a) || HasError(b)
  {
    if HasError(a + b) {
      var i :| 0 <= i < |a + b| && (a + b)[i].WalkError?;
      if i >= |a| {
        assert b[i - |a|].WalkError?;
      }
    }
    if HasError(b) {
      var i :| 0 <= i < |b| && b[i].WalkError?;
      assert (a + b)[|a| + i].WalkError?;
    }
    if HasError(a) {
      var i :| 0 <= i < |a| && a[i].WalkError?;
      assert (a + b)[i].WalkError?;
    }
  }

  /** An admitted directory that cannot be read is reachable from `n` through
      admitted directories. */
  ghost predicate HasUnreadableDir(n: Node, mode: Admission)
    decreases n
  {
    Admits(mode, n.name) && n.Dir?
    && (!n.readable || exists i :: 0 <= i < |n.children| && HasUnreadableDir(n.children[i], mode))
  }

  /** The walk reports an error exactly when an admitted, unreadable
      directory is reachable through admitted directories. */
  lemma {:induction false} WalkErrorIff(n: Node, rel: Path, mode: Admission)
    ensures HasError(Walk(n, rel, mode)) <==> HasUnreadableDir(n, mode)
    decreases n, 1
  {
    if Admits(mode, n.name) {
      var rest := match n
        case File(_, _) => []
        case Dir(_, readable, cs) => if readable then WalkChildren(cs, rel, mode) else [WalkError(rel)];
      assert Walk(n, rel, mode) == [Entered(n, rel)] + rest;
      HasErrorAppend([Entered(n, rel)], rest);
      assert !HasError([Entered(n, rel)]);
      if n.Dir? && n.readable {
        WalkChildrenErrorIff(n.children, rel, mode);
      } else if n.Dir? {
        assert rest[0].WalkError?;
      }
    }
  }

  lemma {:induction false} WalkChildrenErrorIff(cs: seq<Node>, rel: Path, mode: Admission)
    ensures HasError(WalkChildren(cs, rel, mode)) <==>
              exists i :: 0 <= i < |cs| && HasUnreadableDir(cs[i], mode)
    decreases cs, 0
  {
    if |cs| > 0 {
      var head := Walk(cs[0], rel + [cs[0].name], mode);
      var tail := WalkChildren(cs[1..], rel, mode);
      WalkErrorIff(cs[0], rel + [cs[0].name], mode);
      WalkChildrenErrorIff(cs[1..], rel, mode);
      HasErrorAppend(head, tail);
      if exists i :: 0 <= i < |cs| && HasUnreadableDir(cs[i], mode) {
        var i :| 0 <= i < |cs| && HasUnreadableDir(cs[i], mode);
        if i > 0 {
          assert cs[1..][i - 1] == cs[i];
        }
      }
      if exists i :: 0 <= i < |cs[1..]| && HasUnreadableDir(cs[1..][i], mode) {
        var i :| 0 <= i < |cs[1..]| && HasUnreadableDir(cs[1..][i], mode);
        assert cs[i + 1] == cs[1..][i];
      }
    }
  }
}
