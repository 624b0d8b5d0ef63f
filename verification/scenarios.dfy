/** Worked examples of the vault commands on small concrete filesystems. */
module Scenarios {

  import opened Wrappers
  import opened Names
  import opened Fs
  import opened LineSplit
  import opened Matching
  import opened Listing
  import opened Tree
  import opened Search

  /** On each of `lines`, searching for `pattern` finds what the literal
      matcher finds: the regex library rejects the pattern, or its compiled
      form agrees with the literal matcher there. */
  predicate ActsLiterally(parse: string -> Option<Finder>, pattern: string, lines: seq<string>) {
    parse(pattern).None? || forall k :: 0 <= k < |lines| ==> parse(pattern).value(lines[k]) == FindLiteral(pattern, lines[k])
  }

  /** Under `ActsLiterally`, the compiled pattern finds the literal match. */
  lemma LiteralFind(parse: string -> Option<Finder>, pattern: string, lines: seq<string>, k: nat)
    requires ActsLiterally(parse, pattern, lines) && k < |lines|
    ensures Find(Compile(pattern, parse), lines[k]) == FindLiteral(pattern, lines[k])
  {
  }

  /** A vault with `a.md` ("hello world") and `sub/b.md` ("say hello"). */
  function HelloVault(): Node {
    Dir("vault", true, [File("a.md", Some("hello world")),
                        Dir("sub", true, [File("b.md", Some("say hello"))])])
  }

  lemma HelloLines()
    ensures Lines("hello world") == ["hello world"]
    ensures Lines("say hello") == ["say hello"]
  {
    HelloWorldLine();
    SayHelloLine();
  }

  lemma HelloWorldLine()
    ensures Lines("hello world") == ["hello world"]
  {
    OneLine("hello world");
  }

  lemma SayHelloLine()
    ensures Lines("say hello") == ["say hello"]
  {
    OneLine("say hello");
  }

  /** A text of one line without a newline. */
  lemma OneLine(s: string)
    requires s != [] && forall k :: 0 <= k < |s| ==> s[k] != '\n'
    ensures Lines(s) == [s]
  {
  }

  lemma HelloFinds()
    ensures FindLiteral("hello", "hello world") == Some(Span(0, 5))
    ensures FindLiteral("hello", "say hello") == Some(Span(4, 9))
  {
    assert "hello world"[0..5] == "hello";
    var s := "say hello";
    assert s[0..5][0] == 's' && s[1..6][0] == 'a' && s[2..7][0] == 'y' && s[3..8][0] == ' ';
    assert s[4..9] == "hello";
  }

  /** The walk of the vault, in `read_dir` order, directories before their
      contents. */
  lemma HelloWalk()
    ensures var a := File("a.md", Some("hello world"));
            var b := File("b.md", Some("say hello"));
            var sub := Dir("sub", true, [b]);
            Walk(HelloVault(), [], Searching)
            == [Entered(HelloVault(), []), Entered(a, ["a.md"]), Entered(sub, ["sub"]), Entered(b, ["sub", "b.md"])]
  {
    var root := HelloVault();
    var a := File("a.md", Some("hello world"));
    var b := File("b.md", Some("say hello"));
    var sub := Dir("sub", true, [b]);
    assert [b][1..] == [] && [sub][1..] == [];
    assert ["sub"] + [b.name] == ["sub", "b.md"];
    assert [] + [sub.name] == ["sub"];
    assert [] + [a.name] == ["a.md"];
    assert Walk(b, ["sub", "b.md"], Searching) == [Entered(b, ["sub", "b.md"])];
    assert WalkChildren([b], ["sub"], Searching) == [Entered(b, ["sub", "b.md"])];
    assert Walk(sub, ["sub"], Searching) == [Entered(sub, ["sub"]), Entered(b, ["sub", "b.md"])];
    assert Walk(a, ["a.md"], Searching) == [Entered(a, ["a.md"])];
    assert WalkChildren([sub], [], Searching) == Walk(sub, ["sub"], Searching);
    assert [a, sub][1..] == [sub];
    assert WalkChildren([a, sub], [], Searching) == Walk(a, ["a.md"], Searching) + WalkChildren([sub], [], Searching);
  }

  /** The root-relative path of `b.md` under `sub`. */
  lemma SubPath()
    ensures Render(["sub", "b.md"]) == "sub/b.md"
  {
    var p: Path := ["sub", "b.md"];
    assert p[..1] == ["sub"];
    var r := Render(p);
    assert r == "sub" + [Separator] + "b.md";
    assert |r| == 8;
    assert r[0] == 's' && r[1] == 'u' && r[2] == 'b' && r[3] == '/';
    assert r[4] == 'b' && r[5] == '.' && r[6] == 'm' && r[7] == 'd';
  }

  /** A note whose only line is matched by `m` yields one hit. */
  lemma OneHit(name: string, rel: Path, text: string, sp: Span, m: Pattern)
    requires IsMarkdown(name)
    requires Lines(text) == [text]
    requires Find(m, text) == Some(sp)
    ensures FileHits(Entered(File(name, Some(text)), rel), m)
            == [GrepMatch(Render(rel), 1, text, sp.start, sp.end)]
  {
    assert LineHits(Render(rel), [text], m, 1) == [GrepMatch(Render(rel), 1, text, sp.start, sp.end)];
  }

  /** Each note of the vault yields one hit when `m` finds "hello" where the
      literal matcher does. */
  lemma HelloFileHits(m: Pattern)
    requires Find(m, "hello world") == Some(Span(0, 5)) && Find(m, "say hello") == Some(Span(4, 9))
    ensures FileHits(Entered(File("a.md", Some("hello world")), ["a.md"]), m)
            == [GrepMatch("a.md", 1, "hello world", 0, 5)]
    ensures FileHits(Entered(File("b.md", Some("say hello")), ["sub", "b.md"]), m)
            == [GrepMatch("sub/b.md", 1, "say hello", 4, 9)]
  {
    SuffixIsMarkdown("a.md");
    SuffixIsMarkdown("b.md");
    HelloLines();
    SubPath();
    OneHit("a.md", ["a.md"], "hello world", Span(0, 5), m);
    OneHit("b.md", ["sub", "b.md"], "say hello", Span(4, 9), m);
  }

  /** The uncapped hits of the vault for such an `m`. */
  lemma HelloAllHits(m: Pattern)
    requires Find(m, "hello world") == Some(Span(0, 5)) && Find(m, "say hello") == Some(Span(4, 9))
    ensures AllHits(Walk(HelloVault(), [], Searching), m)
            == [GrepMatch("a.md", 1, "hello world", 0, 5), GrepMatch("sub/b.md", 1, "say hello", 4, 9)]
  {
    var walk := Walk(HelloVault(), [], Searching);
    HelloWalk();
    HelloFileHits(m);
    assert walk == [walk[0], walk[1], walk[2], walk[3]];
    FourHits(walk[0], walk[1], walk[2], walk[3], m);
  }

  /** The hits of a four-item walk whose first and third items are not scanned. */
  lemma FourHits(w0: Visit, w1: Visit, w2: Visit, w3: Visit, m: Pattern)
    requires !IsScanned(w0) && !IsScanned(w2)
    ensures AllHits([w0, w1, w2, w3], m) == FileHits(w1, m) + FileHits(w3, m)
  {
    AllHitsSingle(w0, m);
    AllHitsSingle(w1, m);
    AllHitsSingle(w2, m);
    AllHitsSingle(w3, m);
    AllHitsAppend([w0, w1], [w2, w3], m);
    AllHitsAppend([w0], [w1], m);
    AllHitsAppend([w2], [w3], m);
    assert [w0] + [w1] == [w0, w1] && [w2] + [w3] == [w2, w3];
    assert [w0, w1] + [w2, w3] == [w0, w1, w2, w3];
  }

  /** Searching the vault for "hello" with a cap of 10 finds one match in each
      note, in walk order, with the root-relative path of each note, whether
      "hello" compiles as a regex that matches like the literal on those
      lines or falls back to the literal. */
  lemma HelloSearch(parse: string -> Option<Finder>)
    requires ActsLiterally(parse, "hello", ["hello world", "say hello"])
    ensures SearchResult(HelloVault(), [], "hello", Some(10), parse)
            == Success([GrepMatch("a.md", 1, "hello world", 0, 5),
                        GrepMatch("sub/b.md", 1, "say hello", 4, 9)])
  {
    var m := Compile("hello", parse);
    LiteralFind(parse, "hello", ["hello world", "say hello"], 0);
    LiteralFind(parse, "hello", ["hello world", "say hello"], 1);
    HelloFinds();
    HelloAllHits(m);
  }

  /** A vault whose only note sits under `.git`. */
  function GitVault(): Node {
    Dir("vault", true, [Dir(".git", true, [File("notes.md", Some("hello"))])])
  }

  /** `.git/notes.md` appears neither in the flat listing nor in any search. */
  lemma GitNotesHidden(pattern: string, max: Option<nat>, parse: string -> Option<Finder>)
    ensures ListMarkdownFiles(GitVault(), []) == Success([])
    ensures SearchResult(GitVault(), [], pattern, max, parse) == Success([])
  {
    var root := GitVault();
    var git := root.children[0];
    assert [git][1..] == [];
    assert Walk(git, [".git"], Listing) == [];
    assert Walk(git, [".git"], Searching) == [];
    assert Walk(root, [], Listing) == [Entered(root, [])];
    assert Walk(root, [], Searching) == [Entered(root, [])];
    var m := Compile(pattern, parse);
    AllHitsSingle(Entered(root, []), m);
  }

  /** A vault holding one directory that cannot be read. */
  function LockedVault(): Node {
    Dir("vault", true, [File("a.md", Some("x")), Dir("locked", false, [])])
  }

  /** One unreadable subdirectory makes the whole tree fail, with no partial
      tree, while the one-level listing still succeeds. */
  lemma LockedTreeFails()
    ensures GetFileTree(LockedVault(), []).Failure?
    ensures ListDirectory(LockedVault(), []).Success?
  {
    var root := LockedVault();
    assert Included(root.children[1]) && root.children[1].Dir? && TreeFails(root.children[1]);
  }
}
