/** `grep_search`: a bounded, best-effort scan of the notes under a root for
    the first match of a pattern on each line. */
module Search {

  import opened Wrappers
  import opened Names
  import opened Fs
  import opened Entries
  import opened LineSplit
  import opened Matching

  /** One located match: the root-relative path of the note, the 1-based
      line number, the line itself and the offsets of the match in it. */
  datatype GrepMatch = GrepMatch(filepath: string, lineNumber: nat, lineContent: string, matchStart: nat, matchEnd: nat)

  /** The cap used when the caller gives none. */
  const DefaultMaxResults: nat := 100

  /** A hit is consistent with the file it claims: its line is line
      `lineNumber` of the file and its offsets are the first match there. */
  ghost predicate HitOfLine(h: GrepMatch, fp: string, lines: seq<string>, p: Pattern) {
    && h.filepath == fp
    && 1 <= h.lineNumber <= |lines|
    && h.lineContent == lines[h.lineNumber - 1]
    && Find(p, h.lineContent) == Some(Span(h.matchStart, h.matchEnd))
    && h.matchStart <= h.matchEnd <= |h.lineContent|
  }

  /** The hit of line `k` (0-based), if the pattern matches there: the
      first match on the line, with its 1-based line number. */
  function LineHit(fp: string, lines: seq<string>, p: Pattern, k: nat): seq<GrepMatch>
    requires k < |lines|
  {
    match Find(p, lines[k])
    case None => []
    case Some(sp) => [GrepMatch(fp, k + 1, lines[k], sp.start, sp.end)]
  }

  /** The hits of the first `j` lines of a file, uncapped: one per matching
      line, in line order. */
  function LineHits(fp: string, lines: seq<string>, p: Pattern, j: nat): seq<GrepMatch>
    requires j <= |lines|
  {
    if j == 0 then []
    else
      var before := LineHits(fp, lines, p, j - 1);
      match Find(p, lines[j - 1])
      case None => before
      case Some(sp) => before + [GrepMatch(fp, j, lines[j - 1], sp.start, sp.end)]
  }

  lemma LineHitsStep(fp: string, lines: seq<string>, p: Pattern, j: nat)
    requires j < |lines|
    ensures LineHits(fp, lines, p, j + 1) == LineHits(fp, lines, p, j) + LineHit(fp, lines, p, j)
  {
  }

  /** Each hit of a file names its own line and the first match on it. */
  lemma {:induction false} LineHitsSound(fp: string, lines: seq<string>, p: Pattern, j: nat)
    requires j <= |lines|
    ensures forall h :: h in LineHits(fp, lines, p, j) ==> HitOfLine(h, fp, lines, p) && h.lineNumber <= j
  {
    if j > 0 {
      LineHitsSound(fp, lines, p, j - 1);
    }
  }

  /** Line numbers strictly increase along `r`. */
  ghost predicate IncreasingLines(r: seq<GrepMatch>) {
    forall a, b :: 0 <= a < b < |r| ==> r[a].lineNumber < r[b].lineNumber
  }

  /** Within one file, line numbers strictly increase: at most one hit per line. */
  lemma {:induction false} LineHitsIncreasing(fp: string, lines: seq<string>, p: Pattern, j: nat)
    requires j <= |lines|
    ensures IncreasingLines(LineHits(fp, lines, p, j))
  {
    if j > 0 {
      LineHitsIncreasing(fp, lines, p, j - 1);
      LineHitsSound(fp, lines, p, j - 1);
      var before := LineHits(fp, lines, p, j - 1);
      var r := LineHits(fp, lines, p, j);
      assert r == before || (|r| == |before| + 1 && r[..|before|] == before && r[|before|].lineNumber == j);
      forall a, b | 0 <= a < b < |r|
        ensures r[a].lineNumber < r[b].lineNumber
      {
        assert r[a] == before[a];
        if b >= |before| {
          assert before[a] in before;
          assert r[b].lineNumber == j;
        } else {
          assert r[b] == before[b];
        }
      }
    }
  }

  /** Every line on which the pattern matches has a hit. */
  lemma {:induction false} LineHitsComplete(fp: string, lines: seq<string>, p: Pattern, j: nat)
    requires j <= |lines|
    ensures forall k :: 0 <= k < j && Find(p, lines[k]).Some? ==>
              GrepMatch(fp, k + 1, lines[k], Find(p, lines[k]).value.start, Find(p, lines[k]).value.end)
                in LineHits(fp, lines, p, j)
  {
    if j > 0 {
      LineHitsComplete(fp, lines, p, j - 1);
      var before := LineHits(fp, lines, p, j - 1);
      var r := LineHits(fp, lines, p, j);
      assert forall h :: h in before ==> h in r;
    }
  }


  /** The hits of more lines extend the hits of fewer. */
  lemma {:induction false} LineHitsPrefix(fp: string, lines: seq<string>, p: Pattern, j: nat, k: nat)
    requires j <= k <= |lines|
    ensures |LineHits(fp, lines, p, j)| <= |LineHits(fp, lines, p, k)|
    ensures LineHits(fp, lines, p, k)[..|LineHits(fp, lines, p, j)|] == LineHits(fp, lines, p, j)
    decreases k - j
  {
    if j < k {
      LineHitsPrefix(fp, lines, p, j, k - 1);
      var short := LineHits(fp, lines, p, j);
      var mid := LineHits(fp, lines, p, k - 1);
      var long := LineHits(fp, lines, p, k);
      assert long == mid || long == mid + [long[|long| - 1]];
      assert long[..|mid|] == mid;
      assert long[..|short|] == mid[..|short|];
    }
  }

  /** The file behind a walk item is scanned: a markdown file that could be
      read as text. */
  predicate IsScanned(v: Visit) {
    v.Entered? && v.node.File? && IsMarkdown(v.node.name) && v.node.content.Some?
  }

  /** The uncapped hits of one walk item. Walk errors, directories, other
      files and unreadable files contribute nothing. */
  function FileHits(v: Visit, p: Pattern): seq<GrepMatch> {
    if IsScanned(v) then
      var lines := Lines(v.node.content.value);
      LineHits(Render(v.rel), lines, p, |lines|)
    else []
  }

  /** `f` applied to each element of `vs`, the results joined in order. */
  function ConcatMap<T, U>(vs: seq<T>, f: T -> seq<U>): seq<U>
    decreases |vs|
  {
    if |vs| == 0 then [] else ConcatMap(vs[..|vs| - 1], f) + f(vs[|vs| - 1])
  }

  lemma {:induction false} ConcatMapAppend<T, U>(a: seq<T>, b: seq<T>, f: T -> seq<U>)
    ensures ConcatMap(a + b, f) == ConcatMap(a, f) + ConcatMap(b, f)
    decreases |b|
  {
    if |b| == 0 {
      assert a + b == a;
    } else {
      var b' := b[..|b| - 1];
      assert (a + b)[..|a + b| - 1] == a + b';
      assert (a + b)[|a + b| - 1] == b[|b| - 1];
      ConcatMapAppend(a, b', f);
    }
  }

  /** The hits of each walk item under pattern `p`. */
  function HitsOf(p: Pattern): Visit -> seq<GrepMatch> {
    v => FileHits(v, p)
  }

  /** The uncapped hits of a walk, file by file in walk order. */
  function AllHits(vs: seq<Visit>, p: Pattern): seq<GrepMatch> {
    ConcatMap(vs, HitsOf(p))
  }

  /** The first `k` elements of `s`, or all of them. */
  function Take<T>(s: seq<T>, k: nat): (r: seq<T>)
    ensures |r| <= k && |r| <= |s|
    ensures r == s[..|r|]
    ensures |s| <= k ==> r == s
  {
    if |s| <= k then s else s[..k]
  }

  /** What `grep_search` returns: NotFound for a missing root, otherwise the
      first `max` hits of the walk that skips every hidden name. */
  function SearchResult(root: Node, path: Path, pattern: string, maxResults: Option<nat>,
                        parse: string -> Option<Finder>): Result<seq<GrepMatch>, Error>
  {
    match Lookup(root, path)
    case None => Failure(NotFound(path))
    case Some(n) =>
      Success(Take(AllHits(Walk(n, [], Searching), Compile(pattern, parse)), maxResults.GetOr(DefaultMaxResults)))
  }

  lemma AllHitsAppend(a: seq<Visit>, b: seq<Visit>, p: Pattern)
    ensures AllHits(a + b, p) == AllHits(a, p) + AllHits(b, p)
  {
    ConcatMapAppend(a, b, HitsOf(p));
  }

  /** Taking from a sequence whose prefix already reaches the cap gives the
      same result as taking from the prefix. */
  lemma TakeFull<T>(a: seq<T>, b: seq<T>, k: nat)
    requires |a| >= k
    ensures Take(a + b, k) == Take(a, k)
  {
    assert (a + b)[..k] == a[..k];
  }

  /** Below the cap, taking keeps everything. */
  lemma TakeBelowCap<T>(s: seq<T>, k: nat)
    requires |Take(s, k)| < k
    ensures Take(s, k) == s
  {
  }

  /** Below the cap, one more element is kept. */
  lemma TakeAppendSmall<T>(s: seq<T>, x: seq<T>, k: nat)
    requires |Take(s, k)| < k && |x| <= 1
    ensures Take(s + x, k) == Take(s, k) + x
  {
  }
  /** Once the hits before line `j` reach the cap, the later lines change
      nothing. */
  lemma CapReachedInFile(done: seq<GrepMatch>, fp: string, lines: seq<string>, m: Pattern, j: nat, max: nat)
    requires j <= |lines|
    requires |done + LineHits(fp, lines, m, j)| >= max
    ensures Take(done + LineHits(fp, lines, m, |lines|), max) == Take(done + LineHits(fp, lines, m, j), max)
  {
    LineHitsPrefix(fp, lines, m, j, |lines|);
    var cur := LineHits(fp, lines, m, j);
    var all := LineHits(fp, lines, m, |lines|);
    var rest := all[|cur|..];
    assert all == cur + rest;
    assert done + all == (done + cur) + rest;
    TakeFull(done + cur, rest, max);
  }

  /** One line below the cap: its hit, if any, is kept. */
  lemma LineStep(done: seq<GrepMatch>, fp: string, lines: seq<string>, m: Pattern, j: nat, max: nat)
    requires j < |lines|
    requires |Take(done + LineHits(fp, lines, m, j), max)| < max
    ensures Take(done + LineHits(fp, lines, m, j + 1), max)
            == Take(done + LineHits(fp, lines, m, j), max) + LineHit(fp, lines, m, j)
  {
    var before := done + LineHits(fp, lines, m, j);
    LineHitsStep(fp, lines, m, j);
    assert done + LineHits(fp, lines, m, j + 1) == before + LineHit(fp, lines, m, j);
    TakeAppendSmall(before, LineHit(fp, lines, m, j), max);
  }

  /** The line loop of `grep_search` over one file, starting from the hits
      `done` of the files before it (held up to the cap in `held`). */
  method ScanLines(fp: string, lines: seq<string>, m: Pattern, max: nat,
                   ghost done: seq<GrepMatch>, held: seq<GrepMatch>) returns (matches: seq<GrepMatch>)
    requires held == Take(done, max)
    ensures matches == Take(done + LineHits(fp, lines, m, |lines|), max)
  {
    matches := held;
    assert done + LineHits(fp, lines, m, 0) == done;
    var j := 0;
    while j < |lines|
      invariant 0 <= j <= |lines|
      invariant matches == Take(done + LineHits(fp, lines, m, j), max)
    {
      if |matches| >= max {
        CapReachedInFile(done, fp, lines, m, j, max);
        return;
      }
      LineStep(done, fp, lines, m, j, max);
      matches := matches + LineHit(fp, lines, m, j);
      j := j + 1;
    }
  }

  /** A one-item walk has the hits of its item. */
  lemma AllHitsSingle(v: Visit, p: Pattern)
    ensures AllHits([v], p) == FileHits(v, p)
  {
    assert [v][..0] == [];
    assert ConcatMap([v], HitsOf(p)) == ConcatMap([], HitsOf(p)) + HitsOf(p)(v);
  }

  lemma AllHitsStep(walk: seq<Visit>, i: nat, m: Pattern)
    requires i < |walk|
    ensures AllHits(walk[..i + 1], m) == AllHits(walk[..i], m) + FileHits(walk[i], m)
  {
    assert walk[..i + 1][..i] == walk[..i];
  }

  /** Once the hits of `a` reach the cap, whatever follows `a` in the walk
      changes nothing. */
  lemma CapReachedInWalk(a: seq<Visit>, b: seq<Visit>, m: Pattern, max: nat)
    requires |AllHits(a, m)| >= max
    ensures Take(AllHits(a + b, m), max) == Take(AllHits(a, m), max)
  {
    AllHitsAppend(a, b, m);
    TakeFull(AllHits(a, m), AllHits(b, m), max);
  }

  /** One walk item: a note is scanned line by line; anything else (a walk
      error, a directory, another file, an unreadable note) is skipped. */
  method ScanItem(v: Visit, m: Pattern, max: nat, ghost done: seq<GrepMatch>, held: seq<GrepMatch>)
    returns (matches: seq<GrepMatch>)
    requires held == Take(done, max)
    ensures matches == Take(done + FileHits(v, m), max)
  {
    if IsScanned(v) {
      var lines := Lines(v.node.content.value);
      matches := ScanLines(Render(v.rel), lines, m, max, done, held);
    } else {
      assert done + FileHits(v, m) == done;
      matches := held;
    }
  }

  /** The walk loop of `grep_search`: item by item, scanning each note, and
      stopping as soon as `max` matches are held. */
  method ScanWalk(walk: seq<Visit>, m: Pattern, max: nat) returns (matches: seq<GrepMatch>)
    ensures matches == Take(AllHits(walk, m), max)
  {
    matches := [];
    var i := 0;
    while i < |walk|
      invariant 0 <= i <= |walk|
      invariant matches == Take(AllHits(walk[..i], m), max)
    {
      if |matches| >= max {
        CapReachedInWalk(walk[..i], walk[i..], m, max);
        assert walk[..i] + walk[i..] == walk;
        return;
      }
      AllHitsStep(walk, i, m);
      matches := ScanItem(walk[i], m, max, AllHits(walk[..i], m), matches);
      i := i + 1;
    }
    assert walk[..i] == walk;
  }

  /** `grep_search(path, pattern, max_results)`: NotFound for a missing root,
      otherwise the capped scan of the walk that skips every hidden name. */
  method GrepSearch(root: Node, path: Path, pattern: string, maxResults: Option<nat>,
                    parse: string -> Option<Finder>) returns (r: Result<seq<GrepMatch>, Error>)
    ensures r.Failure? <==> Lookup(root, path).None?
    ensures r.Failure? ==> r.error == NotFound(path)
    ensures r.Success? ==> |r.value| <= maxResults.GetOr(DefaultMaxResults)
    ensures r == SearchResult(root, path, pattern, maxResults, parse)
  {
    var max := maxResults.GetOr(DefaultMaxResults);
    var found := Lookup(root, path);
    if found.None? {
      return Failure(NotFound(path));
    }
    var m := Compile(pattern, parse);
    var matches := ScanWalk(Walk(found.value, [], Searching), m, max);
    return Success(matches);
  }

  /** The cap: never more than `max` results (100 when none is given), none
      at all for a cap of 0, and a smaller cap gives a prefix of the results
      of a larger one, so nothing is appended once the cap is reached. */
  lemma SearchCap(root: Node, path: Path, pattern: string, parse: string -> Option<Finder>, small: nat, large: nat)
    requires small <= large
    requires Lookup(root, path).Some?
    ensures var a := SearchResult(root, path, pattern, Some(small), parse);
            var b := SearchResult(root, path, pattern, Some(large), parse);
            a.Success? && b.Success? && |a.value| <= small && a.value == b.value[..|a.value|]
            && (|a.value| < small ==> a.value == b.value)
    ensures SearchResult(root, path, pattern, Some(0), parse) == Success([])
    ensures |SearchResult(root, path, pattern, None, parse).value| <= 100
  {
  }

  /** Every hit comes from a scanned note of the walk: its path is the note's
      root-relative path, its line is a line of the note, its offsets are the
      first match on that line. */
  lemma {:induction false} HitProvenance(vs: seq<Visit>, p: Pattern, h: GrepMatch)
    requires h in AllHits(vs, p)
    ensures exists v :: v in vs && IsScanned(v) && HitOfLine(h, Render(v.rel), Lines(v.node.content.value), p)
    decreases |vs|
  {
    var last := vs[|vs| - 1];
    if h in AllHits(vs[..|vs| - 1], p) {
      HitProvenance(vs[..|vs| - 1], p, h);
      var v :| v in vs[..|vs| - 1] && IsScanned(v) && HitOfLine(h, Render(v.rel), Lines(v.node.content.value), p);
      assert v in vs;
    } else {
      assert h in FileHits(last, p);
      var lines := Lines(last.node.content.value);
      LineHitsSound(Render(last.rel), lines, p, |lines|);
    }
  }

  /** The results of `grep_search` come only from markdown files, readable as
      text, none of whose path names is hidden; the root's own name is not
      hidden either. Each satisfies start <= end <= length of its line. */
  lemma SearchHitsAdmitted(root: Node, path: Path, pattern: string, maxResults: Option<nat>,
                           parse: string -> Option<Finder>, h: GrepMatch)
    requires SearchResult(root, path, pattern, maxResults, parse).Success?
    requires h in SearchResult(root, path, pattern, maxResults, parse).value
    ensures !IsHidden(Lookup(root, path).value.name)
    ensures exists v :: && v in Walk(Lookup(root, path).value, [], Searching)
                        && IsScanned(v)
                        && AdmittedPath(v.rel, Searching)
                        && h.filepath == Render(v.rel)
                        && HitOfLine(h, h.filepath, Lines(v.node.content.value), Compile(pattern, parse))
    ensures h.matchStart <= h.matchEnd <= |h.lineContent| && h.lineNumber >= 1
  {
    var n := Lookup(root, path).value;
    var m := Compile(pattern, parse);
    var all := AllHits(Walk(n, [], Searching), m);
    var res := SearchResult(root, path, pattern, maxResults, parse).value;
    assert res == all[..|res|];
    assert h in all;
    WalkHitAdmitted(n, m, h);
  }

  /** A hit of the uncapped scan comes from a scanned note reached through
      non-hidden names only, below a root whose own name is not hidden. */
  lemma WalkHitAdmitted(n: Node, m: Pattern, h: GrepMatch)
    requires h in AllHits(Walk(n, [], Searching), m)
    ensures !IsHidden(n.name)
    ensures exists v :: && v in Walk(n, [], Searching)
                        && IsScanned(v)
                        && AdmittedPath(v.rel, Searching)
                        && h.filepath == Render(v.rel)
                        && HitOfLine(h, h.filepath, Lines(v.node.content.value), m)
    ensures h.matchStart <= h.matchEnd <= |h.lineContent| && h.lineNumber >= 1
  {
    var walk := Walk(n, [], Searching);
    HitProvenance(walk, m, h);
    var v :| v in walk && IsScanned(v) && HitOfLine(h, Render(v.rel), Lines(v.node.content.value), m);
    WalkItemAdmitted(n, Searching, v);
  }

  /** Soft failures: an item that is not scanned (a walk error, an unreadable
      file, a directory, a file that is not a note) can be removed from the
      walk without changing the hits. */
  lemma SkippedItemsInvisible(a: seq<Visit>, x: Visit, b: seq<Visit>, p: Pattern)
    requires !IsScanned(x)
    ensures AllHits(a + [x] + b, p) == AllHits(a + b, p)
  {
    AllHitsAppend(a + [x], b, p);
    AllHitsAppend(a, [x], p);
    AllHitsAppend(a, b, p);
    assert [x][..0] == [];
    assert AllHits([x], p) == [];
    assert AllHits(a + [x], p) == AllHits(a, p);
  }
}
