/** The pattern compiler of `grep_search`: a regular expression when the
    pattern parses, otherwise the pattern taken literally. The regex engine
    itself is abstract; the literal matcher is concrete. */
module Matching {

  import opened Wrappers

  /** Offsets of one match within a line: `line[start..end]`. */
  datatype Span = Span(start: nat, end: nat)

  /** A match, if any, lies within the line. Empty matches are allowed. */
  predicate SpanIn(o: Option<Span>, line: string) {
    o.Some? ==> o.value.start <= o.value.end <= |line|
  }

  /** What a compiled regex offers: the leftmost match in a line. All this
      model knows of the engine is that its matches lie within the line. */
  type Finder = f: string -> Option<Span> | forall line :: SpanIn(f(line), line)
    witness (line: string) => None

  /** `needle` occurs in `line` at offset `i`. */
  predicate OccursAt(needle: string, line: string, i: nat) {
    i + |needle| <= |line| && line[i..i + |needle|] == needle
  }

  /** The first occurrence of `needle` in `line` at or after `from`. */
  function FindFrom(needle: string, line: string, from: nat): (r: Option<Span>)
    ensures r.Some? ==> from <= r.value.start && OccursAt(needle, line, r.value.start)
                        && r.value.end == r.value.start + |needle|
                        && forall j :: from <= j < r.value.start ==> !OccursAt(needle, line, j)
    ensures r.None? ==> forall j :: from <= j ==> !OccursAt(needle, line, j)
    decreases |line| - from
  {
    if from + |needle| > |line| then None
    else if line[from..from + |needle|] == needle then Some(Span(from, from + |needle|))
    else FindFrom(needle, line, from + 1)
  }

  /** The regex built from `regex::escape(needle)`: the leftmost literal
      occurrence of `needle`. */
  function FindLiteral(needle: string, line: string): (r: Option<Span>)
    ensures SpanIn(r, line)
    ensures r.Some? ==> OccursAt(needle, line, r.value.start) && r.value.end == r.value.start + |needle|
                        && forall j :: 0 <= j < r.value.start ==> !OccursAt(needle, line, j)
    ensures r.None? <==> forall j :: 0 <= j ==> !OccursAt(needle, line, j)
  {
    FindFrom(needle, line, 0)
  }

  /** A compiled pattern. */
  datatype Pattern = Regex(find: Finder) | Literal(text: string)

  /** `Regex::new(pattern)`, falling back to the escaped literal when the
      pattern does not compile. `parse` stands for the regex library. The
      escaped form is taken to compile, which holds within the library's
      size limit. */
  function Compile(pattern: string, parse: string -> Option<Finder>): (r: Pattern)
    ensures r.Literal? <==> parse(pattern).None?
    ensures r.Literal? ==> r.text == pattern
    ensures parse(pattern).Some? ==> r == Regex(parse(pattern).value)
  {
    match parse(pattern)
    case Some(f) => Regex(f)
    case None => Literal(pattern)
  }

  /** `regex.find(line)`. */
  function Find(p: Pattern, line: string): (r: Option<Span>)
    ensures SpanIn(r, line)
  {
    match p
    case Regex(f) => f(line)
    case Literal(text) => FindLiteral(text, line)
  }

  /** Literal fallback: a pattern the regex library rejects matches a line
      exactly when the line contains the pattern as text, at its leftmost
      occurrence. */
  lemma LiteralFallback(pattern: string, parse: string -> Option<Finder>, line: string)
    requires parse(pattern).None?
    ensures Find(Compile(pattern, parse), line).Some? <==> exists i: nat :: OccursAt(pattern, line, i)
    ensures Find(Compile(pattern, parse), line).Some? ==>
              var sp := Find(Compile(pattern, parse), line).value;
              line[sp.start..sp.end] == pattern && forall j :: 0 <= j < sp.start ==> !OccursAt(pattern, line, j)
  {
  }

  /** "a(b" is not a valid regex (the group is never closed); searching for it
      finds the text "a(b" instead of failing. */
  lemma UnbalancedGroupIsLiteral(parse: string -> Option<Finder>)
    requires parse("a(b").None?
    ensures Find(Compile("a(b", parse), "x a(b y") == Some(Span(2, 5))
  {
    var line := "x a(b y";
    assert line[0..3][0] == 'x';
    assert line[1..4][0] == ' ';
    assert line[2..5] == "a(b";
  }

  /** The empty pattern matches every line, with an empty match at offset 0. */
  lemma EmptyLiteralMatchesEverywhere(line: string)
    ensures Find(Literal(""), line) == Some(Span(0, 0))
  {
    assert OccursAt("", line, 0);
  }
}
