/** The admission rule for directory entries and the markdown extension rule
    (src-tauri/src/commands/files.rs and search.rs). */
module Names {

  import opened Wrappers

  /** The vault's own metadata directory, the one hidden name the listings keep. */
  const MetaDir: string := ".graphnotes"

  /** A name is hidden when it starts with '.'. */
  predicate IsHidden(name: string) {
    |name| > 0 && name[0] == '.'
  }

  /** Which traversal is asking: the listings and the tree keep the metadata
      directory, the search keeps no hidden name at all. */
  datatype Admission = Listing | Searching

  /** Whether an entry with this name is kept (and, for a directory, entered). */
  predicate Admits(mode: Admission, name: string) {
    !IsHidden(name) || (mode == Listing && name == MetaDir)
  }

  /** The search keeps a subset of what the listings keep, and the two rules
      differ on the metadata directory alone. */
  lemma SearchAdmitsLess(name: string)
    ensures Admits(Searching, name) ==> Admits(Listing, name)
    ensures Admits(Listing, name) && !Admits(Searching, name) <==> name == MetaDir
  {
  }

  /** Index of the last '.' in `s`, if any. */
  function LastDot(s: string): (r: Option<nat>)
    ensures r.Some? ==> r.value < |s| && s[r.value] == '.'
                        && forall k :: r.value < k < |s| ==> s[k] != '.'
    ensures r.None? ==> forall k :: 0 <= k < |s| ==> s[k] != '.'
  {
    if |s| == 0 then None
    else if s[|s| - 1] == '.' then Some(|s| - 1)
    else LastDot(s[..|s| - 1])
  }

  /** Rust's `Path::extension` on a file name: the text after the last '.',
      except that ".." and names whose only dot is the leading one have none. */
  function Extension(name: string): (r: Option<string>)
    ensures r.Some? <==> name != ".." && exists i :: 0 < i < |name| && name[i] == '.'
    ensures r.Some? ==> exists i :: 0 < i < |name| && name[i] == '.'
                                    && name[i + 1..] == r.value
                                    && forall k :: i < k < |name| ==> name[k] != '.'
  {
    if name == ".." then None
    else match LastDot(name)
      case None => None
      case Some(i) => if i == 0 then None else Some(name[i + 1..])
  }

  /** A file counts as a note when its extension is exactly "md" or
      "markdown" (case-sensitive). */
  predicate IsMarkdown(name: string) {
    Extension(name) == Some("md") || Extension(name) == Some("markdown")
  }

  predicate HasSuffix(s: string, suffix: string) {
    |suffix| <= |s| && s[|s| - |suffix|..] == suffix
  }

  /** Independent reading of the extension rule: a name is a note exactly
      when it ends in ".md" or ".markdown" with something before that suffix. */
  lemma IsMarkdownBySuffix(name: string)
    ensures IsMarkdown(name) <==>
              ((|name| > 3 && HasSuffix(name, ".md")) || (|name| > 9 && HasSuffix(name, ".markdown")))
  {
    if IsMarkdown(name) {
      MarkdownHasSuffix(name);
    }
    SuffixIsMarkdown(name);
  }

  lemma MarkdownHasSuffix(name: string)
    requires IsMarkdown(name)
    ensures (|name| > 3 && HasSuffix(name, ".md")) || (|name| > 9 && HasSuffix(name, ".markdown"))
  {
    var n := |name|;
    var i := LastDot(name).value;
    var e := name[i + 1..];
    assert Extension(name) == Some(e);
    assert 0 < i && |e| == n - i - 1;
    if e == "md" {
      assert i == n - 3;
      assert name[n - 3..] == [name[n - 3]] + e;
    } else {
      assert i == n - 9;
      assert name[n - 9..] == [name[n - 9]] + e;
    }
  }

  lemma SuffixIsMarkdown(name: string)
    ensures (|name| > 3 && HasSuffix(name, ".md")) ==> IsMarkdown(name)
    ensures (|name| > 9 && HasSuffix(name, ".markdown")) ==> IsMarkdown(name)
  {
    var n := |name|;
    if |name| > 3 && HasSuffix(name, ".md") {
      assert name[n - 3..] == ".md";
      assert name[n - 3] == '.' && name[n - 2] == 'm' && name[n - 1] == 'd';
      MarkdownTail(name, n - 3, "md");
    }
    if |name| > 9 && HasSuffix(name, ".markdown") {
      assert name[n - 9..] == ".markdown";
      assert name[n - 9] == '.';
      forall k | n - 9 < k < n
        ensures name[k] != '.'
      {
        assert name[k] == ".markdown"[k - (n - 9)];
      }
      MarkdownTail(name, n - 9, "markdown");
    }
  }

  /** A dot at index i > 0 followed by a dot-free tail makes that tail the
      extension. */
  lemma MarkdownTail(name: string, i: nat, e: string)
    requires 0 < i < |name| && name[i] == '.' && name[i + 1..] == e
    requires forall k :: i < k < |name| ==> name[k] != '.'
    requires e != ""
    ensures Extension(name) == Some(e)
  {
    assert name != "..";
    var d := LastDot(name);
    assert d.Some? && d.value == i;
  }
}
