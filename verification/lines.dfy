/** Rust's `str::lines`: split at '\n', drop one '\r' before each '\n', and
    yield no empty last line after a final newline. */
module LineSplit {

  import opened Wrappers

  /** Index of the first '\n' in `s`, if any. */
  function FirstNewline(s: string): (r: Option<nat>)
    ensures r.Some? ==> r.value < |s| && s[r.value] == '\n' && forall k :: 0 <= k < r.value ==> s[k] != '\n'
    ensures r.None? ==> forall k :: 0 <= k < |s| ==> s[k] != '\n'
  {
    if |s| == 0 then None
    else if s[0] == '\n' then Some(0)
    else match FirstNewline(s[1..])
      case None => None
      case Some(i) => Some(i + 1)
  }

  /** A line that was ended by '\n' loses one trailing '\r'. */
  function StripCR(l: string): string {
    if |l| > 0 && l[|l| - 1] == '\r' then l[..|l| - 1] else l
  }

  /** `s.lines()`. A last line without '\n' keeps any trailing '\r'. */
  function Lines(s: string): (r: seq<string>)
    ensures forall i, k :: 0 <= i < |r| && 0 <= k < |r[i]| ==> r[i][k] != '\n'
    ensures |r| <= |s|
    ensures s == [] <==> r == []
    decreases |s|
  {
    if |s| == 0 then []
    else match FirstNewline(s)
      case None => [s]
      case Some(i) => [StripCR(s[..i])] + Lines(s[i + 1..])
  }

  predicate NoNewline(l: string) {
    forall k :: 0 <= k < |l| ==> l[k] != '\n'
  }

  /** Every line followed by `eol`. */
  function Terminated(ls: seq<string>, eol: string): string
    decreases |ls|
  {
    if |ls| == 0 then "" else ls[0] + eol + Terminated(ls[1..], eol)
  }

  lemma SplitFirst(l: string, eol: string, rest: string)
    requires NoNewline(l)
    requires eol == "\n" || eol == "\r\n"
    ensures var s := l + eol + rest;
            var i := |l| + |eol| - 1;
            FirstNewline(s) == Some(i) && s[..i] == l + eol[..|eol| - 1] && s[i + 1..] == rest
  {
    var s := l + eol + rest;
    var i := |l| + |eol| - 1;
    assert s[i] == '\n';
    assert forall k :: 0 <= k < i ==> s[k] != '\n' by {
      forall k | 0 <= k < i
        ensures s[k] != '\n'
      {
        if k < |l| {
          assert s[k] == l[k];
        } else {
          assert s[k] == '\r';
        }
      }
    }
    assert s[..i] == l + eol[..|eol| - 1];
    assert s[i + 1..] == rest;
  }

  /** Splitting off one ended line: the rest is split on its own. */
  lemma LinesStep(l: string, eol: string, rest: string)
    requires NoNewline(l)
    requires eol == "\n" || eol == "\r\n"
    ensures Lines(l + eol + rest) == [StripCR(l + eol[..|eol| - 1])] + Lines(rest)
  {
    SplitFirst(l, eol, rest);
  }

  /** Lines ended by "\n" come back unchanged, provided none contains a
      newline or ends with '\r'. */
  lemma {:induction false} LinesOfTerminated(ls: seq<string>)
    requires forall i :: 0 <= i < |ls| ==> NoNewline(ls[i])
    requires forall i :: 0 <= i < |ls| ==> |ls[i]| == 0 || ls[i][|ls[i]| - 1] != '\r'
    ensures Lines(Terminated(ls, "\n")) == ls
    decreases |ls|
  {
    if |ls| > 0 {
      var l := ls[0];
      LinesStep(l, "\n", Terminated(ls[1..], "\n"));
      assert l + "\n"[..0] == l;
      assert StripCR(l) == l;
      LinesOfTerminated(ls[1..]);
      assert ls == [l] + ls[1..];
    }
  }

  /** Lines ended by "\r\n" come back unchanged whenever none contains a
      newline: the '\r' of each line ending is dropped. */
  lemma {:induction false} LinesOfCrlfTerminated(ls: seq<string>)
    requires forall i :: 0 <= i < |ls| ==> NoNewline(ls[i])
    ensures Lines(Terminated(ls, "\r\n")) == ls
    decreases |ls|
  {
    if |ls| > 0 {
      var l := ls[0];
      LinesStep(l, "\r\n", Terminated(ls[1..], "\r\n"));
      assert "\r\n"[..1] == "\r";
      assert StripCR(l + "\r") == l by {
        assert (l + "\r")[..|l|] == l;
      }
      LinesOfCrlfTerminated(ls[1..]);
      assert ls == [l] + ls[1..];
    }
  }

  /** A final newline adds no empty line: `s` and `s + "\n"` have the same
      lines when `s` does not already end with a line ending. */
  lemma {:induction false} FinalNewlineIgnored(s: string)
    requires |s| > 0 && s[|s| - 1] != '\n' && s[|s| - 1] != '\r'
    ensures Lines(s + "\n") == Lines(s)
    decreases |s|
  {
    var t := s + "\n";
    match FirstNewline(s)
    case None =>
      assert FirstNewline(t) == Some(|s|) by {
        assert t[|s|] == '\n';
        assert forall k :: 0 <= k < |s| ==> t[k] == s[k];
      }
      assert t[..|s|] == s;
      assert t[|s| + 1..] == [];
    case Some(i) =>
      assert FirstNewline(t) == Some(i) by {
        assert t[i] == '\n';
        assert forall k :: 0 <= k < |s| ==> t[k] == s[k];
      }
      assert t[..i] == s[..i];
      assert t[i + 1..] == s[i + 1..] + "\n";
      FinalNewlineIgnored(s[i + 1..]);
  }
}
