/** Content matching: the whole text against the pattern, or, in verbose
    mode, its lines one by one until the first that matches. The pattern
    is the predicate `re`: `re(s)` holds when the regular expression
    matches somewhere in `s`. */
module Matcher {
  import opened Types

  /** The payload a non-verbose match returns. */
  const MatchedSentinel: string := "Matched"

  /** The position of the first line feed in `s`, or `|s|` when there is none. */
  function NewlineAt(s: string): (k: nat)
    ensures k <= |s|
    ensures k < |s| ==> s[k] == '\n'
    ensures forall j :: 0 <= j < k ==> s[j] != '\n'
  {
    if s == [] || s[0] == '\n' then 0 else 1 + NewlineAt(s[1..])
  }

  /** Drops one trailing carriage return. */
  function StripCr(x: string): string
  {
    if |x| > 0 && x[|x| - 1] == '\r' then x[..|x| - 1] else x
  }

  /** The lines of `s` as `str::lines` yields them: the text is cut after
      every line feed; a piece that ended with a line feed loses it and then
      one carriage return before it; a last piece without a line feed is
      kept as it is; an empty text has no lines. */
  function Lines(s: string): seq<string>
    decreases |s|
  {
    if s == [] then []
    else
      var k := NewlineAt(s);
      if k == |s| then [s]
      else [StripCr(s[..k])] + Lines(s[k + 1..])
  }

  /** Joins lines back into a text, each line followed by a line feed. */
  function Unlines(ls: seq<string>): string
  {
    if ls == [] then [] else ls[0] + "\n" + Unlines(ls[1..])
  }

  /** A line as `Lines` can produce it when no carriage returns are involved. */
  predicate PlainLine(l: string)
  {
    '\n' !in l && (|l| == 0 || l[|l| - 1] != '\r')
  }

  /** No line contains a line feed. */
  lemma {:induction false} LinesHaveNoNewline(s: string)
    ensures forall l :: l in Lines(s) ==> '\n' !in l
    decreases |s|
  {
    if s != [] {
      var k := NewlineAt(s);
      if k < |s| {
        LinesHaveNoNewline(s[k + 1..]);
        assert '\n' !in s[..k];
      }
    }
  }

  /** The first line feed of a line without line feeds followed by a line
      feed is the one right after the line. */
  lemma NewlineAfterLine(l: string, rest: string)
    requires '\n' !in l
    ensures NewlineAt(l + "\n" + rest) == |l|
  {
    var s := l + "\n" + rest;
    assert s[|l|] == '\n';
    assert forall j :: 0 <= j < |l| ==> s[j] == l[j];
  }

  /** Splitting joined lines gives the lines back. */
  lemma {:induction false} LinesUnlines(ls: seq<string>)
    requires forall i :: 0 <= i < |ls| ==> PlainLine(ls[i])
    ensures Lines(Unlines(ls)) == ls
  {
    if ls != [] {
      var s := Unlines(ls);
      var l := ls[0];
      assert PlainLine(l);
      assert s == l + "\n" + Unlines(ls[1..]);
      NewlineAfterLine(l, Unlines(ls[1..]));
      assert s[..|l|] == l && StripCr(l) == l;
      assert s[|l| + 1..] == Unlines(ls[1..]);
      assert Lines(s) == [l] + Lines(Unlines(ls[1..]));
      LinesUnlines(ls[1..]);
      assert ls == [l] + ls[1..];
    }
  }

  /** The first of `ls` that `re` accepts. */
  function FirstMatch(ls: seq<string>, re: string -> bool): Option<string>
  {
    if ls == [] then None
    else if re(ls[0]) then Some(ls[0])
    else FirstMatch(ls[1..], re)
  }

  /** `FirstMatch` gives the earliest line that `re` accepts, and `None`
      exactly when it accepts none: `i` is that line's position, or the
      number of lines when there is none. */
  lemma {:induction false} FirstMatchIsFirst(ls: seq<string>, re: string -> bool) returns (i: nat)
    ensures i <= |ls|
    ensures forall j :: 0 <= j < i ==> !re(ls[j])
    ensures i < |ls| ==> re(ls[i]) && FirstMatch(ls, re) == Some(ls[i])
    ensures i == |ls| <==> FirstMatch(ls, re) == None
  {
    if ls == [] {
      i := 0;
    } else if re(ls[0]) {
      i := 0;
    } else {
      var i' := FirstMatchIsFirst(ls[1..], re);
      i := i' + 1;
    }
  }

  /** What matching an opened file gives: `None` when the seek back to the
      start or the read fails; in verbose mode the first matching line; else
      the sentinel when the pattern matches anywhere in the whole text. */
  function MatchContent(f: OpenFile, re: string -> bool, verbose: bool): Option<string>
  {
    if f.seekFails || f.readToEndFails then None
    else if verbose then FirstMatch(Lines(f.text), re)
    else if re(f.text) then Some(MatchedSentinel)
    else None
  }

  /** The matcher's result in full: failures give `None`; without verbose the
      sentinel exactly when the whole text matches; with verbose some line
      of the text that matches with no matching line before it, and `None`
      exactly when no line matches. */
  lemma MatchContentMeaning(f: OpenFile, re: string -> bool, verbose: bool)
    ensures f.seekFails || f.readToEndFails ==> MatchContent(f, re, verbose) == None
    ensures !f.seekFails && !f.readToEndFails && !verbose ==>
              (MatchContent(f, re, verbose) == Some(MatchedSentinel) <==> re(f.text)) &&
              (MatchContent(f, re, verbose) == None <==> !re(f.text))
    ensures !f.seekFails && !f.readToEndFails && verbose ==>
              (MatchContent(f, re, verbose) == None <==>
                 forall j :: 0 <= j < |Lines(f.text)| ==> !re(Lines(f.text)[j]))
    ensures !f.seekFails && !f.readToEndFails && verbose && MatchContent(f, re, verbose).Some? ==>
              exists i :: 0 <= i < |Lines(f.text)| && Lines(f.text)[i] == MatchContent(f, re, verbose).value &&
                re(Lines(f.text)[i]) && forall j :: 0 <= j < i ==> !re(Lines(f.text)[j])
  {
    var ls := Lines(f.text);
    var i := FirstMatchIsFirst(ls, re);
    if !f.seekFails && !f.readToEndFails && verbose {
      if i < |ls| {
        assert re(ls[i]);
      }
    }
  }

  /** Seeks back to the start, reads the whole file and matches it, either
      as one text or line by line with an early return. */
  method FirstLineMatched(f: OpenFile, re: string -> bool, verbose: bool) returns (r: Option<string>)
    ensures r == MatchContent(f, re, verbose)
  {
    if !f.seekFails {
      if !f.readToEndFails {
        var content := f.text;
        if verbose {
          var ls := Lines(content);
          for i := 0 to |ls|
            invariant FirstMatch(ls[i..], re) == FirstMatch(ls, re)
          {
            assert ls[i..][1..] == ls[i + 1..];
            if re(ls[i]) {
              return Some(ls[i]);
            }
          }
        } else {
          if re(content) {
            return Some(MatchedSentinel);
          }
        }
      }
    }
    return None;
  }

  /** A pattern can match the whole text without matching any single line
      (here: one that needs a line feed), so non-verbose and verbose mode
      disagree on such a file. */
  lemma AcrossLinesOnlyWholeTextMatches()
    ensures var f := OpenFile([97, 98, 10, 99, 100], "ab\ncd", false, false, false);
            var re := (s: string) => '\n' in s;
            MatchContent(f, re, false) == Some(MatchedSentinel) && MatchContent(f, re, true) == None
  {
  }
}
