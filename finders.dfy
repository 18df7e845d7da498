/** The search strategies: directory names, file names and file contents,
    each a filter over the collected entries that turns the kept entries
    into results, and the dispatch on the search type. */
module Finders {
  import opened Types
  import opened Walk
  import opened Binary
  import opened Matcher

  /** What one entry is tested for: its name (for entries of kind `want`)
      or its content. */
  datatype Query =
    | ByName(re: string -> bool, want: EntryKind)
    | ByContent(re: string -> bool, verbose: bool)

  /** The query each search type runs; name searches ignore `verbose`. */
  function QueryOf(re: string -> bool, st: SearchType, verbose: bool): Query
  {
    match st
    case Dir => ByName(re, Directory)
    case File => ByName(re, RegularFile)
    case Content => ByContent(re, verbose)
  }

  /** A name search converts the name of every entry of the kind it looks
      for to text; that conversion must succeed. */
  predicate Searchable(e: Entry, q: Query)
  {
    q.ByName? && e.kind == q.want ==> e.name.Unicode?
  }

  predicate AllSearchable(es: seq<Entry>, q: Query)
  {
    forall i :: 0 <= i < |es| ==> Searchable(es[i], q)
  }

  /** What a content search makes of one entry: nothing unless it is a file
      that opens, is not binary and matches; then the path, with the matched
      line in verbose mode. */
  ghost function ContentHit(e: Entry, re: string -> bool, verbose: bool): Option<SearchResult>
  {
    if e.kind == RegularFile && e.file.Some? && !IsBinary(e.file.value) then
      match MatchContent(e.file.value, re, verbose)
      case Some(line) => Some(if verbose then Verbose(e.path, line) else Simple(e.path))
      case None => None
    else None
  }

  /** What a query makes of one entry. */
  ghost function Hit(e: Entry, q: Query): Option<SearchResult>
    requires Searchable(e, q)
  {
    match q
    case ByName(re, want) => if e.kind == want && re(e.name.text) then Some(Simple(e.path)) else None
    case ByContent(re, verbose) => ContentHit(e, re, verbose)
  }

  function AsSeq(o: Option<SearchResult>): seq<SearchResult>
  {
    match o
    case Some(r) => [r]
    case None => []
  }

  /** The results of a query over entries processed in order. */
  ghost function Collect(es: seq<Entry>, q: Query): seq<SearchResult>
    requires AllSearchable(es, q)
  {
    if es == [] then []
    else Collect(es[..|es| - 1], q) + AsSeq(Hit(es[|es| - 1], q))
  }

  /** Processing one more entry appends that entry's hit. */
  lemma CollectStep(es: seq<Entry>, i: nat, q: Query)
    requires i < |es| && AllSearchable(es, q)
    ensures AllSearchable(es[..i], q) && AllSearchable(es[..i + 1], q)
    ensures Collect(es[..i + 1], q) == Collect(es[..i], q) + AsSeq(Hit(es[i], q))
  {
    assert es[..i + 1][..i] == es[..i];
    assert es[..i + 1][i] == es[i];
  }

  /** Collects the entries of all roots and keeps the directories whose
      name matches. */
  method DirFinder(roots: seq<Path>, re: string -> bool, depth: nat, walker: (Path, nat) -> seq<WalkItem>)
    returns (results: seq<SearchResult>)
    requires AllSearchable(AllEntries(roots, depth, walker), ByName(re, Directory))
    ensures results == Collect(AllEntries(roots, depth, walker), ByName(re, Directory))
  {
    results := [];
    var entries := EntryBuilder(roots, depth, walker);
    for i := 0 to |entries|
      invariant results == Collect(entries[..i], ByName(re, Directory))
    {
      var entry := entries[i];
      CollectStep(entries, i, ByName(re, Directory));
      if entry.kind == Directory {
        if re(entry.name.text) {
          results := results + [Simple(entry.path)];
        }
      }
    }
    assert entries[..|entries|] == entries;
  }

  /** Collects the entries of all roots and keeps the files whose name
      matches. */
  method FileFinder(roots: seq<Path>, re: string -> bool, depth: nat, walker: (Path, nat) -> seq<WalkItem>)
    returns (results: seq<SearchResult>)
    requires AllSearchable(AllEntries(roots, depth, walker), ByName(re, RegularFile))
    ensures results == Collect(AllEntries(roots, depth, walker), ByName(re, RegularFile))
  {
    results := [];
    var entries := EntryBuilder(roots, depth, walker);
    for i := 0 to |entries|
      invariant results == Collect(entries[..i], ByName(re, RegularFile))
    {
      var entry := entries[i];
      CollectStep(entries, i, ByName(re, RegularFile));
      if entry.kind == RegularFile {
        if re(entry.name.text) {
          results := results + [Simple(entry.path)];
        }
      }
    }
    assert entries[..|entries|] == entries;
  }

  /** The work the content search does for one entry: a file that opens
      and is not binary is matched, and a match gives the result to push. */
  method SearchEntry(entry: Entry, re: string -> bool, verbose: bool) returns (hit: Option<SearchResult>)
    ensures hit == ContentHit(entry, re, verbose)
  {
    hit := None;
    if entry.kind == RegularFile {
      match entry.file
      case Some(file) =>
        var binary := BinaryChecker(file);
        if !binary {
          var matchedLine := FirstLineMatched(file, re, verbose);
          if matchedLine.Some? {
            if verbose {
              hit := Some(Verbose(entry.path, matchedLine.value));
            } else {
              hit := Some(Simple(entry.path));
            }
          }
        }
      case None =>
    }
  }

  /** Collects the entries of all roots and pushes the result of every entry
      that gives one; entries are processed one after the other. */
  method ContentFinder(roots: seq<Path>, re: string -> bool, depth: nat, verbose: bool,
                       walker: (Path, nat) -> seq<WalkItem>)
    returns (results: seq<SearchResult>)
    ensures results == Collect(AllEntries(roots, depth, walker), ByContent(re, verbose))
  {
    results := [];
    var entries := EntryBuilder(roots, depth, walker);
    for i := 0 to |entries|
      invariant results == Collect(entries[..i], ByContent(re, verbose))
    {
      CollectStep(entries, i, ByContent(re, verbose));
      var hit := SearchEntry(entries[i], re, verbose);
      if hit.Some? {
        results := results + [hit.value];
      }
    }
    assert entries[..|entries|] == entries;
  }

  /** Runs the strategy the search type selects. */
  method Finder(roots: seq<Path>, re: string -> bool, st: SearchType, depth: nat, verbose: bool,
                walker: (Path, nat) -> seq<WalkItem>)
    returns (results: seq<SearchResult>)
    requires AllSearchable(AllEntries(roots, depth, walker), QueryOf(re, st, verbose))
    ensures results == Collect(AllEntries(roots, depth, walker), QueryOf(re, st, verbose))
    ensures forall k :: 0 <= k < |results| && results[k].Verbose? ==> st == Content && verbose
  {
    match st {
      case Dir =>
        results := DirFinder(roots, re, depth, walker);
      case File =>
        results := FileFinder(roots, re, depth, walker);
      case Content =>
        results := ContentFinder(roots, re, depth, verbose, walker);
    }
    assert QueryOf(re, st, verbose).ByContent? ==> st == Content && QueryOf(re, st, verbose).verbose == verbose;
    ResultShape(AllEntries(roots, depth, walker), QueryOf(re, st, verbose));
  }

  /** Processing two runs of entries one after the other gives the results
      of the first followed by those of the second. */
  lemma {:induction false} CollectAppend(a: seq<Entry>, b: seq<Entry>, q: Query)
    requires AllSearchable(a, q) && AllSearchable(b, q)
    ensures AllSearchable(a + b, q)
    ensures Collect(a + b, q) == Collect(a, q) + Collect(b, q)
    decreases |b|
  {
    assert forall i :: 0 <= i < |a + b| ==> (a + b)[i] == if i < |a| then a[i] else b[i - |a|];
    if b == [] {
      assert a + b == a;
    } else {
      var b' := b[..|b| - 1];
      assert (a + b)[..|a + b| - 1] == a + b';
      assert (a + b)[|a + b| - 1] == b[|b| - 1];
      CollectAppend(a, b', q);
    }
  }

  /** The positions of the entries that give a result, in entry order. */
  ghost function HitPositions(es: seq<Entry>, q: Query): seq<nat>
    requires AllSearchable(es, q)
  {
    if es == [] then []
    else HitPositions(es[..|es| - 1], q) + (if Hit(es[|es| - 1], q).Some? then [|es| - 1] else [])
  }

  /** Result `k` is the hit of the entry at the `k`-th hit position. */
  lemma {:induction false} HitPositionsSound(es: seq<Entry>, q: Query)
    requires AllSearchable(es, q)
    ensures |HitPositions(es, q)| == |Collect(es, q)|
    ensures forall k :: 0 <= k < |HitPositions(es, q)| ==>
              HitPositions(es, q)[k] < |es| && Hit(es[HitPositions(es, q)[k]], q) == Some(Collect(es, q)[k])
    decreases |es|
  {
    if es != [] {
      var n := |es| - 1;
      var front := es[..n];
      assert forall i :: 0 <= i < n ==> front[i] == es[i];
      HitPositionsSound(front, q);
      var idx, idx' := HitPositions(es, q), HitPositions(front, q);
      var rs, rs' := Collect(es, q), Collect(front, q);
      forall k | 0 <= k < |idx'|
        ensures idx[k] < |es| && Hit(es[idx[k]], q) == Some(rs[k])
      {
        assert idx[k] == idx'[k] && rs[k] == rs'[k] && es[idx'[k]] == front[idx'[k]];
      }
    }
  }

  /** The hit positions lie within the entries and strictly increase. */
  lemma {:induction false} HitPositionsIncrease(es: seq<Entry>, q: Query)
    requires AllSearchable(es, q)
    ensures forall k :: 0 <= k < |HitPositions(es, q)| ==> HitPositions(es, q)[k] < |es|
    ensures forall k, l :: 0 <= k < l < |HitPositions(es, q)| ==> HitPositions(es, q)[k] < HitPositions(es, q)[l]
    decreases |es|
  {
    if es != [] {
      var front := es[..|es| - 1];
      assert forall i :: 0 <= i < |front| ==> front[i] == es[i];
      HitPositionsIncrease(front, q);
    }
  }

  /** Every entry that gives a result is at a hit position. */
  lemma {:induction false} HitPositionsComplete(es: seq<Entry>, q: Query)
    requires AllSearchable(es, q)
    ensures forall i :: 0 <= i < |es| && Hit(es[i], q).Some? ==> i in HitPositions(es, q)
    decreases |es|
  {
    if es != [] {
      var n := |es| - 1;
      var front := es[..n];
      assert forall i :: 0 <= i < n ==> front[i] == es[i];
      HitPositionsComplete(front, q);
      forall i | 0 <= i < |es| && Hit(es[i], q).Some?
        ensures i in HitPositions(es, q)
      {
        if i < n {
          assert front[i] == es[i];
          assert i in HitPositions(front, q);
        }
      }
    }
  }

  /** The results are exactly the hits of the entries, in entry order, at
      most one per entry: `idx[k]` is the entry that gave result `k`, the
      positions increase, and every entry with a hit is among them. */
  lemma CollectExact(es: seq<Entry>, q: Query) returns (idx: seq<nat>)
    requires AllSearchable(es, q)
    ensures |idx| == |Collect(es, q)|
    ensures forall k :: 0 <= k < |idx| ==> idx[k] < |es| && Hit(es[idx[k]], q) == Some(Collect(es, q)[k])
    ensures forall k, l :: 0 <= k < l < |idx| ==> idx[k] < idx[l]
    ensures forall i :: 0 <= i < |es| && Hit(es[i], q).Some? ==> i in idx
  {
    idx := HitPositions(es, q);
    HitPositionsSound(es, q);
    HitPositionsIncrease(es, q);
    HitPositionsComplete(es, q);
  }

  /** Taking one entry out of the middle of a run and processing it last
      leaves the multiset of results unchanged. */
  lemma MoveToEnd(left: seq<Entry>, x: Entry, right: seq<Entry>, q: Query)
    requires AllSearchable(left, q) && AllSearchable(right, q) && Searchable(x, q)
    ensures AllSearchable(left + [x] + right, q) && AllSearchable(left + right, q)
    ensures multiset(Collect(left + [x] + right, q)) == multiset(Collect(left + right, q) + AsSeq(Hit(x, q)))
  {
    CollectAppend(left, right, q);
    CollectAppend(left, [x], q);
    CollectAppend(left + [x], right, q);
    assert [x][..0] == [];
    assert Collect([x], q) == AsSeq(Hit(x, q));
  }

  /** Every slice of searchable entries is searchable. */
  lemma SliceSearchable(es: seq<Entry>, q: Query, lo: nat, hi: nat)
    requires AllSearchable(es, q) && lo <= hi <= |es|
    ensures AllSearchable(es[lo..hi], q)
  {
  }

  /** Two rearrangements of the same non-empty entries: the last entry of
      `a` sits at `j` in `b`, and what is left on both sides is again a
      rearrangement. */
  lemma FindLast(a: seq<Entry>, b: seq<Entry>) returns (j: nat)
    requires a != [] && multiset(a) == multiset(b)
    ensures j < |b| && b[j] == a[|a| - 1]
    ensures b == b[..j] + [a[|a| - 1]] + b[j + 1..]
    ensures multiset(a[..|a| - 1]) == multiset(b[..j] + b[j + 1..])
  {
    var n := |a| - 1;
    var x := a[n];
    assert a == a[..n] + [x];
    assert x in multiset(b);
    j :| 0 <= j < |b| && b[j] == x;
    assert b == b[..j] + [x] + b[j + 1..];
    assert multiset(a[..n]) == multiset(a) - multiset{x};
    assert multiset(b[..j] + b[j + 1..]) == multiset(b) - multiset{x};
  }

  /** The same split, with the searchable facts the results need. */
  lemma SplitLast(a: seq<Entry>, b: seq<Entry>, q: Query) returns (left: seq<Entry>, right: seq<Entry>)
    requires AllSearchable(a, q) && AllSearchable(b, q)
    requires a != [] && multiset(a) == multiset(b)
    ensures b == left + [a[|a| - 1]] + right
    ensures multiset(a[..|a| - 1]) == multiset(left + right)
    ensures AllSearchable(a[..|a| - 1], q) && AllSearchable(left, q) && AllSearchable(right, q)
    ensures Searchable(a[|a| - 1], q)
  {
    var j := FindLast(a, b);
    left, right := b[..j], b[j + 1..];
    SliceSearchable(a, q, 0, |a| - 1);
    SliceSearchable(b, q, 0, j);
    SliceSearchable(b, q, j + 1, |b|);
  }

  /** The order in which entries are processed does not change which
      results come out, only their order: processing any rearrangement of
      the entries gives the same multiset of results. */
  lemma {:induction false} CollectOrderIrrelevant(a: seq<Entry>, b: seq<Entry>, q: Query)
    requires AllSearchable(a, q) && AllSearchable(b, q)
    requires multiset(a) == multiset(b)
    ensures multiset(Collect(a, q)) == multiset(Collect(b, q))
    decreases |a|
  {
    if a != [] {
      var x, front := a[|a| - 1], a[..|a| - 1];
      var left, right := SplitLast(a, b, q);
      CollectOrderIrrelevant(front, left + right, q);
      MoveToEnd(left, x, right, q);
      assert Collect(a, q) == Collect(front, q) + AsSeq(Hit(x, q));
    }
  }

  /** Name searches only give plain paths; content searches give lines
      exactly in verbose mode. */
  lemma {:induction false} ResultShape(es: seq<Entry>, q: Query)
    requires AllSearchable(es, q)
    ensures forall k :: 0 <= k < |Collect(es, q)| ==>
              (Collect(es, q)[k].Verbose? <==> q.ByContent? && q.verbose)
  {
    var idx := CollectExact(es, q);
    forall k | 0 <= k < |Collect(es, q)|
      ensures Collect(es, q)[k].Verbose? <==> q.ByContent? && q.verbose
    {
      assert Hit(es[idx[k]], q) == Some(Collect(es, q)[k]);
    }
  }

  /** A name search gives exactly the paths of the entries of the wanted
      kind whose name matches, in entry order, one per entry. */
  lemma NameSearchExact(es: seq<Entry>, re: string -> bool, want: EntryKind) returns (idx: seq<nat>)
    requires AllSearchable(es, ByName(re, want))
    ensures |idx| == |Collect(es, ByName(re, want))|
    ensures forall k :: 0 <= k < |idx| ==>
              idx[k] < |es| && es[idx[k]].kind == want && re(es[idx[k]].name.text) &&
              Collect(es, ByName(re, want))[k] == Simple(es[idx[k]].path)
    ensures forall k, l :: 0 <= k < l < |idx| ==> idx[k] < idx[l]
    ensures forall i :: 0 <= i < |es| && es[i].kind == want && re(es[i].name.text) ==> i in idx
  {
    idx := CollectExact(es, ByName(re, want));
    forall i | 0 <= i < |es| && es[i].kind == want && re(es[i].name.text)
      ensures i in idx
    {
      assert Hit(es[i], ByName(re, want)).Some?;
    }
  }

  /** A content search gives, in entry order and at most once per entry,
      exactly the files that open, are not binary and whose content
      matches; each result is the path with the matched line in verbose
      mode and the plain path otherwise. */
  lemma ContentSearchExact(es: seq<Entry>, re: string -> bool, verbose: bool) returns (idx: seq<nat>)
    ensures |idx| == |Collect(es, ByContent(re, verbose))|
    ensures forall k :: 0 <= k < |idx| ==>
              idx[k] < |es| &&
              var e := es[idx[k]];
              e.kind == RegularFile && e.file.Some? && !IsBinary(e.file.value) &&
              MatchContent(e.file.value, re, verbose).Some? &&
              var line := MatchContent(e.file.value, re, verbose).value;
              Collect(es, ByContent(re, verbose))[k] == if verbose then Verbose(e.path, line) else Simple(e.path)
    ensures forall k, l :: 0 <= k < l < |idx| ==> idx[k] < idx[l]
    ensures forall i :: (0 <= i < |es| && es[i].kind == RegularFile && es[i].file.Some? &&
                         !IsBinary(es[i].file.value) && MatchContent(es[i].file.value, re, verbose).Some?)
                        ==> i in idx
  {
    idx := CollectExact(es, ByContent(re, verbose));
  }

  /** A path that only belongs to entries that are not files, do not open
      or are binary never appears among the results of a content search. */
  lemma NoBinaryResult(es: seq<Entry>, re: string -> bool, verbose: bool, p: Path)
    requires forall j :: 0 <= j < |es| && es[j].path == p ==>
               es[j].kind != RegularFile || es[j].file.None? || IsBinary(es[j].file.value)
    ensures forall k :: 0 <= k < |Collect(es, ByContent(re, verbose))| ==>
              Collect(es, ByContent(re, verbose))[k].path != p
  {
  }

  /** Every result carries the path of the entry it came from. */
  lemma HitKeepsPath(e: Entry, q: Query)
    requires Searchable(e, q) && Hit(e, q).Some?
    ensures Hit(e, q).value.path == e.path
  {
  }

  /** When the walker keeps within the maximum depth, every result of a
      search is the path of an entry no deeper than that. */
  lemma ResultsWithinDepth(roots: seq<Path>, depth: nat, walker: (Path, nat) -> seq<WalkItem>, q: Query)
    requires WithinDepth(roots, depth, walker)
    requires AllSearchable(AllEntries(roots, depth, walker), q)
    ensures forall k :: 0 <= k < |Collect(AllEntries(roots, depth, walker), q)| ==>
              exists e :: e in AllEntries(roots, depth, walker) && e.depth <= depth &&
                          e.path == Collect(AllEntries(roots, depth, walker), q)[k].path
  {
    var es := AllEntries(roots, depth, walker);
    var idx := CollectExact(es, q);
    AllEntriesDepth(roots, depth, walker);
    forall k | 0 <= k < |Collect(es, q)|
      ensures exists e :: e in es && e.depth <= depth && e.path == Collect(es, q)[k].path
    {
      var e := es[idx[k]];
      HitKeepsPath(e, q);
      assert e in es;
    }
  }
}
