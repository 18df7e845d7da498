/** A small search, worked through: the root `/r` holds the directory
    `/r/a`, which holds a text file `/r/a/b.txt` ("hello\nworld") and a
    binary file `/r/a/img.bin`; below the root the walk also meets one
    unreadable entry. The root is searched for "wor" by content and for
    "\.txt$" by file name, deep enough to reach the files and, at maximum
    depth 1, not deep enough. The two patterns are written out as the predicates they stand
    for. */
module SearchExamples {
  import opened Types
  import opened Walk
  import opened Binary
  import opened Matcher
  import opened Finders

  /** The bytes of "hello\nworld". */
  const HelloWorldBytes: seq<byte> := [104, 101, 108, 108, 111, 10, 119, 111, 114, 108, 100]

  /** The root itself, which the walk yields first at depth 0. */
  const Root: Entry := Entry("/r", Unicode("r"), Directory, 0, None)
  const DirA: Entry := Entry("/r/a", Unicode("a"), Directory, 1, None)
  const TextFile: Entry :=
    Entry("/r/a/b.txt", Unicode("b.txt"), RegularFile, 2,
          Some(OpenFile(HelloWorldBytes, "hello\nworld", false, false, false)))
  const BinaryFile: Entry :=
    Entry("/r/a/img.bin", Unicode("img.bin"), RegularFile, 2,
          Some(OpenFile([137, 80, 0, 119, 111, 114], "\U{FFFD}P\0wor", false, false, false)))

  /** What walking the root to depth 1 yields: the root, `/r/a`, and the
      error met while listing the root. */
  const ShallowWalk: seq<WalkItem> := [Found(Root), Found(DirA)] + [WalkError]

  /** What walking the root to depth 2 or more yields: the same, then the
      two files. */
  const RootWalk: seq<WalkItem> := [Found(Root), Found(DirA)] + ([WalkError] + [Found(TextFile), Found(BinaryFile)])

  /** A walker for the root that keeps within the maximum depth `d`: the
      root alone at depth 0, `ShallowWalk` at depth 1 and `RootWalk` from
      depth 2. */
  function ExampleWalker(p: Path, d: nat): seq<WalkItem>
  {
    if p != "/r" then []
    else if d == 0 then [Found(Root)]
    else if d == 1 then ShallowWalk
    else RootWalk
  }

  /** The example walker never yields an entry deeper than asked. */
  lemma ExampleWalkerWithinDepth(depth: nat)
    ensures WithinDepth(["/r"], depth, ExampleWalker)
  {
  }

  /** "wor" starts at position `i` of the text. */
  predicate WorAt(s: string, i: nat)
  {
    i + 3 <= |s| && s[i] == 'w' && s[i + 1] == 'o' && s[i + 2] == 'r'
  }

  /** "wor" occurs somewhere in the text. */
  predicate HasWor(s: string)
  {
    exists i :: 0 <= i < |s| && WorAt(s, i)
  }

  /** The text ends in ".txt". */
  predicate EndsTxt(s: string)
  {
    |s| >= 4 && s[|s| - 4..] == ".txt"
  }

  /** Two entries are both kept, in order. */
  lemma KeepPair(w: Entry, x: Entry)
    ensures Successes([Found(w), Found(x)]) == [w, x]
  {
    assert [Found(w), Found(x)][1..] == [Found(x)];
    assert [Found(x)][1..] == [];
  }

  /** An error before two entries is dropped. */
  lemma DropLeadingError(y: Entry, z: Entry)
    ensures Successes([WalkError] + [Found(y), Found(z)]) == [y, z]
  {
    KeepPair(y, z);
    SuccessesOne(WalkError);
    SuccessesAppend([WalkError], [Found(y), Found(z)]);
  }

  /** Two entries, an error and two more entries keep the four entries, in
      order. */
  lemma SkipOneError(w: Entry, x: Entry, y: Entry, z: Entry)
    ensures Successes([Found(w), Found(x)] + ([WalkError] + [Found(y), Found(z)])) == [w, x, y, z]
  {
    KeepPair(w, x);
    DropLeadingError(y, z);
    SuccessesAppend([Found(w), Found(x)], [WalkError] + [Found(y), Found(z)]);
  }

  /** Aggregating the single root keeps its four entries in walk order and
      drops the error. */
  lemma ExampleEntries(depth: nat)
    requires depth >= 2
    ensures AllEntries(["/r"], depth, ExampleWalker) == [Root, DirA, TextFile, BinaryFile]
  {
    OneRoot("/r", depth, ExampleWalker);
    SkipOneError(Root, DirA, TextFile, BinaryFile);
  }

  /** The text of the text file splits into the lines "hello" and "world". */
  lemma HelloWorldLines()
    ensures Lines("hello\nworld") == ["hello", "world"]
  {
    var h, w := "hello", "world";
    assert "hello\nworld" == h + "\n" + w;
    assert PlainLine(h) && '\n' !in w;
    TwoLines(h, w);
  }

  /** A line, a line feed and a last line without one split into those two
      lines. */
  lemma TwoLines(a: string, b: string)
    requires PlainLine(a) && '\n' !in b && b != []
    ensures Lines(a + "\n" + b) == [a, b]
  {
    var s := a + "\n" + b;
    NewlineAfterLine(a, b);
    assert s[..|a|] == a && s[|a| + 1..] == b;
    assert NewlineAt(b) == |b|;
  }

  /** Four entries give the hits of each in turn. */
  lemma CollectFour(w: Entry, x: Entry, y: Entry, z: Entry, q: Query)
    requires Searchable(w, q) && Searchable(x, q) && Searchable(y, q) && Searchable(z, q)
    ensures AllSearchable([w, x, y, z], q)
    ensures Collect([w, x, y, z], q) == AsSeq(Hit(w, q)) + AsSeq(Hit(x, q)) + AsSeq(Hit(y, q)) + AsSeq(Hit(z, q))
  {
    var es := [w, x, y, z];
    assert es[..|es| - 1] == [w, x, y] && es[|es| - 1] == z;
    assert [w, x, y][..2] == [w, x] && [w, x, y][2] == y;
    assert [w, x][..1] == [w] && [w, x][1] == x;
    assert [w][..0] == [] && [w][0] == w;
    assert Collect([w], q) == AsSeq(Hit(w, q));
    assert Collect([w, x], q) == AsSeq(Hit(w, q)) + AsSeq(Hit(x, q));
    assert Collect([w, x, y], q) == AsSeq(Hit(w, q)) + AsSeq(Hit(x, q)) + AsSeq(Hit(y, q));
  }

  /** The text file has no zero byte, so it is not binary. */
  lemma TextFileNotBinary()
    ensures !IsBinary(TextFile.file.value)
  {
  }

  /** "wor" occurs in the whole text and in its second line, not in its first. */
  lemma WorFacts()
    ensures HasWor("hello\nworld") && HasWor("world") && !HasWor("hello")
  {
    assert WorAt("hello\nworld", 6);
    assert WorAt("world", 0);
  }

  /** Line by line, "wor" first matches the line "world". */
  lemma TextFileLineMatch()
    ensures MatchContent(TextFile.file.value, HasWor, true) == Some("world")
  {
    HelloWorldLines();
    WorFacts();
    assert ["hello", "world"][1..] == ["world"];
  }

  /** As a whole, the text matches "wor". */
  lemma TextFileWholeMatch()
    ensures MatchContent(TextFile.file.value, HasWor, false) == Some(MatchedSentinel)
  {
    WorFacts();
  }

  /** The text file matches "wor": as a plain path, or with the line "world". */
  lemma TextFileMatches(verbose: bool)
    ensures Hit(TextFile, ByContent(HasWor, verbose)) ==
            Some(if verbose then Verbose("/r/a/b.txt", "world") else Simple("/r/a/b.txt"))
  {
    TextFileNotBinary();
    TextFileLineMatch();
    TextFileWholeMatch();
  }

  /** The binary file is skipped although its bytes contain "wor". */
  lemma BinaryFileSkipped(verbose: bool)
    ensures Hit(BinaryFile, ByContent(HasWor, verbose)) == None
  {
    assert BinaryFile.file.value.bytes[2] == 0;
    assert IsBinary(BinaryFile.file.value);
  }

  /** Content search of the root (what `Finder` returns for the content
      search type) reports the text file once and never the binary one; in
      verbose mode with its first matching line. */
  lemma ContentExample(depth: nat, verbose: bool)
    requires depth >= 2
    ensures AllSearchable(AllEntries(["/r"], depth, ExampleWalker), QueryOf(HasWor, Content, verbose))
    ensures Collect(AllEntries(["/r"], depth, ExampleWalker), QueryOf(HasWor, Content, verbose)) ==
            [if verbose then Verbose("/r/a/b.txt", "world") else Simple("/r/a/b.txt")]
  {
    var q := ByContent(HasWor, verbose);
    assert QueryOf(HasWor, Content, verbose) == q;
    ExampleEntries(depth);
    assert Hit(Root, q) == None && Hit(DirA, q) == None;
    CollectFour(Root, DirA, TextFile, BinaryFile, q);
    TextFileMatches(verbose);
    BinaryFileSkipped(verbose);
  }

  /** File-name search of the root for "\.txt$" (what `Finder` returns for
      the file search type) reports the text file only, whatever the
      verbose flag. */
  lemma FileNameExample(depth: nat, verbose: bool)
    requires depth >= 2
    ensures AllSearchable(AllEntries(["/r"], depth, ExampleWalker), QueryOf(EndsTxt, File, verbose))
    ensures Collect(AllEntries(["/r"], depth, ExampleWalker), QueryOf(EndsTxt, File, verbose)) ==
            [Simple("/r/a/b.txt")]
  {
    ExampleEntries(depth);
    assert "b.txt"[1..] == ".txt";
    assert "img.bin"[3..] != ".txt";
    CollectFour(Root, DirA, TextFile, BinaryFile, ByName(EndsTxt, RegularFile));
  }

  /** At maximum depth 1 the walk keeps the root and `/r/a` and drops the
      error; at depth 0 it keeps the root alone. */
  lemma ShallowEntries()
    ensures AllEntries(["/r"], 1, ExampleWalker) == [Root, DirA]
    ensures AllEntries(["/r"], 0, ExampleWalker) == [Root]
  {
    OneRoot("/r", 1, ExampleWalker);
    OneRoot("/r", 0, ExampleWalker);
    KeepPair(Root, DirA);
    SuccessesOne(Found(Root));
    SuccessesOne(WalkError);
    SuccessesAppend([Found(Root), Found(DirA)], [WalkError]);
  }

  /** Two directories give no hit to a content or a file-name search. */
  lemma NoHitInDirectories(w: Entry, x: Entry, q: Query)
    requires w.kind == Directory && x.kind == Directory
    requires q.ByContent? || (q.ByName? && q.want == RegularFile)
    ensures AllSearchable([w, x], q)
    ensures Collect([w, x], q) == []
  {
    assert Hit(w, q) == None && Hit(x, q) == None;
    assert [w, x][..1] == [w] && [w, x][1] == x;
    assert [w][..0] == [];
    assert Collect([w], q) == [];
  }

  /** At maximum depth 1 the files lie too deep: both searches report
      nothing, and every result of any search of the root belongs to an
      entry of depth at most 1. */
  lemma ShallowSearchFindsNothing(verbose: bool)
    ensures AllSearchable(AllEntries(["/r"], 1, ExampleWalker), QueryOf(HasWor, Content, verbose))
    ensures Collect(AllEntries(["/r"], 1, ExampleWalker), QueryOf(HasWor, Content, verbose)) == []
    ensures AllSearchable(AllEntries(["/r"], 1, ExampleWalker), QueryOf(EndsTxt, File, verbose))
    ensures Collect(AllEntries(["/r"], 1, ExampleWalker), QueryOf(EndsTxt, File, verbose)) == []
  {
    ShallowEntries();
    NoHitInDirectories(Root, DirA, ByContent(HasWor, verbose));
    NoHitInDirectories(Root, DirA, ByName(EndsTxt, RegularFile));
  }
}
