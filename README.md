# where — search engine model

`where` is a command-line tool that searches a list of filesystem roots for
directories or files whose name matches a regular expression, or for files
whose content matches it, optionally showing the first matching line. This
project models its search engine in Dafny and proves what each part
delivers:

- the search-type parser (`dir`, `file`, `content`);
- entry aggregation, which walks every root to the maximum depth, drops the
  walker's error items and appends the roots' entries in root order;
- the binary detector, which reads up to 1024 bytes and looks for a zero byte;
- the matcher, which matches the whole text, or in verbose mode the lines
  one by one with an early return, after seeking back to the start of the file;
- the three search strategies and the dispatch on the search type.

Modules, one per component of `src/main.rs`:

- `types.dfy` (`Types`): entries, files, results, and `SearchType` with its parser.
- `walk.dfy` (`Walk`): `entry_builder`.
- `binary.dfy` (`Binary`): `binary_checker`.
- `matcher.dfy` (`Matcher`): `str::lines` and `first_line_matched`.
- `finders.dfy` (`Finders`): `dir_finder`, `file_finder`, `content_finder` and `finder`.
- `examples.dfy` (`SearchExamples`): a small search worked through as lemmas. The root `/r`
  holds `/r/a/b.txt` ("hello\nworld") and a binary `/r/a/img.bin`, and its walk
  also meets one error. It is searched to maximum depth 2 or more, which
  reaches the files, and to depth 1, which does not.

How the outside world enters the model:

- The regular expression is a predicate `re: string -> bool`. `re(s)` holds
  when the expression matches somewhere in `s`.
- The directory walker is a function `walker(root, depth)`. It gives the
  items a depth-bounded walk of `root` yields, entries and errors alike.
- An entry records four things:
  - its path;
  - its base name, as text or as a name that is not valid Unicode;
  - what `is_dir`/`is_file` say about it;
  - its depth.

  It also holds the file that `File::open` gives, or `None` when the open fails.
- A file is its bytes, plus the text that lossy UTF-8 decoding makes of them.
  It also records whether each of its three I/O calls fails:
  - the detector's `read`;
  - the matcher's `seek`;
  - the matcher's `read_to_end`.

The engine's loops are methods. `EntryBuilder`, `BinaryChecker`,
`FirstLineMatched`, `DirFinder`, `FileFinder`, `SearchEntry`, `ContentFinder` and `Finder`
each keep the source's control flow. Each is proved equal to a
specification function (`AllEntries`, `IsBinary`, `MatchContent`, and
`Collect` over a per-entry `Hit`). The lemmas state what those
functions mean.

Points of the code's behaviour that the model keeps:

- The entries of several roots come in root order: each root's entries are
  appended after those of the roots before it.
- A non-verbose content search matches the pattern against the whole text,
  not line by line. So an anchored pattern that matches one line need not
  match the file, and a pattern that needs a line feed can match the file
  while matching no line (`Matcher.AcrossLinesOnlyWholeTextMatches`).
- `content_finder` takes the result lock before it reads and matches the
  file, not only while it appends. This changes no result, and the model
  is sequential.
- A name search unwraps the conversion of a name to text. A non-Unicode
  name of an entry of the searched kind panics. The model demands Unicode
  names of those entries (`Finders.AllSearchable`).

## Model

| member | source | states |
|---|---|---|
| `Types.FromStr` | src/main.rs:27-34 | "dir", "file" and "content" parse to `Dir`, `File` and `Content`, each exactly for that string; every other string gives the error "no match" |
| `Types.FromStrTypeName` | src/main.rs:24-34 | parsing the accepted spelling of each search type gives that type back |
| `Walk.Successes` | src/main.rs:74-78 | the kept entries are exactly the walk's `Ok` items, and there are no more of them than items |
| `Walk.SuccessesOne` | src/main.rs:76 | a single `Ok` item is kept as its entry, a single error item is dropped |
| `Walk.SuccessesAppend` | src/main.rs:74-78 | dropping errors from two runs of items one after the other gives the first run's entries followed by the second's, so walk order and repetitions are kept |
| `Walk.EntryBuilder` | src/main.rs:71-82 | the loop over the roots builds exactly `AllEntries`: each root's successful entries appended in root order |
| `Walk.AllEntriesAppend` | src/main.rs:73-80 | aggregating two lists of roots one after the other equals aggregating their concatenation (root order is kept) |
| `Walk.OneRoot` | src/main.rs:74-79 | one root contributes exactly its successful walk entries in walk order |
| `Walk.CollectedWasFound` | src/main.rs:71-81 | every collected entry was found (as an `Ok` item) by the walk of some root |
| `Walk.FoundIsCollected` | src/main.rs:71-81 | every entry the walk of one of the roots found is collected |
| `Walk.AllEntriesMember` | src/main.rs:71-81 | an entry is collected if and only if the walk of some root found it (errors never appear) |
| `Walk.AllEntriesDepth` | src/main.rs:74-76 | when the walker keeps within the maximum depth, every collected entry is no deeper than it |
| `Binary.BinaryChecker` | src/main.rs:105-114 | the buffer-filling read and the zero scan answer exactly `IsBinary`: the read succeeded and a zero byte lies among the first min(length, 1024) bytes |
| `Binary.NotBinaryWithoutBytes` | src/main.rs:108-113 | a failed read or an empty file is never binary |
| `Binary.ZeroWithinProbeIsBinary` | src/main.rs:107-111 | a zero byte at a position below 1024 makes a readable file binary |
| `Binary.OnlyProbeMatters` | src/main.rs:107-109 | two files whose reads agree on the first 1024 bytes are both binary or both not |
| `Binary.TailIgnored` | src/main.rs:107-109 | bytes appended after the first 1024 never change whether a file is binary |
| `Matcher.LinesHaveNoNewline` | src/main.rs:90 | no line of a text contains a line feed |
| `Matcher.LinesUnlines` | src/main.rs:90 | splitting lines joined with line feeds gives the lines back, for lines without line feeds and without a trailing carriage return |
| `Matcher.FirstMatchIsFirst` | src/main.rs:90-94 | the line found is the earliest line the pattern accepts, with no earlier accepted line, and nothing is found exactly when no line is accepted |
| `Matcher.MatchContentMeaning` | src/main.rs:84-103 | a seek or read failure gives `None`; non-verbose gives "Matched" exactly when the whole text matches; verbose gives a matching line of the text with no matching line before it, and `None` exactly when no line matches |
| `Matcher.FirstLineMatched` | src/main.rs:84-103 | the seek, read and early-return line loop compute exactly `MatchContent` |
| `Matcher.AcrossLinesOnlyWholeTextMatches` | src/main.rs:89-99 | a pattern that needs a line feed matches a two-line file in non-verbose mode but gives nothing in verbose mode |
| `Finders.DirFinder` | src/main.rs:135-150 | the loop over the collected entries gives exactly `Collect` of the directory-name query over `AllEntries` |
| `Finders.FileFinder` | src/main.rs:152-167 | the loop over the collected entries gives exactly `Collect` of the file-name query over `AllEntries` |
| `Finders.SearchEntry` | src/main.rs:176-196 | the work done for one entry gives exactly its `ContentHit`: nothing unless it is a file that opens, is not binary and matches; then the path, with the matched line in verbose mode |
| `Finders.ContentFinder` | src/main.rs:169-201 | the loop over the collected entries, pushing what each entry gives, gives exactly `Collect` of the content query over `AllEntries` |
| `Finders.Finder` | src/main.rs:203-224 | the dispatch gives the results of the query for the search type, and a `Verbose` result only in a verbose content search |
| `Finders.CollectAppend` | src/main.rs:138-147 | processing two runs of entries one after the other gives the first run's results followed by the second's |
| `Finders.CollectExact` | src/main.rs:138-147 | every result is the hit of one entry, at increasing entry positions (at most one per entry, in entry order), and every entry with a hit gives a result |
| `Finders.CollectOrderIrrelevant` | src/main.rs:177-199 | processing any rearrangement of the entries gives the same multiset of results, so the parallel content search finds what the sequential one finds |
| `Finders.ResultShape` | src/main.rs:186-194 | a result carries a line exactly when the query is a verbose content search; name searches only give plain paths |
| `Finders.NameSearchExact` | src/main.rs:138-147 | a name search gives, in entry order and once each, exactly the paths of the entries of the wanted kind whose name matches |
| `Finders.ContentSearchExact` | src/main.rs:177-199 | a content search gives, in entry order and at most once each, exactly the files that open, are not binary and match; each result is the path with the matched line in verbose mode and the bare path otherwise |
| `Finders.NoBinaryResult` | src/main.rs:179-183 | a path that only belongs to non-files, unopenable files or binary files never appears in a content search's results |
| `Finders.ResultsWithinDepth` | src/main.rs:73-81 | when the walker keeps within the maximum depth, every search result is the path of an entry no deeper than that |
| `SearchExamples.ExampleEntries` | src/main.rs:71-82 | aggregating the root `/r` to maximum depth 2 or more keeps its four entries in walk order and drops the walk's error |
| `SearchExamples.ShallowEntries` | src/main.rs:73-77 | to maximum depth 1 only `/r` and `/r/a` are kept, and to depth 0 only `/r` |
| `SearchExamples.ShallowSearchFindsNothing` | src/main.rs:135-199 | to maximum depth 1 neither the content search for "wor" nor the file-name search for "\.txt$" reports anything, since the files lie at depth 2 |
| `SearchExamples.ContentExample` | src/main.rs:177-199 | to maximum depth 2 or more, content search of `/r` for "wor" reports only `/r/a/b.txt`, and in verbose mode with the line "world"; the binary `/r/a/img.bin` is skipped |
| `SearchExamples.FileNameExample` | src/main.rs:155-164 | to maximum depth 2 or more, file-name search of `/r` for "\.txt$" reports only `/r/a/b.txt` |

## Left out

- `main` and `Args`: command-line parsing, reading the `WHERE_TO_FIND`
  variable and coloured printing. These are I/O and outside libraries.
- `to_absolute_path`: it depends on `HOME`, the working directory and
  canonicalisation, which are environment and filesystem state.
- The directory walk itself: `walkdir`, its traversal order and its depth
  handling. The walker is a parameter, and depth limits are a hypothesis
  on it (`Walk.WithinDepth`).
- The `is_dir`/`is_file` queries: the entry's kind records their answers.
- The regular-expression engine: it is the predicate `re`, so regex syntax
  and semantics are not modelled.
- Lossy UTF-8 decoding: a file carries its decoded text next to its bytes,
  and the model does not relate the two.
- The non-Unicode name panic: it is excluded by a precondition, so the
  model does not describe the crash.
- `Binary.BinaryChecker`: the single `read` call is modelled as filling
  min(length, 1024) bytes. A short read that returns fewer bytes is not
  modelled.
- `Finders.ContentFinder`: it processes entries one after the other, where
  the source uses a thread pool. The rayon thread pool and the mutex are
  not modelled. Their only effect is the order of the results, which
  `Finders.CollectOrderIrrelevant` covers up to rearrangement.
- Open files and handles as objects: a file is a value with failure flags,
  so the handle's read position is not modelled. The matcher does not
  depend on that position because it seeks back to the start first.
