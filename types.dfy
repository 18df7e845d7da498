/** The values the search engine works on: the kind of search, the walked
    entries (with an abstract file behind each one) and the results. */
module Types {

  datatype Option<T> = None | Some(value: T)

  datatype Result<T, E> = Ok(value: T) | Err(error: E)

  newtype byte = b: int | 0 <= b < 256

  /** A path as the walker reports it; paths are compared, never parsed. */
  type Path = string

  /** The three kinds of search, as chosen on the command line. */
  datatype SearchType = Dir | File | Content

  /** The error `from_str` gives for an unknown search type. */
  const NoMatch: string := "no match"

  /** The text the command line accepts for each search type. */
  function TypeName(t: SearchType): string
  {
    match t
    case Dir => "dir"
    case File => "file"
    case Content => "content"
  }

  /** Parses a search type: exactly "dir", "file" and "content" are
      accepted, and every other string is rejected with "no match". */
  function FromStr(s: string): (r: Result<SearchType, string>)
    ensures r == Ok(Dir) <==> s == "dir"
    ensures r == Ok(File) <==> s == "file"
    ensures r == Ok(Content) <==> s == "content"
    ensures r.Err? <==> s != "dir" && s != "file" && s != "content"
    ensures r.Err? ==> r.error == NoMatch
  {
    match s
    case "dir" => Ok(Dir)
    case "file" => Ok(File)
    case "content" => Ok(Content)
    case _ => Err(NoMatch)
  }

  /** Parsing the accepted spelling of a search type gives that type back. */
  lemma FromStrTypeName(t: SearchType)
    ensures FromStr(TypeName(t)) == Ok(t)
  {
  }

  /** What `Path::is_dir` / `Path::is_file` say about an entry's path;
      `Other` is neither (a broken link, a socket, a vanished path). */
  datatype EntryKind = Directory | RegularFile | Other

  /** An entry's base name: either valid Unicode text, or an OS string
      that `to_str` cannot convert. */
  datatype FileName = Unicode(text: string) | NotUnicode

  /** An opened file: its bytes, the text `String::from_utf8_lossy` makes
      of them, and whether each of the three I/O calls made on the handle
      fails (the first `read` of the binary check, the `seek` back to the
      start and the `read_to_end` of the matcher). */
  datatype OpenFile = OpenFile(
    bytes: seq<byte>,
    text: string,
    firstReadFails: bool,
    seekFails: bool,
    readToEndFails: bool)

  /** One entry of a walk. `file` is what `File::open` on the path gives:
      `None` when the file cannot be opened. */
  datatype Entry = Entry(
    path: Path,
    name: FileName,
    kind: EntryKind,
    depth: nat,
    file: Option<OpenFile>)

  /** One item the directory walker yields: an entry or an error. */
  datatype WalkItem = Found(entry: Entry) | WalkError

  /** One result of a search: a path, or a path with its first matching line. */
  datatype SearchResult = Verbose(path: Path, line: string) | Simple(path: Path)
}
