/**
 * The values the search engine passes around: match entries, the result
 * buffer, the metrics snapshot, the run parameters, and the collaborators
 * the engine consults (file sizes and contents, character classes).
 */
module FinderTypes {

  datatype Option<T> = None | Some(value: T)

  /** One discovered occurrence: where, the context before it, the matched text and the trailing text. */
  datatype Entry = Entry(filePath: string, before: string, entry: string, after: string)
  {
    /** The before-context keeps at most this many characters. */
    static const MaxBeforeSize: nat := 16
    /** Declared for the trailing context; nothing derives `after` from the text. */
    static const MaxAfterChars: nat := 16
  }

  /** The result buffer: new entries plus the flag saying a restart came before them. */
  datatype EntryList = EntryList(first: bool, list: seq<Entry>)

  datatype Metrics = Metrics(scannedCount: nat, scannedSize: nat, totalCount: nat, totalSize: nat)

  datatype Params = Params(invalid: bool, done: bool, directory: string, pattern: string)

  /** The character classes of the helpers: unsupported characters and line separators. */
  datatype CharClasses = CharClasses(isUnsupported: char -> bool, isLineSep: char -> bool)
  {
    /** Characters that clear the context window. */
    predicate IsBreak(c: char)
    {
      isUnsupported(c) || isLineSep(c)
    }
  }

  /** A file the directory walk lists, with whether the user may read it. */
  datatype FileInfo = FileInfo(path: string, readable: bool)

  /**
   * The filesystem as the engine sees it: the size of each path, and the
   * text a path yields when opened (`None` when it fails to open).
   */
  datatype Env = Env(size: string -> nat, content: string -> Option<string>, chars: CharClasses)
}
