/** The two ends of the mapper: the CppCheck report tree as the XML decoder
    hands it over, and the Code Climate issue records it produces. */
module Report {
  import opened Wrappers

  // ---------------------------------------------------------------
  // CppCheck side: the decoded `<errors>` element
  // ---------------------------------------------------------------

  /** One `<location>` element: `file` and `line` always, `file0` (the
      translation unit a header was reached from) and `column` optional. */
  datatype Location = Location(file: string, file0: Option<string>, line: int, column: Option<int>)

  /** The decoder collapses a single `<location>` child into a scalar and
      gives a list only when there are several. */
  datatype LocationField = Single(loc: Location) | Many(locs: seq<Location>)

  /** One `<error>` element; `location` is absent for messages that are
      not about the code. */
  datatype RawError = RawError(
    id: string,
    severity: string,
    msg: string,
    cwe: Option<string>,
    location: Option<LocationField>)

  /** The `error` key of `<errors>`: one record, or a list of them. */
  datatype ErrorField = One(err: RawError) | List(errs: seq<RawError>)

  /** The `<errors>` element: missing from `results`, not a dictionary at
      all when it is empty, otherwise a dictionary that may or may not hold
      the `error` key. */
  datatype ErrorsNode = Absent | NotADict | ErrorsDict(error: Option<ErrorField>)

  // ---------------------------------------------------------------
  // Code Climate side
  // ---------------------------------------------------------------

  /** `{"path": ..., "positions": {"begin": {"line": ..., "column": ...}}}` */
  datatype IssueLocation = IssueLocation(path: string, line: int, column: int)

  /** One issue record. `otherLocations` and `content` stand for keys that
      are present only sometimes; `content` holds the text of `content.data`. */
  datatype Issue = Issue(
    kind: string,
    checkName: string,
    description: string,
    categories: seq<string>,
    location: IssueLocation,
    otherLocations: Option<seq<IssueLocation>>,
    content: Option<string>,
    fingerprint: string)

  /** The exceptions that abort a conversion: a dictionary lookup that
      fails (Python's KeyError, named by its key) and indexing an empty
      location list (Python's IndexError). */
  datatype ConvertError = MissingKey(key: string) | IndexOutOfRange
}
