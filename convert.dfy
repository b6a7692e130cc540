/** The conversion of a decoded CppCheck `<errors>` element into the list
    of Code Climate issues: which records are kept, and how each kept
    record becomes one issue. */
module Convert {
  import opened Wrappers
  import opened Text
  import opened Report
  import opened Category
  import opened Fingerprint

  /** The `type` of every issue record. */
  const IssueType := "issue"

  /** Reads a source line: `(path, line)` to the line's text, `""` when the
      file or the line is not there (the contract of `linecache.getline`). */
  type LineReader = (string, int) -> string

  /** The message digest rendered as hexadecimal (MD5 in the program). */
  type Digest = string -> string

  // ---------------------------------------------------------------
  // One record, as a specification
  // ---------------------------------------------------------------

  /** The tag put in front of the message when the record names a CWE. */
  function CweTag(cweId: string): string
  {
    "[CWE-" + cweId + "] "
  }

  /** Where the entries of the public CWE list live. */
  const CweListUrl := "https://cwe.mitre.org/data/definitions/"

  /** The address of a CWE's entry in the public CWE list. */
  function CweUrl(cweId: string): string
  {
    CweListUrl + cweId + ".html"
  }

  /** The `content.data` text for a CWE: a Markdown link to its entry. */
  function CweReference(cweId: string): string
  {
    "Refer to [CWE-" + cweId + "](" + CweUrl(cweId) + ")"
  }

  /** The issue description: the message, after a `[CWE-id] ` tag when
      there is a CWE. */
  function Describe(msg: string, cwe: Option<string>): string
  {
    if cwe.Some? then CweTag(cwe.value) + msg else msg
  }

  /** The optional `content.data`, present only with a CWE. */
  function ContentOf(cwe: Option<string>): Option<string>
  {
    if cwe.Some? then Some(CweReference(cwe.value)) else None
  }

  /** The message is always kept whole at the end of the description;
      without a CWE it is the whole description, with one the description
      opens with `[CWE-id]`. */
  lemma DescriptionKeepsMessage(msg: string, cwe: Option<string>)
    ensures var d := Describe(msg, cwe);
            && |msg| <= |d| && d[|d| - |msg|..] == msg
            && (cwe.None? ==> d == msg)
            && (cwe.Some? ==> |d| == |msg| + 7 + |cwe.value| && d[..7 + |cwe.value|] == "[CWE-" + cwe.value + "] ")
  {
  }

  /** `content` is present exactly when there is a CWE; its text is the
      Markdown link labelled `CWE-id` whose target is the entry of that id
      in the CWE list. */
  lemma ContentLinksCwe(cwe: Option<string>)
    ensures ContentOf(cwe).Some? <==> cwe.Some?
    ensures cwe.Some? ==>
              var id := cwe.value;
              var data := ContentOf(cwe).value;
              var link := "Refer to [CWE-" + id;
              var url := CweUrl(id);
              && |data| == |link| + 2 + |url| + 1
              && data[..|link|] == link
              && data[|link|..|link| + 2] == "]("
              && data[|link| + 2..|data| - 1] == url
              && data[|data| - 1] == ')'
              && url[..|CweListUrl|] == CweListUrl
              && url[|CweListUrl|..|url| - 5] == id
              && url[|url| - 5..] == ".html"
  {
  }

  /** The primary location. Of a list, element 0, whose `file0` is
      preferred to its `file` and whose `column` must be present; a single
      location always gives its `file`, and a column of 0 when it has none. */
  function PrimaryOf(field: LocationField): Result<IssueLocation, ConvertError>
  {
    match field
    case Single(loc) => Success(IssueLocation(loc.file, loc.line, loc.column.GetOr(0)))
    case Many(locs) =>
      if |locs| == 0 then Failure(IndexOutOfRange)
      else if locs[0].column.None? then Failure(MissingKey("@column"))
      else Success(IssueLocation(locs[0].file0.GetOr(locs[0].file), locs[0].line, locs[0].column.value))
  }

  /** A secondary location keeps its own `file`, `line` and `column`. */
  function Secondary(loc: Location): IssueLocation
    requires loc.column.Some?
  {
    IssueLocation(loc.file, loc.line, loc.column.value)
  }

  /** Every location of the list has a column. */
  predicate HasColumns(locs: seq<Location>)
  {
    forall k :: 0 <= k < |locs| ==> locs[k].column.Some?
  }

  /** The secondary locations of a list of locations, one each, in order. */
  function Secondaries(locs: seq<Location>): (r: seq<IssueLocation>)
    requires HasColumns(locs)
    ensures |r| == |locs|
    ensures forall k :: 0 <= k < |locs| ==> r[k] == Secondary(locs[k])
  {
    if |locs| == 0 then []
    else Secondaries(locs[..|locs| - 1]) + [Secondary(locs[|locs| - 1])]
  }

  /** The optional `other_locations`: elements 1 .. n-1 of a list, each of
      which must have a column. */
  function OthersOf(field: LocationField): Result<Option<seq<IssueLocation>>, ConvertError>
  {
    match field
    case Single(_) => Success(None)
    case Many(locs) =>
      if |locs| < 2 then Success(None)
      else if !HasColumns(locs[1..]) then Failure(MissingKey("@column"))
      else Success(Some(Secondaries(locs[1..])))
  }

  /** The issue one located record becomes, or the exception raised while
      building it: the severity lookup first, then the primary location,
      then the secondary ones. */
  function IssueOf(e: RawError, lines: LineReader, digest: Digest): Result<Issue, ConvertError>
    requires e.location.Some?
  {
    match CategoryOf(e.severity)
    case None => Failure(MissingKey(e.severity))
    case Some(category) =>
      match PrimaryOf(e.location.value)
      case Failure(err) => Failure(err)
      case Success(primary) =>
        match OthersOf(e.location.value)
        case Failure(err) => Failure(err)
        case Success(others) =>
          var codeLine := Strip(lines(primary.path, primary.line));
          Success(Issue(
            IssueType,
            e.id,
            Describe(e.msg, e.cwe),
            Split(category, '\n') + [e.severity],
            primary,
            others,
            ContentOf(e.cwe),
            digest(FingerprintKey(primary.path, primary.line, e.id, codeLine))))
  }

  // ---------------------------------------------------------------
  // The whole document, as a specification
  // ---------------------------------------------------------------

  /** The `error` key read as a list, whether it holds one record or many. */
  function Records(field: ErrorField): seq<RawError>
  {
    match field
    case One(e) => [e]
    case List(es) => es
  }

  /** The records that have a location, in document order. */
  function Located(errs: seq<RawError>): (r: seq<RawError>)
    ensures |r| <= |errs|
    ensures forall k :: 0 <= k < |r| ==> r[k].location.Some?
  {
    if |errs| == 0 then []
    else
      var init := Located(errs[..|errs| - 1]);
      var e := errs[|errs| - 1];
      assert errs == errs[..|errs| - 1] + [e];
      if e.location.Some? then init + [e] else init
  }

  /** Each located record's own conversion, in order. */
  function Outcomes(located: seq<RawError>, lines: LineReader, digest: Digest): (r: seq<Result<Issue, ConvertError>>)
    requires forall k :: 0 <= k < |located| ==> located[k].location.Some?
    ensures |r| == |located|
  {
    if |located| == 0 then []
    else Outcomes(located[..|located| - 1], lines, digest) + [IssueOf(located[|located| - 1], lines, digest)]
  }

  /** One step of the conversion: a record after the ones converted so
      far. An earlier exception stands, a record without a location is
      skipped, and otherwise its issue is appended or its exception raised. */
  function Step(acc: Result<seq<Issue>, ConvertError>, e: RawError, lines: LineReader, digest: Digest): Result<seq<Issue>, ConvertError>
  {
    if acc.Failure? || e.location.None? then acc
    else
      match IssueOf(e, lines, digest)
      case Failure(err) => Failure(err)
      case Success(issue) => Success(acc.value + [issue])
  }

  /** Converting a list of records, one step per record in order. */
  function ConvertAll(errs: seq<RawError>, lines: LineReader, digest: Digest): Result<seq<Issue>, ConvertError>
  {
    if |errs| == 0 then Success([])
    else Step(ConvertAll(errs[..|errs| - 1], lines, digest), errs[|errs| - 1], lines, digest)
  }

  /** The conversion of an `<errors>` element: an exception when there is
      none, nothing to do when it is not a dictionary, an exception when it
      has no `error` key. */
  function ConvertDocument(errors: ErrorsNode, lines: LineReader, digest: Digest): Result<seq<Issue>, ConvertError>
  {
    match errors
    case Absent => Failure(MissingKey("errors"))
    case NotADict => Success([])
    case ErrorsDict(None) => Failure(MissingKey("error"))
    case ErrorsDict(Some(field)) => ConvertAll(Records(field), lines, digest)
  }

  // ---------------------------------------------------------------
  // The conversion, step by step
  // ---------------------------------------------------------------

  /** Builds the issue for one located record field by field, collecting
      the secondary locations in a loop. */
  method ConvertRecord(e: RawError, lines: LineReader, digest: Digest) returns (r: Result<Issue, ConvertError>)
    requires e.location.Some?
    ensures r == IssueOf(e, lines, digest)
  {
    var rule := e.id;
    var checkName := rule;
    var description := e.msg;
    var category := CategoryOf(e.severity);
    if category.None? {
      return Failure(MissingKey(e.severity));
    }
    var categories := Split(category.value, '\n');
    categories := categories + [e.severity];

    var path: string, line: int, column: int;
    var others: Option<seq<IssueLocation>> := None;
    match e.location.value {
      case Many(locs) =>
        if |locs| == 0 {
          return Failure(IndexOutOfRange);
        }
        path := if locs[0].file0.Some? then locs[0].file0.value else locs[0].file;
        line := locs[0].line;
        if locs[0].column.None? {
          return Failure(MissingKey("@column"));
        }
        column := locs[0].column.value;
        var collected := OtherLocations(locs);
        if collected.Failure? {
          return Failure(collected.error);
        }
        others := collected.value;
      case Single(loc) =>
        path := loc.file;
        line := loc.line;
        if loc.column.Some? {
          column := loc.column.value;
        } else {
          column := 0;
        }
    }

    var content: Option<string> := None;
    if e.cwe.Some? {
      description := CweTag(e.cwe.value) + description;
      content := Some(CweReference(e.cwe.value));
    }

    var codeLine := Strip(lines(path, line));
    var fingerprint := digest(FingerprintKey(path, line, rule, codeLine));
    r := Success(Issue(IssueType, checkName, description, categories,
                       IssueLocation(path, line, column), others, content, fingerprint));
  }

  /** Collects `other_locations` from elements 1 .. n-1 of a location
      list, creating the list at the first one and appending the rest. */
  method OtherLocations(locs: seq<Location>) returns (r: Result<Option<seq<IssueLocation>>, ConvertError>)
    ensures r == OthersOf(Many(locs))
  {
    var others: Option<seq<IssueLocation>> := None;
    if |locs| == 0 {
      return Success(others);
    }
    var i := 1;
    while i < |locs|
      invariant 1 <= i <= |locs|
      invariant HasColumns(locs[1..i])
      invariant others == if i == 1 then None else Some(Secondaries(locs[1..i]))
    {
      if locs[i].column.None? {
        assert locs[1..][i - 1] == locs[i];
        return Failure(MissingKey("@column"));
      }
      assert locs[1..i + 1][..i - 1] == locs[1..i];
      var other := IssueLocation(locs[i].file, locs[i].line, locs[i].column.value);
      if others.None? {
        others := Some([]);
      }
      others := Some(others.value + [other]);
      i := i + 1;
    }
    assert locs[1..i] == locs[1..];
    r := Success(others);
  }

  /** Converts an `<errors>` element: normalises `error` to a list, skips
      the records without a location and appends one issue per other
      record, in order. */
  method Convert(errors: ErrorsNode, lines: LineReader, digest: Digest) returns (r: Result<seq<Issue>, ConvertError>)
    ensures r == ConvertDocument(errors, lines, digest)
  {
    var out: seq<Issue> := [];
    if errors.Absent? {
      return Failure(MissingKey("errors"));
    }
    if errors.NotADict? {
      return Success(out);
    }
    if errors.error.None? {
      return Failure(MissingKey("error"));
    }
    var field := errors.error.value;
    if field.One? {
      field := List([field.err]);
    }
    var records := field.errs;
    assert records == Records(errors.error.value);

    var i := 0;
    while i < |records|
      invariant 0 <= i <= |records|
      invariant ConvertAll(records[..i], lines, digest) == Success(out)
    {
      var e := records[i];
      ConvertAllPrefix(records, i, lines, digest);
      if e.location.None? {
        i := i + 1;
        continue;
      }
      var issue := ConvertRecord(e, lines, digest);
      if issue.Failure? {
        FailureIsFinal(records, i + 1, lines, digest);
        return Failure(issue.error);
      }
      out := out + [issue.value];
      i := i + 1;
    }
    assert records[..i] == records;
    r := Success(out);
  }

  // ---------------------------------------------------------------
  // Properties of the document conversion
  // ---------------------------------------------------------------

  /** Converting one more record of a list is one more step. */
  lemma ConvertAllPrefix(errs: seq<RawError>, i: nat, lines: LineReader, digest: Digest)
    requires i < |errs|
    ensures ConvertAll(errs[..i + 1], lines, digest) == Step(ConvertAll(errs[..i], lines, digest), errs[i], lines, digest)
  {
    assert errs[..i + 1][..i] == errs[..i];
  }

  /** Once a prefix of the records has raised, the whole conversion raises
      the same exception: no partial output survives. */
  lemma {:induction false} FailureIsFinal(errs: seq<RawError>, n: nat, lines: LineReader, digest: Digest)
    requires n <= |errs|
    requires ConvertAll(errs[..n], lines, digest).Failure?
    ensures ConvertAll(errs, lines, digest) == ConvertAll(errs[..n], lines, digest)
    decreases |errs|
  {
    if n == |errs| {
      assert errs[..n] == errs;
    } else {
      var init := errs[..|errs| - 1];
      assert init[..n] == errs[..n];
      FailureIsFinal(init, n, lines, digest);
    }
  }

  /** Element `k` of the outcomes is the conversion of located record `k`. */
  lemma {:induction false} OutcomesAt(located: seq<RawError>, k: nat, lines: LineReader, digest: Digest)
    requires forall j :: 0 <= j < |located| ==> located[j].location.Some?
    requires k < |located|
    ensures Outcomes(located, lines, digest)[k] == IssueOf(located[k], lines, digest)
    decreases |located|
  {
    if k < |located| - 1 {
      var init := located[..|located| - 1];
      OutcomesAt(init, k, lines, digest);
    }
  }

  /** The outcomes of one more located record end with its conversion. */
  lemma OutcomesAppend(located: seq<RawError>, e: RawError, lines: LineReader, digest: Digest)
    requires forall k :: 0 <= k < |located| ==> located[k].location.Some?
    requires e.location.Some?
    ensures Outcomes(located + [e], lines, digest) == Outcomes(located, lines, digest) + [IssueOf(e, lines, digest)]
  {
    assert (located + [e])[..|located|] == located;
  }

  /** The step-by-step conversion of a list agrees with the declarative
      one: keep the located records, convert each, and gather the issues
      up to the first exception. */
  lemma {:induction false} ConvertAllIsCollect(errs: seq<RawError>, lines: LineReader, digest: Digest)
    ensures ConvertAll(errs, lines, digest) == Collect(Outcomes(Located(errs), lines, digest))
  {
    if |errs| > 0 {
      var init := errs[..|errs| - 1];
      var e := errs[|errs| - 1];
      ConvertAllIsCollect(init, lines, digest);
      assert ConvertAll(errs, lines, digest) == Step(ConvertAll(init, lines, digest), e, lines, digest);
      var li := Located(init);
      if e.location.Some? {
        assert Located(errs) == li + [e];
        OutcomesAppend(li, e, lines, digest);
        CollectAppend(Outcomes(li, lines, digest), IssueOf(e, lines, digest));
      } else {
        assert Located(errs) == li;
      }
    }
  }

  /** The conversion succeeds exactly when every located record converts;
      it then holds one issue per located record, in order, and otherwise
      raises the exception of the first located record that fails. */
  lemma ConvertAllMapsLocated(errs: seq<RawError>, lines: LineReader, digest: Digest)
    ensures var r := ConvertAll(errs, lines, digest);
            var located := Located(errs);
            && (r.Success? <==> forall k :: 0 <= k < |located| ==> IssueOf(located[k], lines, digest).Success?)
            && (r.Success? ==> (&& |r.value| == |located|
                  && forall k :: 0 <= k < |located| ==> r.value[k] == IssueOf(located[k], lines, digest).value))
            && (r.Failure? ==>
                  exists k :: (&& 0 <= k < |located|
                               && IssueOf(located[k], lines, digest) == Failure(r.error)
                               && forall j :: 0 <= j < k ==> IssueOf(located[j], lines, digest).Success?))
  {
    var located := Located(errs);
    var outs := Outcomes(located, lines, digest);
    ConvertAllIsCollect(errs, lines, digest);
    CollectSpec(outs);
    forall k | 0 <= k < |located|
      ensures outs[k] == IssueOf(located[k], lines, digest)
    {
      OutcomesAt(located, k, lines, digest);
    }
  }

  /** The located records are exactly the records that have a location. */
  lemma {:induction false} LocatedMembers(errs: seq<RawError>)
    ensures forall e :: e in Located(errs) <==> e in errs && e.location.Some?
  {
    if |errs| > 0 {
      var init := errs[..|errs| - 1];
      LocatedMembers(init);
      assert errs == init + [errs[|errs| - 1]];
    }
  }

  /** Keeping the located records commutes with concatenation, so the kept
      records stay in document order. */
  lemma {:induction false} LocatedAppend(a: seq<RawError>, b: seq<RawError>)
    ensures Located(a + b) == Located(a) + Located(b)
    decreases |b|
  {
    if |b| == 0 {
      assert a + b == a;
    } else {
      var b' := b[..|b| - 1];
      assert (a + b)[..|a + b| - 1] == a + b';
      LocatedAppend(a, b');
    }
  }

  /** A lone `error` record converts exactly as a one-element list. */
  lemma SingleRecordIsOneElementList(e: RawError, lines: LineReader, digest: Digest)
    ensures ConvertDocument(ErrorsDict(Some(One(e))), lines, digest)
         == ConvertDocument(ErrorsDict(Some(List([e]))), lines, digest)
  {
  }

  /** An `<errors>` element that is not a dictionary, or an empty list of
      records, gives the empty list of issues. */
  lemma NothingToDo(lines: LineReader, digest: Digest)
    ensures ConvertDocument(NotADict, lines, digest) == Success([])
    ensures ConvertDocument(ErrorsDict(Some(List([]))), lines, digest) == Success([])
  {
  }

  // ---------------------------------------------------------------
  // Properties of one issue
  // ---------------------------------------------------------------

  /** A record fails to convert exactly when its severity is not in the
      table, or its location is a list that is empty or has an element
      without a column. */
  lemma IssueFailsExactly(e: RawError, lines: LineReader, digest: Digest)
    requires e.location.Some?
    ensures IssueOf(e, lines, digest).Failure? <==>
              || e.severity !in Severities
              || (e.location.value.Many? && (|e.location.value.locs| == 0
                    || exists k :: 0 <= k < |e.location.value.locs| && e.location.value.locs[k].column.None?))
    ensures e.severity !in Severities ==> IssueOf(e, lines, digest) == Failure(MissingKey(e.severity))
  {
    var field := e.location.value;
    if field.Many? && |field.locs| > 0 && e.severity in Severities {
      var locs := field.locs;
      if exists k :: 0 <= k < |locs| && locs[k].column.None? {
        var k :| 0 <= k < |locs| && locs[k].column.None?;
        if k > 0 {
          assert exists j :: 1 <= j < |locs| && locs[j].column.None?;
        }
      }
    }
  }

  /** The categories are the table's category and then the raw severity:
      splitting the category on newlines leaves it whole. */
  lemma IssueCategories(e: RawError, lines: LineReader, digest: Digest)
    requires e.location.Some?
    requires IssueOf(e, lines, digest).Success?
    ensures e.severity in Severities
    ensures IssueOf(e, lines, digest).value.categories == [CategoryTable[e.severity], e.severity]
  {
    CategoryTableShape(e.severity);
    var category := CategoryTable[e.severity];
    assert CategoryOf(e.severity) == Some(category);
    SplitWithoutSeparator(category, '\n');
  }

  /** The fixed fields: `type` is "issue", `check_name` the rule id, the
      description and `content` follow the CWE rule. */
  lemma IssueFields(e: RawError, lines: LineReader, digest: Digest)
    requires e.location.Some?
    requires IssueOf(e, lines, digest).Success?
    ensures var issue := IssueOf(e, lines, digest).value;
            && issue.kind == "issue"
            && issue.checkName == e.id
            && issue.description == Describe(e.msg, e.cwe)
            && issue.content == ContentOf(e.cwe)
  {
  }

  /** A single location ignores `file0`, and a missing column reads as
      column 0. */
  lemma SingleLocation(e: RawError, lines: LineReader, digest: Digest)
    requires e.location.Some? && e.location.value.Single?
    ensures var loc := e.location.value.loc;
            var plain := e.(location := Some(Single(loc.(file0 := None, column := Some(loc.column.GetOr(0))))));
            IssueOf(e, lines, digest) == IssueOf(plain, lines, digest)
    ensures IssueOf(e, lines, digest).Success? ==>
              var loc := e.location.value.loc;
              && IssueOf(e, lines, digest).value.location == IssueLocation(loc.file, loc.line, loc.column.GetOr(0))
              && IssueOf(e, lines, digest).value.otherLocations.None?
  {
  }

  /** A one-element list converts like the same location given alone when
      that location has a column and no `file0`. */
  lemma OneElementList(e: RawError, loc: Location, lines: LineReader, digest: Digest)
    requires loc.column.Some? && loc.file0.None?
    ensures IssueOf(e.(location := Some(Many([loc]))), lines, digest)
         == IssueOf(e.(location := Some(Single(loc))), lines, digest)
  {
  }

  /** With a list, the primary location is element 0 (its `file0` if it
      has one), and `other_locations` holds elements 1 .. n-1 in order,
      present only when there are at least two. */
  lemma ListLocations(e: RawError, lines: LineReader, digest: Digest)
    requires e.location.Some? && e.location.value.Many?
    requires IssueOf(e, lines, digest).Success?
    ensures var locs := e.location.value.locs;
            var issue := IssueOf(e, lines, digest).value;
            && |locs| >= 1
            && issue.location.path == (if locs[0].file0.Some? then locs[0].file0.value else locs[0].file)
            && issue.location.line == locs[0].line
            && Some(issue.location.column) == locs[0].column
            && (issue.otherLocations.Some? <==> |locs| >= 2)
            && (issue.otherLocations.Some? ==>
                  && |issue.otherLocations.value| == |locs| - 1
                  && forall k :: 1 <= k < |locs| ==>
                       var other := issue.otherLocations.value[k - 1];
                       other.path == locs[k].file && other.line == locs[k].line
                       && Some(other.column) == locs[k].column)
  {
  }

  /** The fingerprint is the digest of the key built from the issue's own
      path and line, its rule and the stripped text of that source line. */
  lemma IssueFingerprint(e: RawError, lines: LineReader, digest: Digest)
    requires e.location.Some?
    requires IssueOf(e, lines, digest).Success?
    ensures var issue := IssueOf(e, lines, digest).value;
            var loc := issue.location;
            issue.fingerprint == digest(FingerprintKey(loc.path, loc.line, e.id, Strip(lines(loc.path, loc.line))))
  {
  }
}
