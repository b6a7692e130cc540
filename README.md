# cppcheck-codequality: the report conversion, in Dafny

cppcheck-codequality turns the XML report of the CppCheck C/C++ linter into
the JSON list of issues that Code Climate (and GitLab's Code Quality view)
reads. This project models the heart of that conversion, `__convert` and
`__get_codeclimate_category` in `src/__init__.py`, and proves what the conversion
promises about its output.

The model works on the `<errors>` element after XML decoding:

- `Report` (report.dfy) holds the decoded input. A CppCheck record (`RawError`) has
  a rule id, a severity, a message, an optional CWE and an optional `location`.
  That location is one location or a list of them. The module also holds the
  output `Issue`, and the exceptions a conversion can raise (`ConvertError`):
  `KeyError` becomes `MissingKey(key)` and `IndexError` becomes `IndexOutOfRange`.
- `Category` (category.dfy) holds the severity-to-category table.
- `Text` (text.dfy) holds the string operations the conversion relies on:
  - `split("\n")` and its inverse `Join`;
  - Python's `str.strip`, with the whitespace set of `str.isspace`;
  - `str(int)` and its inverse `ParseInt`.
- `Fingerprint` (fingerprint.dfy) rounds a line up to a multiple of ten and
  builds the key string that the digest is taken of.
- `Convert` (convert.dfy) holds the conversion itself, in two forms:
  - a specification: `IssueOf` for one record, and `ConvertAll` and
    `ConvertDocument` for the document. The document form is also proved
    equal to a declarative reference: keep the located records, convert each
    one, and stop at the first exception (`Wrappers.Collect`);
  - imperative methods that follow the program statement by statement:
    `Convert` for the loop over the records, `ConvertRecord` for building
    one issue and `OtherLocations` for the loop over secondary locations.
    Each method is proved equal to its specification.
- `Wrappers` (wrappers.dfy) holds `Option` and `Result`.

Two calls into other code become parameters:

- `linecache.getline` becomes a `LineReader`, a function from a path and a line
  number to the line's text.
- `hashlib.md5(...).hexdigest()` becomes a `Digest`, a function from strings to
  strings.

The model follows the code of `src/__init__.py` where other descriptions of
the tool differ. `check_name` is the bare rule id. No output `severity`
field is produced. The description of a list location does not mention
`file0`. `__convert` returns the JSON text alone, not a count beside it.

## Model

| member | source | states |
|---|---|---|
| Category.CategoryTableShape | src/__init__.py:54-69 | A severity has a category exactly when it is one of the six CppCheck severities. error and warning map to "Bug Risk", style and information to "Style", performance to "Performance", portability to "Compatibility", and only these map to each category. No category contains a newline. |
| Convert.IssueCategories | src/__init__.py:168-170 | The categories of a converted record are exactly the table's category followed by the raw severity. Splitting the category on newlines leaves it whole. |
| Convert.IssueFailsExactly | src/__init__.py:164-195 | A located record fails to convert exactly when one of three things holds: its severity is not in the table; its location is an empty list; or its location is a list with an element that lacks a column. An unknown severity raises the KeyError for that severity. |
| Convert.IssueFields | src/__init__.py:163-218 | A converted issue has type "issue", check_name equal to the rule id, and the description and content of its message and CWE. |
| Convert.SingleLocation | src/__init__.py:196-207 | A single location ignores `file0` and reads a missing column as column 0. The issue's location is that location's file and line, with its column or 0 when there is none. It never gives `other_locations`. |
| Convert.ListLocations | src/__init__.py:175-195 | With a list of locations, the primary path is element 0's `file0` when present and otherwise its `file`. The primary line and column are element 0's. `other_locations` is present exactly when there are at least two elements. It then holds elements 1 to n-1 in order, each with its own file, line and column. |
| Convert.OneElementList | src/__init__.py:175-203 | A one-element list with a column and no `file0` converts like the same location given alone. |
| Convert.DescriptionKeepsMessage | src/__init__.py:209-214 | The message always ends the description. Without a CWE it is the whole description. With one, the description is the message after a `[CWE-id] ` tag. |
| Convert.ContentLinksCwe | src/__init__.py:209-218 | `content` is present exactly when the record names a CWE. Its text is "Refer to " and a Markdown link labelled `CWE-id`, whose target is the CWE list's address followed by `id.html`. |
| Convert.IssueFingerprint | src/__init__.py:228-242 | The fingerprint is the digest of a key built from the issue's own path and line, its rule, and the stripped source line at that path and line. |
| Fingerprint.RoundUpToTen | src/__init__.py:233 | The rounded line is a multiple of ten, at least the line and less than ten above it. |
| Fingerprint.RoundUpToTenIsLeast | src/__init__.py:233 | No other multiple of ten lies in that range, so the rounding equals the ceiling of line/10, times ten. |
| Fingerprint.SameDecade | src/__init__.py:233 | Two lines round alike exactly when they lie in the same decade 10k+1 .. 10k+10. |
| Fingerprint.KeyDependsOnDecade | src/__init__.py:230-238 | For one path, rule and code line, two fingerprint keys are equal exactly when the two lines lie in the same decade. |
| Convert.ConvertRecord | src/__init__.py:160-245 | Building one issue statement by statement gives exactly `IssueOf`: the same issue or the same exception. |
| Convert.OtherLocations | src/__init__.py:184-195 | The loop over the secondary locations gives exactly the specified `other_locations`: none for fewer than two locations, the KeyError for a missing column, and otherwise elements 1 to n-1 in order. |
| Convert.Convert | src/__init__.py:138-249 | The loop over the records gives exactly `ConvertDocument`. Every case is covered: a missing `<errors>` element (the KeyError for `errors`), a non-dictionary `<errors>`, a missing `error` key, a single record and a list of records. |
| Convert.ConvertAllIsCollect | src/__init__.py:154-245 | Converting the records step by step equals the declarative conversion: keep the records that have a location, convert each one, and gather the issues up to the first exception. |
| Wrappers.CollectSpec | src/__init__.py:154-245 | Gathering results succeeds exactly when every result succeeds, and then keeps every value in order. Otherwise it is the first failure, with every earlier result a success. |
| Convert.ConvertAllMapsLocated | src/__init__.py:154-245 | The conversion succeeds exactly when every located record converts. It then holds one issue per located record, in document order. Otherwise it raises the exception of the first located record that fails. |
| Convert.FailureIsFinal | src/__init__.py:154-245 | Once a prefix of the records raises, the whole conversion raises the same exception, with no partial output. |
| Convert.LocatedMembers | src/__init__.py:158-161 | The records that are converted are exactly the records that have a location. |
| Convert.LocatedAppend | src/__init__.py:154-161 | Keeping the located records commutes with concatenation, so document order is kept. |
| Convert.SingleRecordIsOneElementList | src/__init__.py:145-148 | An `error` key holding one record converts exactly like a list holding that record. |
| Convert.NothingToDo | src/__init__.py:138-143 | An `<errors>` element that is not a dictionary gives the empty list. So does an empty list of records. |
| Text.JoinSplit | src/__init__.py:168 | Joining the pieces of a split with the separator gives back the original string. |
| Text.SplitPiecesLackSeparator | src/__init__.py:168 | No piece of a split contains the separator. |
| Text.SplitWithoutSeparator | src/__init__.py:168 | Splitting a string that does not contain the separator gives that string alone. |
| Text.StripSpec | src/__init__.py:228 | Stripping keeps a contiguous middle part of the string. Everything removed from either end is whitespace, and the result neither starts nor ends with whitespace. |
| Text.StripIdempotent | src/__init__.py:228 | Stripping twice is stripping once. |
| Text.IntToStringRoundTrip | src/__init__.py:233 | Reading back the decimal text of any integer gives that integer. |
| Text.IntToStringInjective | src/__init__.py:233 | Different integers have different decimal texts. |

## Left out

- XML decoding (`xmltodict.parse`) and JSON encoding (`json.dumps`): the model starts from the decoded `<errors>` element and ends with the list of issues.
- The empty-document case, where `__convert` returns `True` rather than JSON text (lines 131-133). It is not modelled, because it happens before the `<errors>` element exists.
- The CppCheck version comparison and its warning (lines 135-136). This also leaves out the KeyError raised when `results` or `cppcheck` is missing. A missing `errors` element is modelled: its KeyError (line 141) is `MissingKey("errors")`.
- Logging, everywhere.
- `convert_file`, `__init_logging`, `__get_args`, `main` and `src/__main__.py`. They are file and command-line handling and are not part of this model.
- `linecache.getline` and `hashlib.md5` are parameters rather than models. The model proves what the fingerprint is computed from, not properties of MD5.
- The attributes `@id`, `@msg`, `@severity`, `@file` and `@line` are required fields of `RawError` and `Location`. The model therefore does not capture the KeyError a record raises when one of them is missing. Four KeyErrors are modelled: a missing `errors` element (line 141), a missing `error` key (line 145), an unknown severity (line 69, reached from line 168) and a missing `@column` (lines 182 and 191).
- The text of `@line` and `@column` is taken as already parsed. The ValueError that `int()` raises on text that is not a number is not modelled.
- Fingerprint.RoundUpToTen: computes the ceiling exactly. The program's `math.ceil(line / 10.0)` goes through a float, which can lose precision for lines beyond 2^53; that is floating point and is not modelled.
- The shallow copies of `CODE_QUAL_ELEMENT` (lines 163 and 185) share the nested `location` dictionaries. Every shared field is overwritten before each `deepcopy`, so the records produced are unaffected. The model builds each issue as a fresh value and does not represent this sharing.
- The rewrite of `error` into a one-element list inside the decoded dictionary (lines 145-148) is modelled on a local value. The caller never sees the decoded dictionary again.
- An `error` entry that is not a dictionary is not modelled. The XML decoder turns an `<error/>` without attributes into `None`, on which the `"location" not in error` test at line 160 raises a TypeError. It turns a text-only `<error>` into a string, which line 160 skips unless the text contains "location". CppCheck never writes such elements, and the model captures neither the TypeError nor the skip.
