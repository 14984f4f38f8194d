# REDbot: Last-Modified validation, Accept-Ranges and the HTML report helpers

REDbot checks an HTTP resource and reports on it as notes: each note has a
kind, a category and a severity level. This project models three parts of
that, and proves properties about each model.

- **The Last-Modified validation check** (`LmValidation`). When the base
  response carries `Last-Modified`, the check repeats the request with an
  `If-Modified-Since` header. The header holds that instant as an IMF-fixdate
  (section 7.1.1.1 of RFC 7231), written from Python's
  `datetime.utcfromtimestamp` with the check's own day and month tables. The
  check then sorts the answer into one of five outcomes. Each outcome adds
  one note to the base resource, and two of them also set its
  `ims_support` flag.
- **Python's date conversion** (`Calendar`, `Decimal`). The proleptic
  Gregorian calendar, day ordinals, weekdays and `%.Nd` zero padding are
  modelled exactly as far as the check uses them. This includes the
  `ValueError` that Python raises for years outside 1..9999.
- **The `Accept-Ranges` header parser** (`AcceptRanges`) and its
  `UNKNOWN_RANGE` note. The parser's own five test cases are stated as
  lemmas.
- **The HTML formatter's logic** (`HtmlFormatter`):
  - the JavaScript string escaper `e_js`
  - the yes/no/unknown cell
  - the query string `req_qs` that links to another report
  - the summary table's problem registry and its URI truncation at 50
    characters (`format_droid`)
  - the choice of notes and sub-request links for one note category
    (`format_category`)

Classes model the objects that the source updates in place:

- `HttpResource` holds the base resource's flag and its list of notes.
- `LmValidate` is the check. Its `Preflight` and `Done` methods change only
  what their `modifies` clauses name.
- `TableHtmlFormatter` holds the problem list, which grows across the rows.

Pure logic is written as functions. Where a function has an inverse or an
independent definition, lemmas relate the two. For example, `ImfFixdate` is
related to `ParseImfFixdate`, `EJs` to `JsStringValue`, and `Links` to the
membership and order lemmas `LinksMembers` and `LinksAppend`. Small
functions such as `TruncateUri` and `WarningSuffix` state their property
only in their own `ensures`. `IncompleteText`, the error text of an
incomplete row, is given by its definition alone, and `FormatDroid`'s
`ensures` uses it directly.

Python's `None`, `True` and `False` for an undecided capability become
`TriState`'s `Unknown`, `Yes` and `No`. An absent optional string argument
(`None`) is the empty string wherever the source tests it only for
truthiness.

## Model

| member | source | states |
|---|---|---|
| `Decimal.Digits` | redbot/formatter/html.py:403-405 | `%i` of a warning count: a non-empty digit string without leading zeros that reads back as n, with as many digits as n needs; these are also the digits that `%.Nd` pads with zeros at redbot/resource/active_check/lm_validate.py:27-34 |
| `Decimal.ZeroPad` | redbot/resource/active_check/lm_validate.py:27-34 | `%.Nd` of n: digits that read back as n, at least N long, and exactly N long when n fits in N digits |
| `Calendar.FromOrdinal` | redbot/resource/active_check/lm_validate.py:24 | the day-number-to-date step of `utcfromtimestamp`: the result is a valid date whose ordinal is the given day number |
| `Calendar.OrdinalInjective` | redbot/resource/active_check/lm_validate.py:24 | distinct valid dates have distinct ordinals |
| `Calendar.FromOrdinalOfOrdinal` | redbot/resource/active_check/lm_validate.py:24 | converting a date to its ordinal and back gives the same date |
| `Calendar.YearRange` | redbot/resource/active_check/lm_validate.py:24-26 | a date's year lies in 1..9999 exactly when its ordinal lies in 1..3652059 |
| `Calendar.UtcFromTimestamp` | redbot/resource/active_check/lm_validate.py:23-26 | `utcfromtimestamp` on whole seconds: a valid date-time in years 1..9999 that converts back to the same timestamp; None, standing for `ValueError`, exactly when the timestamp is outside -62135596800..253402300799 |
| `Calendar.ToTimestampInjective` | redbot/resource/active_check/lm_validate.py:24 | distinct valid date-times have distinct timestamps |
| `Calendar.TimestampRoundTrip` | redbot/resource/active_check/lm_validate.py:24 | converting a representable date-time to a timestamp and back gives it again |
| `Calendar.WeekdayOfTimestamp` | redbot/resource/active_check/lm_validate.py:28 | the weekday of a converted timestamp is (days since epoch + 3) mod 7, because 1970-01-01 was a Thursday |
| `Calendar.ClockRoundTrip` | redbot/resource/active_check/lm_validate.py:32-34 | the seconds of a time of day split back into that hour, minute and second |
| `LmValidation.ImfFixdate` | redbot/resource/active_check/lm_validate.py:27-34 | the If-Modified-Since value built from the weekday and month tables is always 29 characters long, and the IMF-fixdate reader returns the same date and time from it |
| `LmValidation.MonthNumberOfName` | redbot/resource/active_check/lm_validate.py:17-18 | the month table's names are distinct, so each name gives back its own month number |
| `LmValidation.ModifyReqHdrs` | redbot/resource/active_check/lm_validate.py:20-36 | the base request headers are kept in order; one If-Modified-Since header is appended exactly when Last-Modified is present and its year is representable; its 29-character value denotes exactly the Last-Modified instant |
| `LmValidation.ModifyReqHdrsExample` | redbot/resource/active_check/lm_validate.py:27-35 | Last-Modified 1678000089 gives the header `Sun, 05 Mar 2023 07:08:09 GMT` |
| `LmValidation.Classify` | redbot/resource/active_check/lm_validate.py:45-65 | one "if and only if" per note kind: an incomplete probe gives LM_SUBREQ_PROBLEM with the error description; status 304 gives IMS_304 and the missing-header check; the same status and the same payload hash give IMS_FULL; the same status and a different hash give IMS_UNKNOWN; any other status gives IMS_STATUS with the status (or `(unknown)`). The flag becomes Yes with IMS_304 and No with IMS_FULL, and is otherwise unchanged |
| `LmValidation.ClassifyFlagFollowsLevel` | redbot/resource/active_check/lm_validate.py:69-127 | the flag changes only with the Good note (to Yes) and the Warn note (to No); the Bad and Info outcomes leave it as it was |
| `LmValidation.LmValidate.Preflight` | redbot/resource/active_check/lm_validate.py:38-43 | the check applies exactly when the base response has Last-Modified; otherwise the base flag becomes No; nothing else changes |
| `LmValidation.LmValidate.Done` | redbot/resource/active_check/lm_validate.py:45-65 | the base flag takes the classified value, exactly the classified note is appended to the base notes, and the five headers are checked on a 304 and only then |
| `AcceptRanges.Parse` | redbot/message/headers/accept_ranges.py:21-30 | the element is lowercased; an UNKNOWN_RANGE note (category Range, level Warn) naming the lowercased unit is raised exactly when the element is neither `bytes` nor `none` in any letter case |
| `AcceptRanges.ParseIdempotent` | redbot/message/headers/accept_ranges.py:21-25 | parsing the parser's own output gives the same value and the same note |
| `AcceptRanges.ParseCaseInsensitive` | redbot/message/headers/accept_ranges.py:22-23 | two elements parse alike exactly when they differ only in letter case |
| `AcceptRanges.AcceptRangeTest` | redbot/message/headers/accept_ranges.py:39-43 | `bytes` parses to `bytes` with no note |
| `AcceptRanges.NoneAcceptRangeTest` | redbot/message/headers/accept_ranges.py:45-49 | `none` parses to `none` with no note |
| `AcceptRanges.BothAcceptRangeTest` | redbot/message/headers/accept_ranges.py:51-55 | the elements `bytes`, `none` parse to `bytes`, `none` with no note |
| `AcceptRanges.BadAcceptRangeTest` | redbot/message/headers/accept_ranges.py:57-61 | `foo` parses to `foo` and raises UNKNOWN_RANGE naming `foo` |
| `AcceptRanges.CaseAcceptRangeTest` | redbot/message/headers/accept_ranges.py:63-67 | the elements `Bytes`, `NONE` parse to `bytes`, `none` with no note |
| `Text.LowerIdempotent` | redbot/message/headers/accept_ranges.py:22 | lowercasing twice is lowercasing once |
| `Text.LowerEqualIff` | redbot/message/headers/accept_ranges.py:22-23 | two strings lowercase to the same string exactly when they agree ignoring case |
| `HtmlFormatter.EJs` | redbot/formatter/html.py:745-755 | the escaped text, read as the body of a double-quoted JavaScript string, is the input (no quote in it ends the string early); it contains no `<`; text without `\`, `"` or `<` is unchanged; the empty string stays empty |
| `HtmlFormatter.EJsIsEscapeEach` | redbot/formatter/html.py:752-754 | the three whole-string replacements, in their order, equal escaping each character on its own |
| `HtmlFormatter.EscapeEachReadsBack` | redbot/formatter/html.py:745-755 | the per-character escape reads back as the input and contains no `<` |
| `HtmlFormatter.FormatYesNo` | redbot/formatter/html.py:684-694 | the cell is the icon template filled with the icon and alt text for yes, no or unknown: the icon name follows the static icon path, and the alt text closes the cell |
| `HtmlFormatter.FormatYesNoInjective` | redbot/formatter/html.py:684-694 | the three values give three different cells |
| `HtmlFormatter.ReqQs` | redbot/formatter/html.py:171-209 | the query string is the `&`-join of the rendered arguments of `QueryArgs`, in order |
| `HtmlFormatter.HeaderParts` | redbot/formatter/html.py:196-200 | the header loop renders exactly the copied header arguments, in order |
| `HtmlFormatter.FirstArg` | redbot/formatter/html.py:192-195 | the first argument is `id=` exactly when the stored test is asked for and a test id is known, and `uri=` otherwise |
| `HtmlFormatter.CheckNameArgs` | redbot/formatter/html.py:203-206 | at most one `check_name`: an explicit name wins, then the resource's own, and none when neither is given |
| `HtmlFormatter.HeaderArgsMembers` | redbot/formatter/html.py:196-200 | the copied arguments are exactly the request headers, minus the Referer headers when those are replaced |
| `HtmlFormatter.HeaderArgsAppend` | redbot/formatter/html.py:196-200 | headers are copied one at a time, so their order is kept |
| `HtmlFormatter.HeaderArgsKeepAll` | redbot/formatter/html.py:196-200 | without Referer replacement, every header is copied in the same position |
| `HtmlFormatter.QueryArgsReferer` | redbot/formatter/html.py:196-202 | with replacement, no copied header is a Referer, and exactly one Referer argument naming the current URI follows them; without replacement there is none |
| `HtmlFormatter.QueryArgsShape` | redbot/formatter/html.py:192-209 | only the first argument is `id=` or `uri=`; there is at most one `check_name`, and an explicit one is always present |
| `HtmlFormatter.TruncateUri` | redbot/formatter/html.py:570-588 | the URI is cut only when it is longer than 50 characters; then the 48 shown characters and the three fading characters spell its first 51 characters |
| `HtmlFormatter.ProblemsMembers` | redbot/formatter/html.py:621-622 | a resource's problems are exactly its Warn and Bad notes |
| `HtmlFormatter.RegisterProperties` | redbot/formatter/html.py:624-628 | the problem list only grows at its end, never holds a duplicate, holds every recorded problem, and holds nothing else |
| `HtmlFormatter.IndexOf` | redbot/formatter/html.py:628 | `list.index`: the first position holding the value |
| `HtmlFormatter.TableHtmlFormatter.RecordProblems` | redbot/formatter/html.py:621-628 | the list becomes the registry of the resource's problems; each problem's collected position holds that problem |
| `HtmlFormatter.TableHtmlFormatter.FormatDroid` | redbot/formatter/html.py:568-645 | the URI cell is the truncation of the URI. For a complete response, each problem is registered once, the row's class lists its position p, and the row shows p + 1. For an incomplete one, the list is unchanged and the row shows `response incomplete`, the error description, or `unknown problem` when that is empty |
| `HtmlFormatter.Shown` | redbot/formatter/html.py:632-636 | the displayed problem numbers are the positions plus one |
| `HtmlFormatter.BadCountIsCount` | redbot/formatter/html.py:400-401 | the warning count of a sub-request is the number of positions in its notes that hold a Bad note |
| `HtmlFormatter.BadCountAppend` | redbot/formatter/html.py:400-401 | the count over two note lists joined is the sum of their counts |
| `HtmlFormatter.WarningSuffix` | redbot/formatter/html.py:402-405 | no suffix for no Bad note; otherwise ` - N warning` for one and ` - N warnings` for more |
| `HtmlFormatter.NoWarningsIff` | redbot/formatter/html.py:400-405 | a link shows no warning count exactly when its sub-request has no Bad note |
| `HtmlFormatter.InCategoryMembers` | redbot/formatter/html.py:388 | the selected notes are exactly the notes of the category |
| `HtmlFormatter.InCategoryAppend` | redbot/formatter/html.py:388 | notes are selected one at a time, so their order is kept |
| `HtmlFormatter.SelectCategory` | redbot/formatter/html.py:388 | the selection loop returns the category's notes in order |
| `HtmlFormatter.LinksMembers` | redbot/formatter/html.py:394-406 | a check gets a link, with its own Bad-note count, exactly when it is one of the category's checks and its sub-request was fetched |
| `HtmlFormatter.LinksAppend` | redbot/formatter/html.py:395-406 | links are made check by check, so they follow the order of the category's checks |
| `HtmlFormatter.SubreqLinks` | redbot/formatter/html.py:395-406 | one link per fetched check of the category, in order, each with its Bad-note count |
| `HtmlFormatter.FormatCategory` | redbot/formatter/html.py:383-420 | just a newline when no note has the category; otherwise the category's notes in order, and for an analysed resource the links of its fetched checks |

## Left out

- Fetching the probe request, the network, and the shared sub-request machinery are left out. `Done` takes the probe response as it was delivered.
- `Calendar.UtcFromTimestamp` converts whole seconds only. Python also accepts fractional timestamps, which are outside the model. A timestamp out of range fails with `ValueError` under the Python 2 the source runs on, and the model gives None for it: no header, as the source's `ValueError` branch does.
- Note texts, summaries and template rendering are not modelled. A note keeps its kind, subject and named values.
- `LmValidation.LmValidate.Done`: the shared missing-header check is recorded as a call with its header names. What it reports is not modelled, because redbot/resource/active_check/base.py is not part of this model. `MISSING_HDRS_304`, the note kind passed to it, is not recorded.
- `LmValidation.LmValidate.Done` requires an error descriptor when the response is incomplete. Otherwise the source would raise `AttributeError` on `None.desc`.
- `Text.Lower` maps only the ASCII letters. Python's `str.lower` is Unicode-aware.
- Splitting the `Accept-Ranges` field value into list elements, and the header grammar, belong to the shared header framework. `AcceptRanges.ParseElements` receives the elements already split.
- `HtmlFormatter.EJs`: line terminators are not escaped, as in the source.
- `HtmlFormatter.ReqQs`: `e_query_arg` and `urljoin` are passed in as functions, because URL escaping and URI resolution are not modelled.
- `HtmlFormatter.TableHtmlFormatter.FormatDroid` models only the problem registry, the row class, the URI cell and the final cell. The status, size, caching, preview-class and other cells are templating and are left out. So are the link query strings in the row and HTML escaping. When the response is incomplete, the source leaves the row's `%s` class placeholder unfilled; this is modelled as an absent class list (`rowClasses == None`).
- `HtmlFormatter.TableHtmlFormatter.FormatDroid` compares problems by value. The source's notes are objects compared with `==`; redbot/speak.py, where notes are defined, is not part of this model.
- `HtmlFormatter.FormatCategory`: the note list items use `id(note)`, and the hidden texts are appended to `hidden_text`. Both depend on object identity and rendered text and are left out. The links' query strings are `ReqQs` with the check name, and are not repeated.
- `HtmlFormatter.FormatCategory`, `HtmlFormatter.SubreqLinks` and `HtmlFormatter.Links` require every check of the category to have a sub-request. The source looks the check up with `resource.subreqs[check_name]` and would raise `KeyError` for a missing one; the model does not include that error.
- `HtmlFormatter.FormatYesNo` takes a three-valued `TriState`. The source raises `AssertionError` for any other value, and that cannot arise here.
- redbot/message/headers/content_base.py only declares header metadata, and nothing of it is modelled.
