# UIMS session client, modelled in Dafny

This project models the core of `SessionUIMS`, the client class of the
`uims_api` package. The class logs in to the university's UIMS web portal and
reads a student's attendance. Three parts are modelled:

- **Login outcome and session state.** `SessionUIMS` keeps two mutable fields:
  the cookie jar obtained by logging in, and the memoized attendance list. A
  password submission that answers with status 200 means the credentials were
  refused (`IncorrectCredentialsError`). Any other status yields the password
  page's cookies merged with the password step's cookies. `refresh_session` logs in
  again and replaces the cookies. The `attendance` property fetches only while
  nothing is cached.
- **Report-id scraping.** `_get_attendance` finds the first `getReport` in the
  attendance page. It takes the first `'` from there on and the next `'` after
  that, and slices the text between them. This is index arithmetic over Python's
  `str.find`, which returns -1 when there is no match, and Python slicing, which
  accepts negative and inverted bounds. Both are written out in module `PyStr`.
  So `Report.ReportId` is total, and the lemmas cover every page, including
  pages without the marker.
- **Request body.** The GetReport request body is the hand-built string
  `{UID:'<report id>',Session:'19201'}`.

Modules: `PyStr` (Python's `find` and slicing), `Exceptions` (the package's
three exception classes and the libraries' exceptions as one error type, plus
`Result` and `Option`), `Report` (report-id scraping and the request body), and
`Session` (login outcome, memoization, and the `SessionUIMS` class).

In these points the code behaves differently from what its names suggest; the
model follows the code:

- The code rejects a login only when the status is exactly 200. Every other
  status, not just a redirect, counts as success.
- The Session value in the body is the literal `19201`. It is not scraped from
  the page.
- No error-page detection exists in the code. `UIMSInternalError` and
  `PasswordExpiredError` are declared but never raised.
- `refresh_session` keeps the cached attendance, so a cached value survives a
  refresh.

Network results are parameters:

- `LoginReplies` holds what decides a login: the password page's cookies, the
  status code of the password submission, and the cookies that submission sets.
- `Portal` gives the attendance page text for the cookies sent. It also gives
  the doubly decoded GetReport reply for a request body. The GetReport request
  is sent without cookies, as in the code. Either exchange may raise instead
  (a network failure, a reply without `"d"`, JSON that does not decode). This
  is the `Foreign` error, and the `attendance` property then keeps its cache
  as it was.
- `Json.Null` stands for both JSON `null` and Python's `None`. So a fetch that
  decodes to `null` is not cached, as in the code.

## Model

| member | source | states |
|---|---|---|
| `PyStr.Find` | uims_api/session.py:76-78 | `str.find`: returns -1 exactly when the pattern occurs nowhere; otherwise returns an offset where it occurs, with no occurrence before it |
| `PyStr.Slice` | uims_api/session.py:77-79 | a Python slice never fails: its length is the distance between the normalised bounds (zero when inverted), and its characters are those of the string from the normalised start |
| `PyStr.Bound` | uims_api/session.py:77-79 | Python's normalisation of one slice bound: an in-range index is kept, a negative one counts from the end, and the result is clamped to the string's length |
| `PyStr.Suffix` | uims_api/session.py:77-78 | no contract of its own; `s[i:]` as `Slice(s, i, len(s))`, characterised by `SuffixFromLast` and by `Slice`'s contract |
| `PyStr.SuffixFromLast` | uims_api/session.py:77-78 | `text[-1:]`, reached when `getReport` is missing, is the last character (empty for an empty page) |
| `PyStr.SliceDropLast` | uims_api/session.py:79 | `text[0:-1]`, reached when the marker opens the page and no quote follows, is the page minus its last character |
| `PyStr.SliceLastInverted` | uims_api/session.py:79 | `text[-1:-2]`, reached when neither the marker nor a final quote is present, is empty |
| `Report.MarkerAt` | uims_api/session.py:76 | no contract of its own; `js_report_block`, characterised by `Find`'s contract and pinned by `FirstMarker` in `OpeningQuoteAt` and `ReportIdBetweenQuotes` |
| `Report.OpeningQuote` | uims_api/session.py:77 | no contract of its own; `initial_quotation_mark`, characterised by `OpeningQuoteAt`, `ReportIdSingleQuote`, `ReportIdNoQuoteAfterMarker` and `ReportIdWithoutMarker` |
| `Report.ClosingQuote` | uims_api/session.py:78 | no contract of its own; `ending_quotation_mark`, characterised by `ClosingQuoteAt` and `ReportIdSingleQuote` |
| `Report.ReportId` | uims_api/session.py:79 | no contract of its own; `report_id`, characterised by `ReportIdBetweenQuotes`, `ReportIdSingleQuote`, `ReportIdNoQuoteAfterMarker`, `ReportIdWithoutMarker` and `ReportIdHasNoQuote` |
| `Report.RequestBody` | uims_api/session.py:83 | no contract of its own; `data`, characterised by `BodyRoundTrip`, `ParseBodyBuilds`, `BodyInjective`, `UidValueOfBody` and `SessionValueOfBody` |
| `Report.OpeningQuoteAt` | uims_api/session.py:76-77 | `initial_quotation_mark` is the first quote at or after the first `getReport` |
| `Report.ClosingQuoteAt` | uims_api/session.py:78 | `ending_quotation_mark` is one before the next quote after the opening one |
| `Report.ReportIdBetweenQuotes` | uims_api/session.py:76-79 | with two quotes after the first `getReport`, the report id is exactly the text strictly between the first two |
| `Report.ReportIdSingleQuote` | uims_api/session.py:78-79 | with exactly one quote after the marker, the inner `find` yields -1, the closing mark is `q1 - 1`, and the id is empty |
| `Report.ReportIdNoQuoteAfterMarker` | uims_api/session.py:76-79 | with no quote after the marker, the id is empty, except when the marker opens the page: then it is the page minus its last character (`text[0:-1]`) |
| `Report.ReportIdWithoutMarker` | uims_api/session.py:76-79 | without `getReport`, the id is the text before the first quote if the page ends in a quote, and empty otherwise |
| `Report.ReportIdHasNoQuote` | uims_api/session.py:77-79 | on every page, the extracted report id contains no `'` |
| `Report.ReportIdExample` | uims_api/session.py:76-79 | the fragment `getReport('abc123')` yields the id `abc123` |
| `Report.BodyRoundTrip` | uims_api/session.py:83 | removing the fixed prefix and suffix from the body gives back the report id |
| `Report.ParseBodyBuilds` | uims_api/session.py:83 | every string that parses as a body is the body built from the id it parses to |
| `Report.BodyInjective` | uims_api/session.py:83 | different report ids give different bodies |
| `Report.UidValueOfBody` | uims_api/session.py:83 | the UID field ends exactly where the id ends (at the first quote after the prefix) if and only if the id has no quote |
| `Report.SessionValueOfBody` | uims_api/session.py:83 | for a quote-free id, the Session field of the body reads `19201` |
| `Report.ScrapedIdReadsBack` | uims_api/session.py:76-83 | for every page, the body's UID field reads back as the scraped id and its Session field as `19201` |
| `Session.MergeCookies` | uims_api/session.py:59 | the merged jar has the names of both jars; a password-step cookie wins over a login cookie of the same name |
| `Session.Login` | uims_api/session.py:53-60 | status 200 raises `IncorrectCredentials` and yields no cookies; any other status yields the merge of the login and session cookies |
| `Session.LoginCookies` | uims_api/session.py:57-60 | after a successful login, each cookie name is present exactly when one of the two jars has it, with the session step's value taking precedence |
| `Session.FetchAttendance` | uims_api/session.py:72-87 | no contract of its own; what `_get_attendance` returns or raises, characterised by `SessionUIMS.GetAttendance` and `ScrapedIdReadsBack` |
| `Session.CacheAfter` | uims_api/session.py:67-68 | no contract of its own; the cache after one read, characterised by `ReadsMemoize`, `ReadsStable` and `SessionUIMS.Attendance` |
| `Session.ReadResult` | uims_api/session.py:67-70 | no contract of its own; what one read returns or raises, characterised by `ReadsAt`, `ReadsStable` and `SessionUIMS.Attendance` |
| `Session.ReadsAt` | uims_api/session.py:65-70 | each `attendance` read returns the cached value if there is one, and otherwise returns or raises what its fetch does |
| `Session.ReadsMemoize` | uims_api/session.py:65-70 | before each read the cache holds the starting value if there was one, else the first non-`None` value fetched so far; fetches that raised leave no trace |
| `Session.ReadsStable` | uims_api/session.py:65-70 | once a non-`None` value is cached, every later read returns that same value |
| `Session.ReadFetches` | uims_api/session.py:65-70 | a read fetches exactly when nothing was cached at the start and no earlier fetch returned a value other than `None` |
| `Session.SessionUIMS.Init` | uims_api/session.py:14-17 | a new object holds the uid and password, cookies `None`, no cached attendance and no attendance fetches yet |
| `Session.SessionUIMS.Open` | uims_api/session.py:14-20 | construction raises `IncorrectCredentials` exactly on status 200; on success the session holds the login result's cookies, `None` as cached attendance, and has made no attendance fetch |
| `Session.SessionUIMS.RefreshSession` | uims_api/session.py:62-63 | either raises and leaves the cookies unchanged, or sets them to the new login result; the cached attendance and the fetch count stay as they were |
| `Session.SessionUIMS.GetAttendance` | uims_api/session.py:72-87 | when the attendance page is fetched, the posted body's UID field is the report id scraped from it and its Session field is `19201`, and the result is the portal's decoded reply to that body; when fetching the page raises, nothing is posted and the error propagates; each call is one fetch (the ghost `fetchCount` grows by one) |
| `Session.SessionUIMS.Attendance` | uims_api/session.py:65-70 | asks the portal (the ghost `fetchCount` grows by one) exactly when the cache is `None`, and `fetched` reports it; with a value cached, the result does not depend on the portal and is that value; otherwise the fetched value is stored and returned, and a fetch that raises propagates with the cache left as it was; the cookies do not change |

## Left out

- HTTP requests (uims_api/session.py:23, 31, 39, 48, 75, 84) are not modelled.
  Their results are parameters (`LoginReplies`, `Portal`). The redirect URL
  (line 38) and the form fields carrying the uid and password (lines 27-29,
  44-46) are left out. They only travel to the portal, and none of the model's
  members takes them.
- Session.Login: only the status-200 failure is modelled. `_login` can also
  raise on a missing `location` header (line 38), a missing `__VIEWSTATE`
  input (lines 27, 44) or a network error. Those exceptions come from
  libraries not part of this model.
- BeautifulSoup parsing of the `__VIEWSTATE` hidden input (lines 24-25, 41-42) is
  not modelled. It is foreign library code, and the token only travels to the portal.
- The double `json.loads` (lines 86-87) is folded into `Portal.getReport`. It is a
  library call; the decoded value is an opaque `Json`, with JSON numbers as integers.
- Session.MergeCookies: the behaviour of `requests.cookies.merge_cookies` is an
  assumption (a map union in which the second jar wins). The library is not part
  of this model. Cookie domains and paths, and the fact that the call mutates the
  login jar in place, are ignored.
- Exception messages are not modelled. The exception classes become the
  variants of `Exceptions.Error`.
- Session.SessionUIMS.Open: Python's constructor cannot be modelled as a Dafny
  constructor that raises. It is modelled as a static method that allocates
  the object, logs in, and returns `Err` when the login raises.
- setup.py (packaging) and View.py (command line, password prompt, printing)
  are not part of this model.
- Timetable, marks, profile, CAPTCHA handling and current-session scraping have
  no code in this version of `session.py`, so none is modelled.
