# License request endpoint — a Dafny model

The system is a single PHP endpoint (`index.php`) that manages rows of a
`licenserequests` table. A POST with a `national_id` and a `license_id`
looks up the user and the license and inserts a pending request with no
expiry. A PUT or PATCH with a `request_id` and a `status` runs a small
state machine. A status loosely equal to `'0'` rejects the request and
clears its expiry. The status `'1'` approves it and stores an expiry of
"now plus the license's validity", counted in days, months or years.
Any other status is an error. Every other HTTP method gets 405.

The model keeps the database in memory. The class `Database.Db` holds the
`users`, `licenses` and `licenserequests` tables and the auto-increment
counter. Its methods insert or update one row in place. The status
update is also written as a pure function, `LicenseRequests.UpdateSpec`,
from the old table to the result and the new table. The method is proved
equal to it, and the lemmas about the state machine are stated on it.
The clock is an argument (`now`). Calendar addition with formatting is
an argument too (`addPeriod(now, amount, unit)`), so nothing about the
calendar is assumed.

Modules, one per concern of `index.php`:

- `Wrappers`: Option and Result.
- `PhpStrings`: the PHP built-ins the code relies on. These are `empty()`
  on strings, `trim()`, `strtolower()`, `strpos(...) !== false`, and
  integer interpolation in messages.
- `PhpNumeric`: PHP 8's `$status == '0'`. It holds for a numeric string
  whose value is zero: `"0"`, `"00"`, `"-0"`, `"0.0"`, `".0"`, `"0e5"`,
  `" 0"`, and so on.
- `QueryKind`: how `run_query` picks its result kind from the query text.
- `LicenseRequests`: the table rows, the exceptions and their messages,
  row lookup, the unit and status dispatch, and `UpdateSpec` with its
  lemmas.
- `Database`: the tables as a class, with `get_user_info`,
  `get_license_info`, `create_license_request` and
  `update_license_request_status`.
- `Handlers`: `handler` and `update_handler`.
- `Router`: method dispatch, mapping exceptions to status codes, and two
  scenarios: a create on an empty table, and an approve of a seeded
  pending request.

Invariant: after a successful update, the row has an expiry exactly when
status `'1'` was written. Tables whose rows already satisfy this keep
satisfying it through every operation (`Consistent`).

The input check interacts with the reject branch. PHP's `empty("0")` is
true, so `update_handler` turns the literal status `"0"` away with an
invalid-argument error. The reject branch is reached only by the other
strings loosely equal to `"0"`, such as `"00"` or `"0.0"`. Through the
router it is also reached by a form-feed-prefixed `"\f0"`, because
`trim()` does not strip form feed.

The model keeps three behaviours of `index.php` as the code has them:

- The reject path writes the status string it received, so `"00"` is
  stored as `"00"`.
- Only `'0'`-like and `'1'` statuses are accepted; anything else throws.
- A new request starts with a null expiry.

## Model

| member | source | states |
|---|---|---|
| `PhpStrings.Trim` | index.php:192-193 | the result is no longer than the input and neither starts nor ends with a character `trim()` strips |
| `PhpStrings.TrimKeepsSolid` | index.php:192-193 | every character of the input that `trim()` does not strip is still in the result |
| `PhpStrings.TrimIsInfix` | index.php:192-193 | the result is a contiguous slice of the input, and everything before and after that slice is a character `trim()` strips |
| `PhpStrings.TrimKeeps` | index.php:212 | a string with no strippable character at either end is left unchanged |
| `PhpStrings.IsEmpty` | index.php:151 | definition, with no contract of its own: `empty()` on a string is true for "" and "0" only; `EmptyAndLooseZero` and `RejectPathThroughUpdateHandler` state how it meets the status test |
| `PhpStrings.ToLower` | index.php:32-37 | the result has the input's length, and each character is lowered on its own, ASCII A-Z only |
| `PhpStrings.Contains` | index.php:32 | the substring test is true exactly when the needle occurs at some index of the haystack |
| `PhpNumeric.LooselyEqualsZero` | index.php:86 | definition, with no contract of its own: a numeric string (blanks, optional sign, digits with at most one point, optional exponent, blanks) whose digits are all zero; the lemmas below state the facts the proofs rely on |
| `PhpNumeric.LooseZeroHasZeroDigit` | index.php:86 | every string loosely equal to "0" contains the digit 0 |
| `PhpNumeric.EmptyAndLooseZero` | index.php:173 | "0" is the only string that is both `empty()` and loosely equal to "0" (both directions) |
| `PhpNumeric.OneIsNotLooseZero` | index.php:86-88 | "1" is not loosely equal to "0", so the reject and approve branches never overlap |
| `PhpNumeric.ZerosAreLooseZero` | index.php:86 | every run of one or more zero digits is loosely equal to "0" |
| `PhpNumeric.DoubleZeroIsLooseZero` | index.php:86 | "00" is not `empty()` and is loosely equal to "0" |
| `QueryKind.Classify` | index.php:32-41 | the lower-cased query gives the insert id when it contains "insert", the row list when it contains "select" but not "insert", and `true` when it contains neither |
| `QueryKind.ClassifyIgnoresCase` | index.php:32-37 | lower-casing the query first does not change its kind |
| `QueryKind.InsertWinsOverSelect` | index.php:32-39 | a query containing both "insert" and "select" gives the insert id |
| `QueryKind.InsertRequestQueryYieldsId` | index.php:68-77 | the insert of `create_license_request` returns the new row's id |
| `LicenseRequests.Where` | index.php:48-63 | the selected rows are exactly the table rows whose key column equals the value, and there are no more of them than table rows |
| `LicenseRequests.WhereKeepsMultiplicity` | index.php:37-38 | every matching row is kept as many times as it occurs in the table, and no other row appears |
| `LicenseRequests.FirstWhere` | index.php:163-164 | the first selected row is null exactly when no row matches; otherwise it is the earliest matching row in table order |
| `LicenseRequests.First` | index.php:163-164 | definition, with no contract of its own: the first row of a result set or null; `FirstWhere` states what it picks from a `Where` |
| `LicenseRequests.UnitOf` | index.php:112-127 | definition, with no contract of its own: the `switch` on the unit code; `UnitCodes` states which codes are valid |
| `LicenseRequests.Message` | index.php:95-133 | definition, with no contract of its own: the text of each exception, with the request id interpolated in decimal and the license id, unit and status as given |
| `LicenseRequests.UnitCodes` | index.php:112-127 | codes 1, 2 and 3 are exactly the valid units (days, months, years), and code and unit are in one-to-one correspondence |
| `LicenseRequests.PathOf` | index.php:86-88 | a status takes the reject path exactly when it is loosely equal to "0", and the approve path exactly when it is the string "1" |
| `LicenseRequests.SetStatus` | index.php:137-142 | an UPDATE by id changes only the status and expiry of that row, if it exists; it adds no key and leaves every other row as it was |
| `LicenseRequests.UpdateSpec` | index.php:81-143 | a failed update leaves the table unchanged; a successful one returns `true`; no row other than `request_id` changes; no row is added or removed |
| `LicenseRequests.PendingRow` | index.php:70-75 | its definition gives the status 'pending', the two identifiers and a null expiry; its contract states that the row's expiry matches its status |
| `LicenseRequests.RejectPath` | index.php:86-87 | a status loosely equal to "0" returns `true` even for a missing id, and the row, if present, gets that status and a null expiry |
| `LicenseRequests.ApprovePath` | index.php:88-131 | status "1" fails with request-not-found, license-not-found or invalid-unit, in that order; otherwise the row becomes "1" with expiry `addPeriod(now, validaty, unit)` from the first matching license |
| `LicenseRequests.UnrecognisedStatus` | index.php:132-134 | any other status throws "Invalid status value" and writes nothing |
| `LicenseRequests.SuccessfulUpdateSetsExpiryIffApproved` | index.php:137-142 | after a successful update, the row carries the written status and has an expiry exactly when that status is "1" |
| `LicenseRequests.UpdatePreservesConsistency` | index.php:81-143 | if every row's expiry matched its status before an update, every row's still does after it |
| `LicenseRequests.InsertPreservesConsistency` | index.php:66-77 | inserting a pending row keeps every row's expiry matched to its status |
| `Database.Db.SelectUsers` | index.php:48-54 | returns exactly the users with the given national id, in table order |
| `Database.Db.SelectLicenses` | index.php:57-63 | returns exactly the licenses with the given license id, in table order |
| `Database.Db.CreateLicenseRequest` | index.php:66-77 | adds exactly one pending row with a null expiry and the given identifiers, under a fresh id that it returns; existing rows are unchanged |
| `Database.Db.UpdateLicenseRequestStatus` | index.php:81-143 | its result and new table are those of `UpdateSpec`; consistency of expiry with status is preserved |
| `Handlers.Handler` | index.php:148-167 | an `empty()` identifier throws an invalid argument and writes nothing; otherwise a pending request is created even with no matching user or license, and the first user row, the first license row (each possibly null) and the new id are returned |
| `Handlers.UpdateHandler` | index.php:170-185 | a zero id or an `empty()` status throws an invalid argument and writes nothing; otherwise the table becomes that of `UpdateSpec`, and its result is echoed with the id and the status |
| `Handlers.RejectPathThroughUpdateHandler` | index.php:173-175 | the strings that pass the input check and take the reject path are exactly those loosely equal to "0" other than "0"; "0" itself is stopped by `empty()` |
| `Handlers.RejectPathReachable` | index.php:86 | "00" passes the input check and takes the reject path |
| `Router.EndpointOf` | index.php:189-208 | POST goes to create, PUT and PATCH to update, and every other method is refused |
| `Router.ErrorResponse` | index.php:201-206 | the body is the exception's message; the code is 400 exactly for an invalid argument and 500 otherwise |
| `Router.CreateInputOk` | index.php:192-197 | definition, with no contract of its own: both ids are present and neither is `empty()` after `trim()`; `Route` gives 400 exactly when it fails on a POST |
| `Router.UpdateInputOk` | index.php:211-216 | definition, with no contract of its own: both fields are present, the id is not 0 and the trimmed status is not `empty()`; `Route` gives 400 exactly when it fails on a PUT or PATCH |
| `Router.Route` | index.php:188-230 | other methods give 405 "Method not allowed"; a missing or empty field gives 400 and no write; otherwise the response and new table follow `Handler` or `UpdateSpec`, with string fields trimmed first; the id counter goes up by one exactly on a POST that creates a request and stays put otherwise |
| `Router.PaddedZeroStatusIsBadRequest` | index.php:212-218 | a status of "0" with any blanks that `trim()` strips before it and any after it, on either side independently, is refused with 400 |
| `Router.FormFeedZeroReachesReject` | index.php:212-218 | the status "\f0" survives `trim()`, passes every input check and takes the reject path |
| `Router.ApproveStatusPassesChecks` | index.php:212-218 | the status "1" survives `trim()`, passes the `empty()` check and takes the approve path |
| `Router.CreateOnEmptyTable` | index.php:189-200 | a POST with trimmed, non-empty ids on a table with no requests answers 200 with no user row, the first matching license row and id 1, and leaves request 1 pending with no expiry |
| `Router.ApprovePending` | index.php:208-219 | a PUT with status "1" on a pending request answers 200 with the echoed id, status and `true`, and leaves the row approved with expiry `addPeriod(now, validaty, unit)` |

## Left out

- The PDO connection, statement preparation, parameter binding, and the
  `die()` calls on connection or query failure. Database errors are
  therefore never produced. The store is the in-memory `Db`.
- The ids handed out: `lastInsertId` returns the id as a numeric string,
  and AUTO_INCREMENT may skip values. The model returns the id as an
  integer from a counter that grows by one.
- The comparisons in the WHERE clauses: MySQL's collation makes them
  case-insensitive and blind to trailing spaces. The model uses exact
  string equality. The model also takes the order of a SELECT without
  ORDER BY to be table order.
- `DateTime::modify` calendar arithmetic and the 'Y-m-d H:i:s'
  formatting. These are the `addPeriod` argument, so the model assumes
  nothing about them.
- The extra `:expireTime` parameter bound in the `'0'` branch, whose
  query has no such placeholder. A driver may reject it. The model
  performs the intended write.
- `validaty_unit` as the driver returns it. PHP may get it as a string
  and match it with the loose `switch` comparison, so `"01"` would match
  1. The model reads both validity columns as integers.
- JSON decoding and encoding, `php://input`, headers and
  `http_response_code`. The body arrives as a decoded `Payload` of
  optional strings plus the `(int)`-cast `request_id`. Without strict
  types, `trim()` converts a JSON number or boolean to its string form
  ("1", "0", ""), and that string is what reaches `Payload`. An array
  or object field makes `trim()` throw a TypeError, which neither catch
  block catches; that case is not modelled.
- Races between the reads and the write of the approve path. There are
  no transactions, and only one request is modelled at a time.
- `PhpNumeric.LooselyEqualsZero`: does not treat a nonzero number that
  underflows to 0.0 as a double (such as `"1e-400"`) as equal to `"0"`,
  because floating point is not modelled.
