# Manhattan taxi busyness dashboard: a Dafny model of its query logic

The application is a small Flask server. At startup it loads a summary table
of taxi ridership (one row per date, time-of-day period and Manhattan zone,
with a ridership count and a busyness category). It then serves two routes:
the index page, which lists the distinct dates of the table, and
`/api/busyness`, which answers a `date` and `period` query with the matching
zones as a JSON array. This project models the logic of those two routes and
the database-URL scheme fix in `get_connection`, and proves what they promise.

Files:

- `wrappers.dfy`: `Option`, for a missing query parameter or a failed conversion.
- `strings.dfy`: the Python string operations the code uses. These are
  `lower()`, `startswith`, `replace(old, new, 1)` and the string ordering `<`
  that `sorted` applies.
- `connection.dfy`: the rewrite of a `postgres://` URL to `postgresql://`.
- `summary.dfy`: a row of the in-memory table (`SUMMARY`), generic in the raw
  type of the `LocationID` column.
- `busyness.dfy`: the `/api/busyness` handler. `Busyness` is the answer as a
  function. `ApiBusyness` is the handler as written, a loop that appends one
  record per row. It is proved equal to `Busyness`, and the lemmas state what
  `Busyness` guarantees.
- `date_index.dfy`: the index page's `sorted(SUMMARY["date"].unique())`.

How the model abstracts the program:

- The table is a `seq<Row<Id>>` in load order and is never modified.
- The request is two `Option<string>` values. `None` stands for an absent
  parameter.
- The JSON response is `BadRequest(error)` (status 400) or `Ok(records)`
  (status 200).
- `int(row["LocationID"])` is the parameter `toInt: Id -> Option<int>`.
  `None` stands for the exception that makes the loop skip the row.
- Ridership is a `real` that is copied through unchanged.
- Dates are strings. They are compared for equality in the query and ordered
  as Python orders strings on the index page.

Two details of the code that the model keeps:

- `if not date_str or not period` (app.py:74) rejects an empty parameter as
  well as an absent one.
- The stored period is compared exactly with the lowered input (app.py:80).
  `Busyness.MatchIgnoringCase` shows this is a case-insensitive match,
  because the loader lowers the column (app.py:41).

## Model

| member | source | states |
|---|---|---|
| `Busyness.Busyness` | app.py:70-101 | The answer as a function of the table and the two raw parameters: the 400 error, or the projection of the selected rows. Its properties are stated by the `Busyness.MissingParameterRejected`, `Busyness.BusynessInTableOrder`, `Busyness.BusynessSound`, `Busyness.BusynessComplete`, `Busyness.BusynessSkipsBadIds` and `Busyness.PeriodCaseInsensitive` rows. |
| `Busyness.Present` | app.py:74 | A parameter passes the check when it is present and not the empty string. `Busyness.MissingParameterRejected` states the consequence. |
| `Busyness.Matches` | app.py:80 | The mask: the row's date equals the input date and its period equals the given (lowered) period. `Busyness.SelectKeepsMatching` and `Busyness.MatchIgnoringCase` state its properties. |
| `Busyness.ApiBusyness` | app.py:70-101 | The handler's loop computes exactly the specified answer for every table, parameter pair and id conversion. This includes the 400 error, the early empty answer and the rows skipped for a bad id. |
| `Busyness.MissingParameterRejected` | app.py:71-75 | The answer is the 400 error `Missing date or period` exactly when `date` or `period` is absent or empty. Otherwise the status is 200. |
| `Busyness.BusynessInTableOrder` | app.py:77-101 | With both parameters present, the answer holds one record per kept row, in table order. A kept row has the exact date, the lower-cased period and an id that converts. Each record is that row's record. No other record appears. |
| `Busyness.BusynessSound` | app.py:77-98 | Every record comes from a row whose date equals the input and whose period equals the lower-cased input. The row's id converts to the record's `location_id`, and zone, ridership and category are copied from it. |
| `Busyness.BusynessComplete` | app.py:80-99 | Every row with the input date, the lower-cased period and a convertible id contributes its record to the answer. |
| `Busyness.BusynessSkipsBadIds` | app.py:82-92 | A bad id does not fail the request, and the answer is still a 200 array. The array is no longer than the list of matching rows. It is exactly as long when every matching id converts. It is empty when no row of the table has the date and the lowered period. |
| `Busyness.PeriodCaseInsensitive` | app.py:78-80 | Two requests whose periods differ only in letter case get the same answer. |
| `Busyness.MatchIgnoringCase` | app.py:78-80 | For a row whose period is lower case, as the loader's `lower(r.bucket)` makes it, matching the lower-cased input is the same as comparing dates exactly and periods ignoring case. |
| `Busyness.Select` | app.py:80 | The boolean mask keeps at most as many rows as the table has. |
| `Busyness.MatchPositions` | app.py:80 | The positions of the rows the mask keeps are strictly increasing and within the table. A position is among them exactly when its row has the date and the period. |
| `Busyness.SelectAtMatchPositions` | app.py:80 | The mask's result is the table taken at those positions, in table order. |
| `Busyness.SelectKeepsMatching` | app.py:80 | A row is in the mask's result exactly when it is a row of the table with the date and the period. |
| `Busyness.SelectEmptyIff` | app.py:80-83 | The mask's result is empty exactly when no row of the table has the date and the period. |
| `Busyness.Project` | app.py:85-99 | The loop yields at most one record per selected row. |
| `Busyness.SourceRows` | app.py:80-92 | The positions of the rows that produce records are strictly increasing and within the table. A position is among them exactly when its row matches and its id converts. |
| `Busyness.ProjectSelectFromSourceRows` | app.py:80-99 | Filtering then projecting gives, one for one and in order, the records of the rows at those positions. |
| `Busyness.ProjectLength` | app.py:86-92 | Projection keeps the length of its input exactly when every id converts. |
| `Strings.LowerChar` | app.py:78 | Lowering a character leaves no capital letter, and a character that is not a capital is unchanged. |
| `Strings.Lower` | app.py:78 | The ASCII fold keeps the length of the string. |
| `Strings.LowerAt` | app.py:78 | `lower()` lowers each character in its own position. |
| `Strings.LowerIsLowercase` | app.py:78 | The result of `lower()` has no capital letters. |
| `Strings.LowerFixesLowercase` | app.py:78 | `lower()` leaves a string unchanged exactly when the string has no capital letters. |
| `Strings.LowerIdempotent` | app.py:78 | Lowering twice is the same as lowering once. |
| `Strings.LowerEqualIff` | app.py:78 | Two strings lower to the same string exactly when they differ only in letter case. |
| `Strings.StartsWith` | app.py:18 | `startswith`: the string begins with the prefix. `Connection.FixSchemeResult` and `Connection.FixSchemeKeepsScheme` state how the test decides the rewrite. |
| `Strings.ReplaceFirst` | app.py:19 | `replace(old, new, 1)`, scanning from the left. `Strings.ReplaceFirstAtFirstOccurrence` and `Strings.ReplaceFirstAbsent` state its result. |
| `Strings.ReplaceFirstAtFirstOccurrence` | app.py:19 | `replace(old, new, 1)` replaces the leftmost occurrence of `old`, and only that occurrence. |
| `Strings.ReplaceFirstAbsent` | app.py:19 | `replace(old, new, 1)` returns the string unchanged when `old` does not occur. |
| `Connection.FixScheme` | app.py:18-19 | The rewrite applied to the database URL. `Connection.FixSchemeResult`, `Connection.FixSchemeYieldsScheme`, `Connection.FixSchemeKeepsScheme` and `Connection.FixSchemeIdempotent` state its result. |
| `Connection.FixSchemeResult` | app.py:18-19 | A URL starting with `postgres://` becomes `postgresql://` followed by the rest of the URL, unchanged. Any other URL is returned as it is. |
| `Connection.FixSchemeYieldsScheme` | app.py:18-19 | After the rewrite, a URL that had either scheme starts with `postgresql://`. |
| `Connection.FixSchemeKeepsScheme` | app.py:18-19 | A URL that already starts with `postgresql://` is left alone. |
| `Connection.FixSchemeIdempotent` | app.py:18-19 | Rewriting twice gives the same URL as rewriting once. |
| `Strings.Less` | app.py:65 | Python's `<` on strings: code point by code point, a proper prefix first. The four rows below state that it is a strict total order, which `DateIndex.ListDates` relies on. |
| `Strings.LessIrreflexive` | app.py:65 | No string sorts before itself. |
| `Strings.LessTransitive` | app.py:65 | The string ordering that `sorted` uses is transitive. |
| `Strings.LessTotal` | app.py:65 | Any two different strings are ordered one way or the other. |
| `Strings.LessAsymmetric` | app.py:65 | Two strings are never each below the other. |
| `DateIndex.Insert` | app.py:65 | Adding a date to a strictly increasing list keeps it strictly increasing. The list gains exactly that date. |
| `DateIndex.ListDates` | app.py:65 | The index's dates are strictly increasing, so they are sorted and hold no duplicates. They are exactly the dates present in the table. |
| `DateIndex.StrictlySortedUnique` | app.py:65 | Two strictly increasing lists with the same elements are equal. |
| `DateIndex.ListDatesIsTheSortedEnumeration` | app.py:65 | Any strictly increasing list of exactly the table's dates equals the index's list. |

## Left out

- The Flask app object, the route decorators, `request.args`, `jsonify`, `render_template` and `app.run` are left out. They are HTTP, HTML and process glue.
- The environment lookup of `DATABASE_URL`, `psycopg2.connect` and the local fallback connection settings in `get_connection` are left out. They are environment access and I/O. Only the URL rewrite is modelled.
- The SQL join and `pd.read_sql` in `load_summary_from_db` are left out because they run inside the database and pandas. The table is an input of every operation. Its load-once lifetime is not modelled.
- `float(row["ridership"])` is left out because it is a floating-point conversion. Ridership is carried as a `real` and copied unchanged.
- `int(row["LocationID"])` is abstracted as the total function `toInt` into `Option<int>`. Its pandas and Python behaviour is not modelled: NaN, floats and parsing of text.
- `.copy()` has no observable effect and is not modelled. `.empty` is the check on the length of the selected rows in `Busyness.ApiBusyness`.
- Strings.LowerChar: only the ASCII capitals `A`-`Z` are lowered. Python's `lower()` also maps other Unicode capitals, some of them to more than one character. The case-insensitivity lemmas hold for this ASCII fold.
- DateIndex.ListDates: dates are ordered as strings. If the driver returns date objects, Python orders them by calendar. For ISO `YYYY-MM-DD` text that order is the same.
- That repeated identical requests get identical answers needs no lemma, because `Busyness.Busyness` is a function.
